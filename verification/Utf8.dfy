/** UTF-8 as a byte syntax (section 4 of RFC 3629), and `utf8.ValidString`. */
module Utf8 {
  import opened Bytes

  predicate IsTail(b: Byte) {
    0x80 <= b <= 0xBF
  }

  /** Whether the second byte may follow the first in a character of three or four
      bytes. */
  predicate SecondFits(b0: Byte, b1: Byte) {
    match b0
    case 0xE0 => 0xA0 <= b1 <= 0xBF
    case 0xED => 0x80 <= b1 <= 0x9F
    case 0xF0 => 0x90 <= b1 <= 0xBF
    case 0xF4 => 0x80 <= b1 <= 0x8F
    case _ => IsTail(b1)
  }

  /** The length of the character at the head of s, or 0 if there is none. */
  function CharLen(s: Bytes): (n: nat)
    ensures n <= |s| && n <= 4
    ensures forall i :: 0 < i < n ==> IsTail(s[i])
    ensures n > 0 ==> !IsTail(s[0])
  {
    if s == [] then 0
    else if s[0] <= 0x7F then 1
    else if 0xC2 <= s[0] <= 0xDF then
      if |s| >= 2 && IsTail(s[1]) then 2 else 0
    else if 0xE0 <= s[0] <= 0xEF then
      if |s| >= 3 && SecondFits(s[0], s[1]) && IsTail(s[2]) then 3 else 0
    else if 0xF0 <= s[0] <= 0xF4 then
      if |s| >= 4 && SecondFits(s[0], s[1]) && IsTail(s[2]) && IsTail(s[3]) then 4 else 0
    else 0
  }

  predicate Valid(s: Bytes) {
    s == [] || (CharLen(s) > 0 && Valid(s[CharLen(s)..]))
  }

  /** A character is recognized by its own bytes only. */
  lemma CharLenOfPrefix(s: Bytes, t: Bytes)
    requires CharLen(s) > 0
    ensures CharLen(s + t) == CharLen(s) && CharLen(s[..CharLen(s)]) == CharLen(s)
  {
  }

  lemma {:induction false} ValidConcat(a: Bytes, b: Bytes)
    requires Valid(a) && Valid(b)
    ensures Valid(a + b)
    decreases |a|
  {
    if a == [] {
      assert a + b == b;
    } else {
      var n := CharLen(a);
      CharLenOfPrefix(a, b);
      assert (a + b)[n..] == a[n..] + b;
      ValidConcat(a[n..], b);
    }
  }

  /** Valid text can be cut before any byte that is not a tail byte. */
  lemma {:induction false} ValidCut(s: Bytes, c: nat)
    requires Valid(s) && c <= |s| && (c == |s| || !IsTail(s[c]))
    ensures Valid(s[..c]) && Valid(s[c..])
    decreases |s|
  {
    hide CharLen;
    if c == 0 {
      assert s[c..] == s;
    } else {
      var n := CharLen(s);
      assert n <= c;
      ValidCut(s[n..], c - n);
      assert s[n..][c - n..] == s[c..];
      assert s[..c][n..] == s[n..][..c - n];
      CharLenOfPrefix(s, []);
      assert s[..c] == s[..n] + s[..c][n..];
      CharLenOfPrefix(s[..n], s[..c][n..]);
    }
  }

  /** The union of two overlapping valid slices is a valid slice. */
  lemma ValidUnion(t: Bytes, a: nat, b: nat, c: nat, d: nat)
    requires a <= c < b <= d <= |t| && Valid(t[a..b]) && Valid(t[c..d])
    ensures Valid(t[a..d])
  {
    hide Valid;
    StartsCharacter(t[c..d]);
    assert t[a..b][c - a] == t[c] == t[c..d][0];
    ValidCut(t[a..b], c - a);
    assert t[a..b][..c - a] == t[a..c];
    ValidConcat(t[a..c], t[c..d]);
    assert t[a..c] + t[c..d] == t[a..d];
  }

  lemma StartsCharacter(s: Bytes)
    requires Valid(s) && s != []
    ensures !IsTail(s[0])
  {
  }

  // ---- What is valid -----------------------------------------------------------------

  /** A Unicode scalar value: no surrogate, and none beyond the last plane. */
  predicate Scalar(cp: int) {
    0 <= cp <= 0xD7FF || 0xE000 <= cp <= 0x10FFFF
  }

  /** The encoding of section 3 of RFC 3629. */
  function Encoded(cp: int): Bytes
    requires Scalar(cp)
  {
    if cp < 0x80 then [cp]
    else if cp < 0x800 then [0xC0 + cp / 64, 0x80 + cp % 64]
    else if cp < 0x10000 then [0xE0 + cp / 4096, 0x80 + cp / 64 % 64, 0x80 + cp % 64]
    else [0xF0 + cp / 262144, 0x80 + cp / 4096 % 64, 0x80 + cp / 64 % 64, 0x80 + cp % 64]
  }

  lemma TwoBytesAreChar(cp: int)
    requires 0x80 <= cp < 0x800
    ensures CharLen(Encoded(cp)) == |Encoded(cp)| == 2
  {
  }

  lemma ThreeBytesAreChar(cp: int)
    requires 0x800 <= cp < 0x10000 && Scalar(cp)
    ensures CharLen(Encoded(cp)) == |Encoded(cp)| == 3
  {
    var x, y := 0xE0 + cp / 4096, 0x80 + cp / 64 % 64;
    assert 0xE0 <= x <= 0xEF && (x == 0xE0 ==> y >= 0xA0) && (x == 0xED ==> y <= 0x9F);
  }

  lemma FourBytesAreChar(cp: int)
    requires 0x10000 <= cp <= 0x10FFFF
    ensures CharLen(Encoded(cp)) == |Encoded(cp)| == 4
  {
    var w, x := 0xF0 + cp / 262144, 0x80 + cp / 4096 % 64;
    assert 0xF0 <= w <= 0xF4 && (w == 0xF0 ==> x >= 0x90) && (w == 0xF4 ==> x <= 0x8F);
  }

  lemma EncodedIsChar(cp: int)
    requires Scalar(cp)
    ensures CharLen(Encoded(cp)) == |Encoded(cp)| > 0
  {
    if cp >= 0x10000 {
      FourBytesAreChar(cp);
    } else if cp >= 0x800 {
      ThreeBytesAreChar(cp);
    } else if cp >= 0x80 {
      TwoBytesAreChar(cp);
    } else {
      assert Encoded(cp)[0] == cp;
    }
  }

  /** A number and its digits to the base of 64. */
  lemma Sextets(a: int, b: int, c: int, d: int)
    requires 0 <= a < 64 && 0 <= b < 64 && 0 <= c < 64 && 0 <= d < 64
    ensures var n := a * 262144 + b * 4096 + c * 64 + d;
            n / 262144 == a && n / 4096 % 64 == b && n / 64 % 64 == c && n % 64 == d
  {
    var n := a * 262144 + b * 4096 + c * 64 + d;
    assert n / 64 == a * 4096 + b * 64 + c;
    assert n / 4096 == a * 64 + b;
  }

  lemma TwoBytesEncode(x: int, y: int)
    requires 0xC2 <= x <= 0xDF && 0x80 <= y <= 0xBF
    ensures var cp := (x - 0xC0) * 64 + (y - 0x80); Scalar(cp) && Encoded(cp) == [x, y]
  {
  }

  lemma ThreeBytesEncode(x: int, y: int, z: int)
    requires 0xE0 <= x <= 0xEF && 0x80 <= y <= 0xBF && 0x80 <= z <= 0xBF
    requires (x == 0xE0 ==> y >= 0xA0) && (x == 0xED ==> y <= 0x9F)
    ensures var cp := (x - 0xE0) * 4096 + (y - 0x80) * 64 + (z - 0x80); Scalar(cp) && Encoded(cp) == [x, y, z]
  {
    var cp := (x - 0xE0) * 4096 + (y - 0x80) * 64 + (z - 0x80);
    Sextets(0, x - 0xE0, y - 0x80, z - 0x80);
    assert cp / 4096 == x - 0xE0 && cp / 64 % 64 == y - 0x80 && cp % 64 == z - 0x80;
    assert 0x800 <= cp < 0x10000 && Scalar(cp);
  }

  lemma FourBytesEncode(w: int, x: int, y: int, z: int)
    requires 0xF0 <= w <= 0xF4 && 0x80 <= x <= 0xBF && 0x80 <= y <= 0xBF && 0x80 <= z <= 0xBF
    requires (w == 0xF0 ==> x >= 0x90) && (w == 0xF4 ==> x <= 0x8F)
    ensures var cp := (w - 0xF0) * 262144 + (x - 0x80) * 4096 + (y - 0x80) * 64 + (z - 0x80);
            Scalar(cp) && Encoded(cp) == [w, x, y, z]
  {
    var cp := (w - 0xF0) * 262144 + (x - 0x80) * 4096 + (y - 0x80) * 64 + (z - 0x80);
    Sextets(w - 0xF0, x - 0x80, y - 0x80, z - 0x80);
    assert 0x10000 <= cp <= 0x10FFFF && Scalar(cp);
  }

  lemma CharIsEncoded(c: Bytes) returns (cp: int)
    requires c != [] && CharLen(c) == |c|
    ensures Scalar(cp) && Encoded(cp) == c
  {
    hide Scalar, Encoded;
    if |c| == 1 {
      cp := c[0];
      OneByteEncodes(c[0]);
    } else if |c| == 2 {
      cp := (c[0] as int - 0xC0) * 64 + (c[1] as int - 0x80);
      TwoBytesEncode(c[0], c[1]);
    } else if |c| == 3 {
      cp := (c[0] as int - 0xE0) * 4096 + (c[1] as int - 0x80) * 64 + (c[2] as int - 0x80);
      ThreeBytesEncode(c[0], c[1], c[2]);
    } else {
      cp := (c[0] as int - 0xF0) * 262144 + (c[1] as int - 0x80) * 4096 + (c[2] as int - 0x80) * 64 +
            (c[3] as int - 0x80);
      FourBytesEncode(c[0], c[1], c[2], c[3]);
    }
  }

  lemma OneByteEncodes(x: int)
    requires 0 <= x < 0x80
    ensures Scalar(x) && Encoded(x) == [x]
  {
  }

  ghost predicate EncodesSome(c: Bytes) {
    exists cp :: Scalar(cp) && Encoded(cp) == c
  }

  /** The characters are exactly the encodings of the scalar values. */
  lemma CharsAreEncodings(c: Bytes)
    ensures c != [] && CharLen(c) == |c| <==> EncodesSome(c)
  {
    hide CharLen, Encoded;
    if c != [] && CharLen(c) == |c| {
      var cp := CharIsEncoded(c);
    }
    if EncodesSome(c) {
      var cp :| Scalar(cp) && Encoded(cp) == c;
      EncodedIsChar(cp);
    }
  }
}

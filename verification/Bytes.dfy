/** Go strings are byte sequences; this module gives the few string operations
    the masker and the recognizers rest on. */
module Bytes {

  datatype Option<+T> = None | Some(value: T)

  type Byte = b: int | 0 <= b < 256
  type Bytes = seq<Byte>

  const LBRACKET: Byte := 91
  const RBRACKET: Byte := 93
  const UNDERSCORE: Byte := 95
  const COLON: Byte := 58

  predicate IsDigit(b: Byte) {
    48 <= b <= 57
  }

  /** p occurs in s at offset i. */
  predicate OccursAt(s: Bytes, p: Bytes, i: int) {
    0 <= i && i + |p| <= |s| && s[i..i + |p|] == p
  }

  ghost predicate Occurs(s: Bytes, p: Bytes) {
    exists i :: OccursAt(s, p, i)
  }

  /** `strings.Index(s[from:], p)`, as an offset into s: the first occurrence at
      or after `from`, or -1. */
  function IndexFrom(s: Bytes, p: Bytes, from: nat): (r: int)
    requires from <= |s|
    ensures r < 0 ==> r == -1 && forall i :: from <= i ==> !OccursAt(s, p, i)
    ensures r >= 0 ==> from <= r && OccursAt(s, p, r) && forall i :: from <= i < r ==> !OccursAt(s, p, i)
    decreases |s| - from
  {
    if OccursAt(s, p, from) then from
    else if from == |s| then -1
    else IndexFrom(s, p, from + 1)
  }

  /** `strings.IndexByte(s, b)`. */
  function IndexByte(s: Bytes, b: Byte): (r: int)
    ensures r < 0 ==> r == -1 && b !in s
    ensures r >= 0 ==> r < |s| && s[r] == b && b !in s[..r]
  {
    if s == [] then -1
    else if s[0] == b then 0
    else
      var r := IndexByte(s[1..], b);
      if r < 0 then -1 else assert s[..r + 1] == [s[0]] + s[1..][..r]; r + 1
  }

  /** The first occurrence of a byte is determined by the part before it. */
  lemma IndexByteIs(s: Bytes, b: Byte, r: nat)
    requires r < |s| && s[r] == b && b !in s[..r]
    ensures IndexByte(s, b) == r
  {
    var k := IndexByte(s, b);
    assert b in s;
    assert forall i :: 0 <= i < r ==> s[i] == s[..r][i];
    assert forall i :: 0 <= i < k ==> s[i] == s[..k][i];
  }

  /** An occurrence in a part is an occurrence in the whole. */
  lemma OccursInWhole(a: Bytes, s: Bytes, b: Bytes, p: Bytes)
    requires Occurs(s, p)
    ensures Occurs(a + s + b, p)
  {
    var i :| OccursAt(s, p, i);
    var w := a + s + b;
    assert w[|a| + i..|a| + i + |p|] == s[i..i + |p|];
    assert OccursAt(w, p, |a| + i);
  }
}

/** `%d` and `strconv.Atoi` on the numbers inside markers. */
module Decimal {
  import opened Bytes

  /** The largest Go `int` on a 64-bit platform. */
  const MAX_INT: nat := 0x7fff_ffff_ffff_ffff

  ghost predicate AllDigits(ds: Bytes) {
    forall i :: 0 <= i < |ds| ==> IsDigit(ds[i])
  }

  function Print(n: nat): (ds: Bytes)
    ensures |ds| > 0 && AllDigits(ds)
  {
    if n < 10 then [48 + n] else Print(n / 10) + [48 + n % 10]
  }

  function Value(ds: Bytes): nat
    requires AllDigits(ds)
  {
    if ds == [] then 0 else Value(ds[..|ds| - 1]) * 10 + (ds[|ds| - 1] - 48)
  }

  /** Printing and parsing are inverse, so distinct numbers have distinct markers. */
  lemma {:induction false} ValueOfPrint(n: nat)
    ensures Value(Print(n)) == n
  {
    if n >= 10 {
      ValueOfPrint(n / 10);
      assert Print(n)[..|Print(n)| - 1] == Print(n / 10);
    }
  }
}

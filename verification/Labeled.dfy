/** `labeled.go`: case-insensitive search, in a lowered copy of the text whose
    offsets are translated back. */
module Labels {
  import opened Bytes
  import opened Utf8

  // ---- Lowering -----------------------------------------------------------------

  /** What becomes of one decoded character, or of one byte that is none: decoding,
      `unicode.ToLower` and encoding in one. */
  type Fold = Bytes -> Bytes

  ghost predicate IsChar(c: Bytes) {
    c != [] && CharLen(c) == |c|
  }

  /** `utf8.EncodeRune` always writes one character, of any width. */
  ghost predicate Encodes(fold: Fold) {
    forall c :: IsChar(fold(c))
  }

  /** The size `utf8.DecodeRuneInString` reports. */
  function Size(s: Bytes): (n: nat)
    requires s != []
    ensures 0 < n <= |s|
  {
    if CharLen(s) > 0 then CharLen(s) else 1
  }

  function Lowered(fold: Fold, text: Bytes): Bytes
    decreases |text|
  {
    if text == [] then []
    else fold(text[..Size(text)]) + Lowered(fold, text[Size(text)..])
  }

  function Repeated(x: nat, n: nat): (r: seq<nat>)
    ensures |r| == n && forall i :: 0 <= i < n ==> r[i] == x
  {
    if n == 0 then [] else Repeated(x, n - 1) + [x]
  }

  /** For every lowered byte the offset of its character in the text, which lies at
      this offset itself; and one more for the end. */
  function Offsets(fold: Fold, text: Bytes, at: nat): (m: seq<nat>)
    ensures |m| == |Lowered(fold, text)| + 1
    decreases |text|
  {
    if text == [] then [at]
    else Repeated(at, |fold(text[..Size(text)])|) + Offsets(fold, text[Size(text)..], at + Size(text))
  }

  method LowerWithMap(fold: Fold, text: Bytes) returns (lower: Bytes, mapping: seq<nat>)
    ensures lower == Lowered(fold, text) && mapping == Offsets(fold, text, 0)
  {
    hide Lowered, Offsets, Size, Repeated;
    lower, mapping := [], [];
    var i := 0;
    assert text[0..] == text;
    while i < |text|
      invariant 0 <= i <= |text|
      invariant Lowered(fold, text) == lower + Lowered(fold, text[i..])
      invariant Offsets(fold, text, 0) == mapping + Offsets(fold, text[i..], i)
      decreases |text| - i
    {
      var size := Size(text[i..]);
      var buf := fold(text[i..i + size]);
      LowerStep(fold, text, i);
      mapping := AppendOffset(mapping, i, |buf|);
      lower := lower + buf;
      i := i + size;
    }
    LowerEnds(fold, text[i..], i);
    mapping := mapping + [|text|];
  }

  /** The inner loop: one offset for every byte of a lowered character. */
  method AppendOffset(mapping: seq<nat>, i: nat, n: nat) returns (m: seq<nat>)
    ensures m == mapping + Repeated(i, n)
  {
    m := mapping;
    for k := 0 to n
      invariant m == mapping + Repeated(i, k)
    {
      RepeatedStep(i, k);
      m := m + [i];
    }
  }

  lemma RepeatedStep(x: nat, n: nat)
    ensures Repeated(x, 0) == [] && Repeated(x, n + 1) == Repeated(x, n) + [x]
  {
  }

  lemma LowerStep(fold: Fold, text: Bytes, i: nat)
    requires i < |text|
    ensures var n := Size(text[i..]); var c := fold(text[i..i + n]);
            && Lowered(fold, text[i..]) == c + Lowered(fold, text[i + n..])
            && Offsets(fold, text[i..], i) == Repeated(i, |c|) + Offsets(fold, text[i + n..], i + n)
            && Repeated(i, 0) == []
  {
    hide Size;
    var n := Size(text[i..]);
    assert text[i..][..n] == text[i..i + n] && text[i..][n..] == text[i + n..];
  }

  lemma LowerEnds(fold: Fold, text: Bytes, at: nat)
    requires text == []
    ensures Lowered(fold, text) == [] && Offsets(fold, text, at) == [at]
  {
  }

  /** Lowering goes character by character, and byte by byte where none begins; every
      lowered byte remembers where its character lies. */
  lemma LowersInPieces(fold: Fold, c: Bytes, rest: Bytes, at: nat)
    requires IsChar(c) || (|c| == 1 && CharLen(c + rest) == 0)
    ensures Lowered(fold, []) == [] && Offsets(fold, [], at) == [at]
    ensures Lowered(fold, c + rest) == fold(c) + Lowered(fold, rest)
    ensures Offsets(fold, c + rest, at) == seq(|fold(c)|, _ => at) + Offsets(fold, rest, at + |c|)
  {
    hide CharLen, Repeated;
    if IsChar(c) {
      CharLenOfPrefix(c, rest);
    }
    assert Size(c + rest) == |c|;
    assert (c + rest)[..|c|] == c && (c + rest)[|c|..] == rest;
    assert Repeated(at, |fold(c)|) == seq(|fold(c)|, _ => at);
  }

  // ---- Translation --------------------------------------------------------------

  /** k lies where decoding the text from its start passes. */
  predicate Boundary(text: Bytes, k: int)
    decreases |text|
  {
    k == 0 || (text != [] && k >= Size(text) && Boundary(text[Size(text)..], k - Size(text)))
  }

  lemma {:induction false} OffsetsAreMonotone(fold: Fold, text: Bytes, at: nat, i: nat, j: nat)
    requires i <= j < |Offsets(fold, text, at)|
    ensures at <= Offsets(fold, text, at)[i] <= Offsets(fold, text, at)[j] <= at + |text|
    decreases |text|
  {
    hide Size, Lowered;
    if text != [] {
      var n := Size(text);
      var w := |fold(text[..n])|;
      var rest := Offsets(fold, text[n..], at + n);
      OffsetsAreMonotone(fold, text[n..], at + n, 0, if j < w then 0 else j - w);
      if i >= w {
        OffsetsAreMonotone(fold, text[n..], at + n, i - w, j - w);
      }
    }
  }

  /** An offset of the lowered text at which no character is cut. */
  ghost predicate Whole(s: Bytes, i: int) {
    0 <= i <= |s| && (i < |s| ==> !IsTail(s[i]))
  }

  lemma CharIsWhole(fold: Fold, c: Bytes, i: nat)
    requires Encodes(fold) && i < |fold(c)|
    ensures IsTail(fold(c)[i]) <==> i > 0
  {
    assert IsChar(fold(c));
  }

  /** A character at the head stays one, whatever follows. */
  lemma CharStays(s: Bytes, t: Bytes)
    ensures CharLen(s) > 0 ==> CharLen(s + t) == CharLen(s)
  {
    if CharLen(s) > 0 {
      CharLenOfPrefix(s, t);
    }
  }

  /** Cutting the text behind its first character leaves that character as it is. */
  lemma SizeOfPrefix(text: Bytes, k: nat)
    requires text != [] && Size(text) <= k <= |text|
    ensures Size(text[..k]) == Size(text)
  {
    hide CharLen;
    var n := Size(text);
    if CharLen(text) > 0 {
      CharLenOfPrefix(text, []);
    }
    CharStays(text[..n], text[..k][n..]);
    assert text[..k] == text[..n] + text[..k][n..];
    CharStays(text[..k], text[k..]);
    assert text == text[..k] + text[k..];
  }

  lemma {:induction false} BoundaryInPrefix(text: Bytes, a: nat, b: nat)
    requires a <= b <= |text| && Boundary(text, a) && Boundary(text, b)
    ensures Boundary(text[..b], a)
    decreases |text|
  {
    hide Size;
    if a > 0 {
      var n := Size(text);
      SizeOfPrefix(text, b);
      BoundaryInPrefix(text[n..], a - n, b - n);
      assert text[..b][n..] == text[n..][..b - n];
    }
  }

  /** At a boundary lowering splits. */
  lemma {:induction false} LoweredSplits(fold: Fold, text: Bytes, k: nat)
    requires k <= |text| && Boundary(text, k)
    ensures Lowered(fold, text) == Lowered(fold, text[..k]) + Lowered(fold, text[k..])
    decreases |text|
  {
    hide Size, Lowered;
    LoweredStep(fold, text);
    LoweredStep(fold, text[..k]);
    if k == 0 {
      assert text[..0] == [] && text[0..] == text;
    } else {
      var n := Size(text);
      SizeOfPrefix(text, k);
      LoweredSplits(fold, text[n..], k - n);
      assert text[..k][..n] == text[..n] && text[..k][n..] == text[n..][..k - n];
      assert text[n..][k - n..] == text[k..];
    }
  }

  /** The end of the lowered text, and every offset where a lowered character begins,
      go back to an offset where decoding passes and before which there is as much
      lowered text. */
  lemma {:induction false} OffsetIsBoundary(fold: Fold, text: Bytes, at: nat, i: nat)
    requires Encodes(fold) && Whole(Lowered(fold, text), i)
    ensures var k := Offsets(fold, text, at)[i] - at;
            0 <= k <= |text| && Boundary(text, k) && |Lowered(fold, text[..k])| == i
    decreases |text|
  {
    hide Size, Encodes, Repeated, Lowered;
    LoweredStep(fold, text);
    if text != [] {
      var n := Size(text);
      var w := |fold(text[..n])|;
      if i < w {
        CharIsWhole(fold, text[..n], i);
        assert text[..0] == [];
      } else {
        WholeInRest(fold, text, i);
        OffsetIsBoundary(fold, text[n..], at + n, i - w);
        LongerPrefix(fold, text, Offsets(fold, text[n..], at + n)[i - w] - (at + n));
      }
    }
  }

  lemma LoweredStep(fold: Fold, text: Bytes)
    ensures Lowered(fold, []) == []
    ensures text != [] ==>
              Lowered(fold, text) == fold(text[..Size(text)]) + Lowered(fold, text[Size(text)..])
  {
    hide Size;
  }

  lemma WholeInRest(fold: Fold, text: Bytes, i: nat)
    requires text != [] && Whole(Lowered(fold, text), i) && i >= |fold(text[..Size(text)])|
    ensures Whole(Lowered(fold, text[Size(text)..]), i - |fold(text[..Size(text)])|)
  {
    hide Size;
  }

  lemma LongerPrefix(fold: Fold, text: Bytes, k: int)
    requires text != [] && 0 <= k <= |text| - Size(text)
    ensures var n := Size(text);
            Lowered(fold, text[..n + k]) == fold(text[..n]) + Lowered(fold, text[n..][..k])
  {
    var n := Size(text);
    SizeOfPrefix(text, n + k);
    assert text[..n + k][..n] == text[..n] && text[..n + k][n..] == text[n..][..k];
  }

  lemma MiddlePart(x: Bytes, y: Bytes, z: Bytes)
    ensures (x + y + z)[|x|..|x + y|] == y
  {
  }

  /** What lies between two boundaries lowers to what lies between their images. */
  lemma BetweenBoundaries(fold: Fold, text: Bytes, a: nat, b: nat)
    requires a <= b <= |text| && Boundary(text, a) && Boundary(text, b)
    ensures var i, j := |Lowered(fold, text[..a])|, |Lowered(fold, text[..b])|;
            i <= j <= |Lowered(fold, text)| && Lowered(fold, text[a..b]) == Lowered(fold, text)[i..j]
  {
    hide Lowered, Boundary;
    BoundaryInPrefix(text, a, b);
    LoweredSplits(fold, text, b);
    LoweredSplits(fold, text[..b], a);
    assert text[..b][..a] == text[..a] && text[..b][a..] == text[a..b];
    MiddlePart(Lowered(fold, text[..a]), Lowered(fold, text[a..b]), Lowered(fold, text[b..]));
  }

  /** Offset a of the text is where the lowered offset i comes from. */
  ghost predicate ComesFrom(fold: Fold, text: Bytes, i: nat, a: nat) {
    && i <= |Lowered(fold, text)| && Offsets(fold, text, 0)[i] == a
    && a <= |text| && Boundary(text, a) && |Lowered(fold, text[..a])| == i
  }

  lemma WholeComesFrom(fold: Fold, text: Bytes, i: nat)
    requires Encodes(fold) && Whole(Lowered(fold, text), i)
    ensures ComesFrom(fold, text, i, Offsets(fold, text, 0)[i])
  {
    hide Lowered, Offsets, Boundary, Encodes, IsTail;
    OffsetIsBoundary(fold, text, 0, i);
  }

  lemma SliceComesFrom(fold: Fold, text: Bytes, i: nat, j: nat, a: nat, b: nat)
    requires ComesFrom(fold, text, i, a) && ComesFrom(fold, text, j, b) && i <= j
    ensures a <= b && Lowered(fold, text[a..b]) == Lowered(fold, text)[i..j]
  {
    hide Lowered, Offsets, Boundary;
    OffsetsAreMonotone(fold, text, 0, i, j);
    BetweenBoundaries(fold, text, a, b);
  }

  /** Two whole offsets of the lowered text go back to decode boundaries of the text,
      and the slice between them lowers to exactly the slice of the lowered text. */
  lemma TranslationIsExact(fold: Fold, text: Bytes, i: nat, j: nat, a: nat, b: nat)
    requires Encodes(fold) && i <= j && Whole(Lowered(fold, text), i) && Whole(Lowered(fold, text), j)
    requires Offsets(fold, text, 0)[i] == a && Offsets(fold, text, 0)[j] == b
    ensures a <= b <= |text| && Boundary(text, a) && Boundary(text, b)
    ensures Lowered(fold, text[a..b]) == Lowered(fold, text)[i..j]
  {
    hide Lowered, Offsets, Boundary, Encodes, IsTail;
    WholeComesFrom(fold, text, i);
    WholeComesFrom(fold, text, j);
    SliceComesFrom(fold, text, i, j, a, b);
  }

  // ---- Matches ------------------------------------------------------------------

  /** `isLetterBefore` and `isLetterAfter`. */
  datatype Letters = Letters(before: (Bytes, nat) -> bool, after: (Bytes, nat) -> bool)

  predicate IsWordBoundary(letters: Letters, s: Bytes, pos: nat, length: nat) {
    (pos == 0 || !letters.before(s, pos)) && (pos + length >= |s| || !letters.after(s, pos + length))
  }

  /** The occurrences a search from offset i passes over, each search starting where
      the last occurrence ended. */
  function Passed(s: Bytes, w: Bytes, i: nat): (ps: seq<nat>)
    requires i <= |s| && w != []
    ensures forall p :: p in ps ==> i <= p && OccursAt(s, w, p)
    decreases |s| - i
  {
    var j := IndexFrom(s, w, i);
    if j < 0 then [] else [j] + Passed(s, w, j + |w|)
  }

  /** A search from offset i passes p and finds a whole word there. */
  ghost predicate Found(letters: Letters, s: Bytes, w: Bytes, i: nat, p: nat)
    requires i <= |s| && w != []
  {
    p in Passed(s, w, i) && IsWordBoundary(letters, s, p, |w|)
  }

  /** The ranges for one dictionary value. */
  function ValueRanges(letters: Letters, lower: Bytes, mapping: seq<nat>, w: Bytes, i: nat): seq<(nat, nat)>
    requires i <= |lower| && w != [] && |mapping| == |lower| + 1
    decreases |lower| - i
  {
    var j := IndexFrom(lower, w, i);
    if j < 0 then []
    else
      (if IsWordBoundary(letters, lower, j, |w|) then [(mapping[j], mapping[j + |w|])] else []) +
      ValueRanges(letters, lower, mapping, w, j + |w|)
  }

  lemma ValueStep(letters: Letters, lower: Bytes, mapping: seq<nat>, w: Bytes, i: nat)
    requires i <= |lower| && w != [] && |mapping| == |lower| + 1
    ensures var j := IndexFrom(lower, w, i);
            ValueRanges(letters, lower, mapping, w, i) ==
            if j < 0 then []
            else (if IsWordBoundary(letters, lower, j, |w|) then [(mapping[j], mapping[j + |w|])] else []) +
                 ValueRanges(letters, lower, mapping, w, j + |w|)
  {
    hide IndexFrom, IsWordBoundary;
  }

  ghost predicate NoneEmpty(values: seq<Bytes>) {
    forall k :: 0 <= k < |values| ==> values[k] != []
  }

  /** The ranges for all values, already lowered. */
  function DictRanges(letters: Letters, lower: Bytes, mapping: seq<nat>, values: seq<Bytes>): seq<(nat, nat)>
    requires |mapping| == |lower| + 1 && NoneEmpty(values)
  {
    if values == [] then []
    else
      DictRanges(letters, lower, mapping, values[..|values| - 1]) +
      ValueRanges(letters, lower, mapping, values[|values| - 1], 0)
  }

  /** `findDictRanges` on lowered values; for an empty value the source's loop would
      not end. */
  method FindDictRanges(fold: Fold, letters: Letters, text: Bytes, values: seq<Bytes>) returns (out: seq<(nat, nat)>)
    requires NoneEmpty(values)
    ensures out == DictRanges(letters, Lowered(fold, text), Offsets(fold, text, 0), values)
  {
    hide Lowered, Offsets, ValueRanges;
    var lower, mapping := LowerWithMap(fold, text);
    out := [];
    for k := 0 to |values|
      invariant out == DictRanges(letters, lower, mapping, values[..k])
    {
      assert values[..k + 1][..k] == values[..k];
      out := FindValue(letters, lower, mapping, values[k], out);
    }
    assert values[..|values|] == values;
  }

  /** The inner loop: the ranges of one value are appended. */
  method FindValue(letters: Letters, lower: Bytes, mapping: seq<nat>, lv: Bytes, done: seq<(nat, nat)>)
    returns (out: seq<(nat, nat)>)
    requires lv != [] && |mapping| == |lower| + 1
    ensures out == done + ValueRanges(letters, lower, mapping, lv, 0)
  {
    hide ValueRanges, IndexFrom, IsWordBoundary;
    out := done;
    var i := 0;
    while true
      invariant 0 <= i <= |lower|
      invariant done + ValueRanges(letters, lower, mapping, lv, 0) == out + ValueRanges(letters, lower, mapping, lv, i)
      decreases |lower| - i
    {
      ValueStep(letters, lower, mapping, lv, i);
      var pos := IndexFrom(lower, lv, i);
      if pos < 0 {
        break;
      }
      if IsWordBoundary(letters, lower, pos, |lv|) {
        out := out + [(mapping[pos], mapping[pos + |lv|])];
      }
      i := pos + |lv|;
    }
  }

  /** The ends of the ranges. */
  function Ends(rs: seq<(nat, nat)>): (r: seq<nat>)
    ensures |r| == |rs| && forall k :: 0 <= k < |r| ==> r[k] == rs[k].1
  {
    seq(|rs|, k requires 0 <= k < |rs| => rs[k].1)
  }

  /** `findLabelMatches` on lowered labels: where each found label ends in the text. */
  method FindLabelMatches(fold: Fold, letters: Letters, text: Bytes, labels: seq<Bytes>) returns (matches: seq<nat>)
    requires NoneEmpty(labels)
    ensures matches == Ends(DictRanges(letters, Lowered(fold, text), Offsets(fold, text, 0), labels))
  {
    hide Lowered, Offsets, ValueRanges;
    var lower, mapping := LowerWithMap(fold, text);
    matches := [];
    for k := 0 to |labels|
      invariant matches == Ends(DictRanges(letters, lower, mapping, labels[..k]))
    {
      assert labels[..k + 1][..k] == labels[..k];
      var more := FindLabel(letters, lower, mapping, labels[k]);
      matches := matches + more;
    }
    assert labels[..|labels|] == labels;
  }

  method FindLabel(letters: Letters, lower: Bytes, mapping: seq<nat>, ll: Bytes) returns (matches: seq<nat>)
    requires ll != [] && |mapping| == |lower| + 1
    ensures matches == Ends(ValueRanges(letters, lower, mapping, ll, 0))
  {
    hide ValueRanges, IndexFrom, IsWordBoundary;
    matches := [];
    var i := 0;
    ghost var found: seq<(nat, nat)> := [];
    while true
      invariant 0 <= i <= |lower| && matches == Ends(found)
      invariant ValueRanges(letters, lower, mapping, ll, 0) == found + ValueRanges(letters, lower, mapping, ll, i)
      decreases |lower| - i
    {
      ValueStep(letters, lower, mapping, ll, i);
      var pos := IndexFrom(lower, ll, i);
      if pos < 0 {
        break;
      }
      if IsWordBoundary(letters, lower, pos, |ll|) {
        var after := pos + |ll|;
        matches := matches + [mapping[after]];
        found := found + [(mapping[pos], mapping[after])];
      }
      i := pos + |ll|;
    }
  }

  /** `lastWordIndex`: the last whole word that the search finds, or -1. */
  method LastWordIndex(letters: Letters, s: Bytes, word: Bytes) returns (last: int)
    requires word != []
    ensures last >= 0 ==> Found(letters, s, word, 0, last)
    ensures last < 0 ==> last == -1
    ensures forall p: nat :: Found(letters, s, word, 0, p) ==> p <= last
  {
    hide Passed, IndexFrom, IsWordBoundary;
    last := -1;
    var i := 0;
    while true
      invariant 0 <= i <= |s| && -1 <= last < i + 1
      invariant last >= 0 ==> Found(letters, s, word, 0, last)
      invariant forall p: nat :: Found(letters, s, word, 0, p) ==> p <= last || Found(letters, s, word, i, p)
      invariant forall p: nat :: Found(letters, s, word, i, p) ==> Found(letters, s, word, 0, p)
      decreases |s| - i
    {
      var pos := IndexFrom(s, word, i);
      PassedStep(s, word, i);
      if pos < 0 {
        break;
      }
      if IsWordBoundary(letters, s, pos, |word|) {
        last := pos;
      }
      i := pos + |word|;
    }
  }

  lemma PassedStep(s: Bytes, w: Bytes, i: nat)
    requires i <= |s| && w != []
    ensures var j := IndexFrom(s, w, i);
            Passed(s, w, i) == if j < 0 then [] else [j] + Passed(s, w, j + |w|)
  {
    hide IndexFrom;
  }

  // ---- What the ranges are --------------------------------------------------------

  /** A valid occurrence ends where a character ends. */
  lemma {:induction false} EndsWhole(s: Bytes, w: Bytes)
    requires Valid(s) && Valid(w) && |w| <= |s| && s[..|w|] == w
    ensures Whole(s, |w|)
    decreases |w|
  {
    if w != [] {
      var n := CharLen(w);
      CharLenOfPrefix(w, s[|w|..]);
      assert s == w + s[|w|..];
      assert s[n..][..|w| - n] == w[n..];
      EndsWhole(s[n..], w[n..]);
      assert |w| < |s| ==> s[n..][|w| - n] == s[|w|];
    } else if s != [] {
      StartsCharacter(s);
    }
  }

  lemma {:induction false} LoweredIsValid(fold: Fold, text: Bytes)
    requires Encodes(fold)
    ensures Valid(Lowered(fold, text))
    decreases |text|
  {
    if text != [] {
      var c := fold(text[..Size(text)]);
      LoweredIsValid(fold, text[Size(text)..]);
      assert IsChar(c);
      assert c[|c|..] == [];
      ValidConcat(c, Lowered(fold, text[Size(text)..]));
    }
  }

  /** An occurrence of a valid word in the lowered text cuts no character. */
  lemma OccurrenceIsWhole(fold: Fold, text: Bytes, w: Bytes, p: nat)
    requires Encodes(fold) && Valid(w) && w != [] && OccursAt(Lowered(fold, text), w, p)
    ensures Whole(Lowered(fold, text), p) && Whole(Lowered(fold, text), p + |w|)
  {
    hide Lowered, Valid, Encodes;
    var s := Lowered(fold, text);
    LoweredIsValid(fold, text);
    StartsCharacter(w);
    assert s[p] == s[p..p + |w|][0] == w[0];
    ValidCut(s, p);
    assert s[p..][..|w|] == w;
    EndsWhole(s[p..], w);
    assert p + |w| < |s| ==> s[p..][|w|] == s[p + |w|];
  }

  /** No letter stands right before or right after these bytes. */
  ghost predicate StandsAlone(letters: Letters, s: Bytes, p: nat, n: nat) {
    (p > 0 ==> !letters.before(s, p)) && (p + n < |s| ==> !letters.after(s, p + n))
  }

  /** The range lies on decode boundaries of the text and lowers, character by
      character, to a dictionary value, which is a whole word at offset p there. */
  ghost predicate MatchesAt(fold: Fold, letters: Letters, text: Bytes, values: seq<Bytes>, r: (nat, nat), p: nat) {
    && r.0 <= r.1 <= |text| && Boundary(text, r.0) && Boundary(text, r.1)
    && Lowered(fold, text[r.0..r.1]) in values
    && ComesFrom(fold, text, p, r.0)
    && StandsAlone(letters, Lowered(fold, text), p, |Lowered(fold, text[r.0..r.1])|)
  }

  ghost predicate MatchesValue(fold: Fold, letters: Letters, text: Bytes, values: seq<Bytes>, r: (nat, nat)) {
    exists p :: MatchesAt(fold, letters, text, values, r, p)
  }

  lemma BoundaryStandsAlone(letters: Letters, s: Bytes, p: nat, n: nat)
    ensures IsWordBoundary(letters, s, p, n) <==> StandsAlone(letters, s, p, n)
  {
  }

  lemma WordMatches(fold: Fold, letters: Letters, text: Bytes, values: seq<Bytes>, w: Bytes, p: nat)
    requires Encodes(fold) && Valid(w) && w != [] && w in values
    requires OccursAt(Lowered(fold, text), w, p) && IsWordBoundary(letters, Lowered(fold, text), p, |w|)
    ensures MatchesValue(fold, letters, text, values, (Offsets(fold, text, 0)[p], Offsets(fold, text, 0)[p + |w|]))
  {
    hide Lowered, Offsets, Boundary, Encodes, IsWordBoundary, Valid, Whole, ComesFrom;
    OccurrenceIsWhole(fold, text, w, p);
    BoundaryStandsAlone(letters, Lowered(fold, text), p, |w|);
    WholeComesFrom(fold, text, p);
    var a, b := Offsets(fold, text, 0)[p], Offsets(fold, text, 0)[p + |w|];
    TranslationIsExact(fold, text, p, p + |w|, a, b);
    assert MatchesAt(fold, letters, text, values, (a, b), p);
  }

  /** Every range `findDictRanges` returns is exact, even where lowering changes the
      width of characters. */
  lemma {:induction false} DictRangesAreExact(fold: Fold, letters: Letters, text: Bytes, values: seq<Bytes>,
                                              all: seq<Bytes>)
    requires Encodes(fold) && NoneEmpty(values)
    requires forall k :: 0 <= k < |values| ==> Valid(values[k]) && values[k] in all
    ensures forall r :: r in DictRanges(letters, Lowered(fold, text), Offsets(fold, text, 0), values) ==>
              MatchesValue(fold, letters, text, all, r)
    decreases |values|
  {
    hide Lowered, Offsets, MatchesValue, Encodes, Valid, ValueRanges;
    if values != [] {
      var before, w := values[..|values| - 1], values[|values| - 1];
      var lower, mapping := Lowered(fold, text), Offsets(fold, text, 0);
      DictRangesAreExact(fold, letters, text, before, all);
      forall r | r in ValueRanges(letters, lower, mapping, w, 0) ensures MatchesValue(fold, letters, text, all, r) {
        var p := RangeOrigin(letters, lower, mapping, w, 0, r);
        WordMatches(fold, letters, text, all, w, p);
      }
    }
  }

  lemma {:induction false} RangeOrigin(letters: Letters, lower: Bytes, mapping: seq<nat>, w: Bytes, i: nat,
                                       r: (nat, nat))
    returns (p: nat)
    requires i <= |lower| && w != [] && |mapping| == |lower| + 1 && r in ValueRanges(letters, lower, mapping, w, i)
    ensures Found(letters, lower, w, i, p) && OccursAt(lower, w, p) && r == (mapping[p], mapping[p + |w|])
    decreases |lower| - i
  {
    hide IsWordBoundary, IndexFrom;
    var j := IndexFrom(lower, w, i);
    if r in ValueRanges(letters, lower, mapping, w, j + |w|) {
      p := RangeOrigin(letters, lower, mapping, w, j + |w|, r);
    } else {
      p := j;
    }
  }

  /** Every whole word that the search finds has its range. */
  lemma {:induction false} FoundHasRange(letters: Letters, lower: Bytes, mapping: seq<nat>, w: Bytes, i: nat, p: nat)
    requires i <= |lower| && w != [] && |mapping| == |lower| + 1 && Found(letters, lower, w, i, p)
    ensures p + |w| <= |lower| && (mapping[p], mapping[p + |w|]) in ValueRanges(letters, lower, mapping, w, i)
    decreases |lower| - i
  {
    hide IsWordBoundary, IndexFrom;
    var j := IndexFrom(lower, w, i);
    if p in Passed(lower, w, j + |w|) {
      FoundHasRange(letters, lower, mapping, w, j + |w|, p);
    }
  }

  // ---- Which words are found --------------------------------------------------------

  /** An occurrence is passed over unless it overlaps one that was. */
  lemma {:induction false} PassedUnlessOverlapped(s: Bytes, w: Bytes, i: nat, p: nat)
    requires w != [] && i <= p && i <= |s| && OccursAt(s, w, p)
    ensures p in Passed(s, w, i) <==> !exists q :: q in Passed(s, w, i) && q < p < q + |w|
    decreases |s| - i
  {
    hide IndexFrom, Passed, OccursAt;
    var j := IndexFrom(s, w, i);
    assert 0 <= j <= p;
    FitsAt(s, w, j);
    PassedStep(s, w, i);
    var rest := Passed(s, w, j + |w|);
    assert forall q :: q in [j] + rest <==> q == j || q in rest;
    if p >= j + |w| {
      FitsAt(s, w, p);
      PassedUnlessOverlapped(s, w, j + |w|, p);
    }
  }

  lemma FitsAt(s: Bytes, w: Bytes, p: nat)
    requires OccursAt(s, w, p)
    ensures p + |w| <= |s|
  {
  }

  /** A whole word is found exactly unless it overlaps an earlier occurrence passed
      over, whole word or not. */
  lemma FoundUnlessOverlapped(letters: Letters, s: Bytes, w: Bytes, p: nat)
    requires w != [] && OccursAt(s, w, p) && IsWordBoundary(letters, s, p, |w|)
    ensures Found(letters, s, w, 0, p) <==>
            !exists q :: q in Passed(s, w, 0) && q < p < q + |w|
  {
    hide Passed, IsWordBoundary;
    PassedUnlessOverlapped(s, w, 0, p);
  }

  // ---- Which values hide a word -----------------------------------------------------

  /** The part of s before offset i ends with this character. */
  ghost predicate EndsWithChar(s: Bytes, i: nat, c: Bytes) {
    IsChar(c) && |c| <= i <= |s| && s[i - |c|..i] == c
  }

  /** `isLetterBefore` decodes the last character before the offset, and reads nothing
      else. */
  ghost predicate ReadsLastChar(letters: Letters) {
    forall s, i: nat, t, j: nat, c :: EndsWithChar(s, i, c) && EndsWithChar(t, j, c) ==>
      (letters.before(s, i) <==> letters.before(t, j))
  }

  /** The value starts again inside itself, right after a character that is no letter. */
  ghost predicate RestartsAsWord(letters: Letters, w: Bytes) {
    exists k: nat :: 0 < k < |w| && w[k..] == w[..|w| - k] && !letters.before(w, k)
  }

  /** The search finds every whole word of this value in every text. */
  ghost predicate FindsAll(letters: Letters, w: Bytes)
    requires w != []
  {
    forall s, p: nat :: Valid(s) && OccursAt(s, w, p) && IsWordBoundary(letters, s, p, |w|) ==>
      Found(letters, s, w, 0, p)
  }

  lemma {:induction false} LastCharOf(s: Bytes) returns (c: Bytes)
    requires Valid(s) && s != []
    ensures EndsWithChar(s, |s|, c)
    decreases |s|
  {
    var n := CharLen(s);
    if n == |s| {
      c := s;
      assert s[|s| - |c|..|s|] == c;
    } else {
      c := LastCharOf(s[n..]);
      assert s[n..][|s[n..]| - |c|..] == s[|s| - |c|..|s|];
    }
  }

  /** The character before an offset at which the text can be cut. */
  lemma CharBefore(w: Bytes, k: nat) returns (c: Bytes)
    requires Valid(w) && 0 < k < |w| && !IsTail(w[k])
    ensures Valid(w[..k]) && EndsWithChar(w, k, c)
  {
    hide Valid;
    ValidCut(w, k);
    c := LastCharOf(w[..k]);
    assert w[..k][k - |c|..k] == w[k - |c|..k];
  }

  /** Where a value starts again inside itself no character is cut. */
  lemma RestartIsWhole(w: Bytes, k: nat)
    requires Valid(w) && 0 < k < |w| && w[k..] == w[..|w| - k]
    ensures !IsTail(w[k])
  {
    StartsCharacter(w);
    assert w[k] == w[k..][0] == w[..|w| - k][0] == w[0];
  }

  lemma SliceOfSlice(s: Bytes, a: nat, b: nat, i: nat, j: nat)
    requires a <= b <= |s| && i <= j <= b - a
    ensures s[a..b][i..j] == s[a + i..a + j]
  {
    assert forall x :: 0 <= x < j - i ==> s[a..b][i..j][x] == s[a + i..a + j][x];
  }

  /** A whole word that an earlier occurrence overlaps shows where the value starts
      again. */
  lemma OverlapRestarts(letters: Letters, s: Bytes, w: Bytes, p: nat, q: nat)
    requires ReadsLastChar(letters) && Valid(w) && OccursAt(s, w, p) && OccursAt(s, w, q) && q < p < q + |w|
    requires IsWordBoundary(letters, s, p, |w|)
    ensures RestartsAsWord(letters, w)
  {
    hide Valid;
    var k := p - q;
    assert s[q..q + |w|][k..] == s[p..q + |w|] == s[p..p + |w|][..|w| - k];
    RestartIsWhole(w, k);
    var c := CharBefore(w, k);
    SliceOfSlice(s, q, q + |w|, k - |c|, k);
    assert EndsWithChar(s, p, c);
    assert letters.before(s, p) <==> letters.before(w, k);
  }

  /** Of a value that does not start again as a word every whole word is found, in any
      text at all. */
  lemma WholeWordIsFound(letters: Letters, s: Bytes, w: Bytes, p: nat)
    requires ReadsLastChar(letters) && Valid(w) && w != [] && !RestartsAsWord(letters, w)
    requires OccursAt(s, w, p) && IsWordBoundary(letters, s, p, |w|)
    ensures Found(letters, s, w, 0, p)
  {
    hide Passed, IsWordBoundary, Valid, ReadsLastChar, RestartsAsWord;
    FoundUnlessOverlapped(letters, s, w, p);
    forall q | q in Passed(s, w, 0) ensures !(q < p < q + |w|) {
      if q < p < q + |w| {
        OverlapRestarts(letters, s, w, p, q);
      }
    }
  }

  /** The value up to where it starts again, followed by the value. */
  function Restarted(w: Bytes, k: nat): Bytes
    requires k <= |w|
  {
    w[..k] + w
  }

  lemma RestartedOccurs(w: Bytes, k: nat)
    requires 0 < k < |w| && w[k..] == w[..|w| - k]
    ensures OccursAt(Restarted(w, k), w, 0) && OccursAt(Restarted(w, k), w, k)
    ensures 0 in Passed(Restarted(w, k), w, 0)
  {
    hide Passed;
    var s := Restarted(w, k);
    forall x | 0 <= x < |w| ensures s[x] == w[x] {
      if x >= k {
        assert s[x] == w[x - k] == w[..|w| - k][x - k] == w[k..][x - k];
      }
    }
    assert s[0..|w|] == w && s[k..k + |w|] == w;
    FirstIsPassed(s, w);
  }

  lemma FirstIsPassed(s: Bytes, w: Bytes)
    requires w != [] && OccursAt(s, w, 0)
    ensures 0 in Passed(s, w, 0)
  {
  }

  lemma RestartedIsWord(letters: Letters, w: Bytes, k: nat)
    requires ReadsLastChar(letters) && Valid(w) && 0 < k < |w| && w[k..] == w[..|w| - k] && !letters.before(w, k)
    ensures Valid(Restarted(w, k)) && IsWordBoundary(letters, Restarted(w, k), k, |w|)
  {
    hide Valid;
    var s := Restarted(w, k);
    RestartIsWhole(w, k);
    var c := CharBefore(w, k);
    ValidConcat(w[..k], w);
    assert s[k - |c|..k] == w[k - |c|..k];
    assert EndsWithChar(s, k, c);
    assert letters.before(s, k) <==> letters.before(w, k);
  }

  /** Any other value hides a whole word of its own. */
  lemma RestartIsMissed(letters: Letters, w: Bytes, k: nat)
    requires ReadsLastChar(letters) && Valid(w) && 0 < k < |w| && w[k..] == w[..|w| - k] && !letters.before(w, k)
    ensures var s := Restarted(w, k);
            && Valid(s) && OccursAt(s, w, k) && IsWordBoundary(letters, s, k, |w|) && !Found(letters, s, w, 0, k)
  {
    hide Valid, Passed, OccursAt, IsWordBoundary, ReadsLastChar, Restarted;
    RestartedOccurs(w, k);
    RestartedIsWord(letters, w, k);
    FoundUnlessOverlapped(letters, Restarted(w, k), w, k);
  }

  // ---- The missed word in a text ------------------------------------------------------

  lemma {:induction false} LoweredConcat(fold: Fold, a: Bytes, b: Bytes)
    requires Valid(a)
    ensures Lowered(fold, a + b) == Lowered(fold, a) + Lowered(fold, b)
    decreases |a|
  {
    hide Lowered;
    LoweredStep(fold, a);
    LoweredStep(fold, a + b);
    if a == [] {
      assert a + b == b;
    } else {
      var n := CharLen(a);
      CharLenOfPrefix(a, b);
      assert (a + b)[..n] == a[..n] && (a + b)[n..] == a[n..] + b;
      LoweredConcat(fold, a[n..], b);
    }
  }

  /** A value that lowering leaves as it is, is left so character by character. */
  lemma {:induction false} LowersToItself(fold: Fold, w: Bytes, k: nat)
    requires Encodes(fold) && Valid(w) && Lowered(fold, w) == w && k <= |w| && Valid(w[..k])
    ensures Lowered(fold, w[..k]) == w[..k]
    decreases |w|
  {
    hide Lowered;
    LoweredStep(fold, w);
    LoweredStep(fold, w[..k]);
    if k > 0 {
      var n := CharLen(w[..k]);
      CharLenOfPrefix(w[..k], w[k..]);
      assert w == w[..k] + w[k..];
      var c := fold(w[..n]);
      assert IsChar(c);
      CharLenOfPrefix(c, Lowered(fold, w[n..]));
      assert c == w[..n] && Lowered(fold, w[n..]) == w[n..];
      assert w[..k][..n] == w[..n] && w[..k][n..] == w[n..][..k - n];
      LowersToItself(fold, w[n..], k - n);
    }
  }

  lemma RestartedLowers(fold: Fold, w: Bytes, k: nat)
    requires Encodes(fold) && Valid(w) && Lowered(fold, w) == w && 0 < k < |w| && w[k..] == w[..|w| - k]
    ensures Lowered(fold, Restarted(w, k)) == Restarted(w, k)
  {
    hide Lowered, Encodes, Valid;
    RestartIsWhole(w, k);
    ValidCut(w, k);
    LowersToItself(fold, w, k);
    LoweredConcat(fold, w[..k], w);
  }

  /** The range of a whole word is in the result only if the search finds that word. */
  lemma {:induction false} RangeMeansFound(fold: Fold, letters: Letters, text: Bytes, values: seq<Bytes>, w: Bytes,
                                           p: nat)
    requires Encodes(fold) && NoneEmpty(values) && forall i :: 0 <= i < |values| ==> Valid(values[i])
    requires Valid(w) && w != [] && OccursAt(Lowered(fold, text), w, p)
    requires (Offsets(fold, text, 0)[p], Offsets(fold, text, 0)[p + |w|]) in
               DictRanges(letters, Lowered(fold, text), Offsets(fold, text, 0), values)
    ensures Found(letters, Lowered(fold, text), w, 0, p)
    decreases |values|
  {
    hide Lowered, Offsets, Encodes, Valid, ValueRanges, Found, Whole, ComesFrom;
    var s, m := Lowered(fold, text), Offsets(fold, text, 0);
    var r, v := (m[p], m[p + |w|]), values[|values| - 1];
    if r in ValueRanges(letters, s, m, v, 0) {
      var q := RangeOrigin(letters, s, m, v, 0, r);
      SameRangeSameWord(fold, text, w, p, v, q);
    } else {
      RangeMeansFound(fold, letters, text, values[..|values| - 1], w, p);
    }
  }

  lemma SameRangeSameWord(fold: Fold, text: Bytes, w: Bytes, p: nat, v: Bytes, q: nat)
    requires Encodes(fold) && Valid(w) && w != [] && Valid(v) && v != []
    requires OccursAt(Lowered(fold, text), w, p) && OccursAt(Lowered(fold, text), v, q)
    requires Offsets(fold, text, 0)[p] == Offsets(fold, text, 0)[q]
    requires Offsets(fold, text, 0)[p + |w|] == Offsets(fold, text, 0)[q + |v|]
    ensures q == p && v == w
  {
    hide Lowered, Offsets, Encodes, Valid, Whole, Boundary;
    OccurrenceIsWhole(fold, text, w, p);
    OccurrenceIsWhole(fold, text, v, q);
    WholeComesFrom(fold, text, p);
    WholeComesFrom(fold, text, q);
    WholeComesFrom(fold, text, p + |w|);
    WholeComesFrom(fold, text, q + |v|);
  }

  /** `findDictRanges` itself misses the word: for a value that lowering leaves as it
      is, the text lowers to itself, and whatever the other values are, the range of
      the word is not in the result. */
  lemma RestartHasNoRange(fold: Fold, letters: Letters, w: Bytes, k: nat, values: seq<Bytes>)
    requires Encodes(fold) && NoneEmpty(values) && forall i :: 0 <= i < |values| ==> Valid(values[i])
    requires ReadsLastChar(letters) && Valid(w) && Lowered(fold, w) == w
    requires 0 < k < |w| && w[k..] == w[..|w| - k] && !letters.before(w, k)
    ensures var s := Restarted(w, k);
            && Lowered(fold, s) == s && OccursAt(s, w, k) && IsWordBoundary(letters, s, k, |w|)
            && (Offsets(fold, s, 0)[k], Offsets(fold, s, 0)[k + |w|]) !in
                 DictRanges(letters, s, Offsets(fold, s, 0), values)
  {
    hide Lowered, Offsets, Encodes, Valid, Found, ReadsLastChar, IsWordBoundary, Restarted;
    var s := Restarted(w, k);
    RestartedLowers(fold, w, k);
    RestartIsMissed(letters, w, k);
    if (Offsets(fold, s, 0)[k], Offsets(fold, s, 0)[k + |w|]) in DictRanges(letters, s, Offsets(fold, s, 0), values) {
      RangeMeansFound(fold, letters, s, values, w, k);
    }
  }

  /** The exact condition on a value: the search finds every whole word of it in every
      text if and only if it does not start again inside itself after a character that
      is no letter. */
  lemma AllWordsAreFoundExactly(letters: Letters, w: Bytes)
    requires ReadsLastChar(letters) && Valid(w) && w != []
    ensures FindsAll(letters, w) <==> !RestartsAsWord(letters, w)
  {
    hide ReadsLastChar, Valid, Found, IsWordBoundary;
    if RestartsAsWord(letters, w) {
      var k: nat :| 0 < k < |w| && w[k..] == w[..|w| - k] && !letters.before(w, k);
      RestartIsMissed(letters, w, k);
    } else {
      forall s, p: nat | Valid(s) && OccursAt(s, w, p) && IsWordBoundary(letters, s, p, |w|)
        ensures Found(letters, s, w, 0, p)
      {
        WholeWordIsFound(letters, s, w, p);
      }
    }
  }

  /** `findDictRanges` keeps its promise for such values: every whole word of every
      value in the lowered text has its range in the result. */
  lemma {:induction false} EveryWholeWordHasRange(fold: Fold, letters: Letters, text: Bytes, values: seq<Bytes>,
                                                  n: nat, p: nat)
    requires ReadsLastChar(letters) && NoneEmpty(values) && n < |values|
    requires Valid(values[n]) && !RestartsAsWord(letters, values[n])
    requires OccursAt(Lowered(fold, text), values[n], p) && IsWordBoundary(letters, Lowered(fold, text), p, |values[n]|)
    ensures (Offsets(fold, text, 0)[p], Offsets(fold, text, 0)[p + |values[n]|]) in
              DictRanges(letters, Lowered(fold, text), Offsets(fold, text, 0), values)
    decreases |values|
  {
    hide Lowered, Offsets, IsWordBoundary, Valid, ReadsLastChar, RestartsAsWord, ValueRanges;
    if n < |values| - 1 {
      EveryWholeWordHasRange(fold, letters, text, values[..|values| - 1], n, p);
    } else {
      WholeWordIsFound(letters, Lowered(fold, text), values[n], p);
      FoundHasRange(letters, Lowered(fold, text), Offsets(fold, text, 0), values[n], 0, p);
    }
  }

  /** The range of every whole word of this value is in the result, for every text. */
  ghost predicate FindsAllRanges(fold: Fold, letters: Letters, values: seq<Bytes>, w: Bytes)
    requires NoneEmpty(values)
  {
    forall text, p: nat ::
      OccursAt(Lowered(fold, text), w, p) && StandsAlone(letters, Lowered(fold, text), p, |w|) ==>
      (Offsets(fold, text, 0)[p], Offsets(fold, text, 0)[p + |w|]) in
        DictRanges(letters, Lowered(fold, text), Offsets(fold, text, 0), values)
  }

  /** `findDictRanges` keeps its promise for a value of the dictionary, on all texts,
      exactly under the same condition. */
  lemma AllRangesAreFoundExactly(fold: Fold, letters: Letters, values: seq<Bytes>, n: nat)
    requires Encodes(fold) && ReadsLastChar(letters) && NoneEmpty(values) && n < |values|
    requires forall i :: 0 <= i < |values| ==> Valid(values[i])
    requires Lowered(fold, values[n]) == values[n]
    ensures FindsAllRanges(fold, letters, values, values[n]) <==> !RestartsAsWord(letters, values[n])
  {
    hide Lowered, Offsets, DictRanges, Encodes, Valid, ReadsLastChar, IsWordBoundary, Restarted;
    var w := values[n];
    if RestartsAsWord(letters, w) {
      var k: nat :| 0 < k < |w| && w[k..] == w[..|w| - k] && !letters.before(w, k);
      RestartHasNoRange(fold, letters, w, k, values);
      BoundaryStandsAlone(letters, Restarted(w, k), k, |w|);
    } else {
      forall text, p: nat |
        OccursAt(Lowered(fold, text), w, p) && StandsAlone(letters, Lowered(fold, text), p, |w|)
        ensures (Offsets(fold, text, 0)[p], Offsets(fold, text, 0)[p + |w|]) in
                  DictRanges(letters, Lowered(fold, text), Offsets(fold, text, 0), values)
      {
        BoundaryStandsAlone(letters, Lowered(fold, text), p, |w|);
        EveryWholeWordHasRange(fold, letters, text, values, n, p);
      }
    }
  }
}

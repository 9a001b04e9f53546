/** The round trip holds for a prefix on all texts exactly when it is safe. */
module SafePrefixes {
  import opened Bytes
  import opened Decimal
  import opened Markers
  import opened Ranges
  import Sorting
  import opened Restoring
  import opened Masking
  import opened RoundTrip

  ghost predicate RoundTrips(prefix: Bytes, text: Bytes, ranges: seq<Range>)
    requires InBounds(ranges, |text|)
  {
    Substitute(Masked(prefix, text, ranges), ByMarker(TableOf(prefix, text, ranges))) == text
  }

  /** With a closing bracket in the prefix no parsed marker is ever a table
      marker, so `Restore` changes nothing. */
  lemma {:induction false} ClosingBracketRestoresNothing(s: Bytes, lookup: Lookup)
    requires forall k :: k in lookup ==> |k| > 0 && RBRACKET in k[..|k| - 1]
    ensures Substitute(s, lookup) == s
    decreases |s|
  {
    if s != [] {
      StepsOverHead(s, lookup);
      hide Step;
      ClosingBracketRestoresNothing(s[1..], lookup);
    }
  }

  /** The parsed marker ends at the first closing bracket, so it is no such marker. */
  lemma StepsOverHead(s: Bytes, lookup: Lookup)
    requires s != [] && forall k :: k in lookup ==> |k| > 0 && RBRACKET in k[..|k| - 1]
    ensures Step(s, lookup) == ([s[0]], 1)
  {
    hide IndexByte;
    var mk := HeadMarker(s);
    if mk != [] {
      assert mk[..|mk| - 1] == s[..|mk| - 1];
    }
  }

  lemma OneRange(r: Range)
    ensures Merged([r]) == [r]
  {
    var empty: seq<Range> := [];
    assert [r][1..] == empty && [r][..0] == empty;
    assert Sorting.Sort(empty, Before) == [];
    assert Sorting.Insert(r, empty, Before) == [r];
    assert Compact(empty) == [];
  }

  /** The table for one range at the end of a text without used numbers. */
  lemma MaskAtEnd(prefix: Bytes, text: Bytes, at: nat)
    requires at <= |text| && UsedFrom(prefix, text, 0) == {}
    ensures var ranges := [Range(at, |text|)];
            && InBounds(ranges, |text|)
            && TableOf(prefix, text, ranges) == [Entry(text, Range(at, |text|), Marker(prefix, 0))]
            && Masked(prefix, text, ranges) == text[..at] + Marker(prefix, 0)
  {
    hide Marker, UsedFrom;
    var r := Range(at, |text|);
    var ranges := [r];
    OneRange(r);

    var e := Entry(text, r, Marker(prefix, 0));
    MaskStarts(prefix, text, ranges);
    MaskStep(prefix, text, [r], 0, {}, 0, []);
    assert NextFree({}, 0) == 0;
    var table := TableFrom(prefix, text, [r], 0, {}, 0);
    assert [r][1..] == [];
    assert TableFrom(prefix, text, [], |text|, {0}, 1) == [];
    assert table == [e];
    assert Assemble(text, [e][1..], |text|) == [];
  }

  lemma SingletonLookup(e: Replacement)
    ensures ByMarker([e]) == map[e.marker := e.original]
  {
    assert [e][..0] == [];
    assert ByMarker([]) == map[];
  }

  lemma ClosingBracketBreaks(prefix: Bytes)
    requires RBRACKET in prefix
    ensures InBounds([Range(0, 0)], 0) && !RoundTrips(prefix, [], [Range(0, 0)])
  {
    hide UsedFrom, Substitute, ByMarker, Masked, TableOf, Print;
    UsedIsBounded(prefix, [], 0);
    MaskAtEnd(prefix, [], 0);
    var m := Marker(prefix, 0);
    MarkerShape(prefix, 0);
    var e := Entry([], Range(0, 0), m);
    SingletonLookup(e);
    var i :| 0 <= i < |prefix| && prefix[i] == RBRACKET;
    assert m[i + 1] == RBRACKET;
    assert m[..|m| - 1][i + 1] == RBRACKET;
    ClosingBracketRestoresNothing(m, ByMarker([e]));
    assert [][..0] + m == m;
  }

  // ---- A bordered opening -----------------------------------------------------

  /** The opening overlaid with itself, then "0]" and one byte to mask: the scan
      reads the first opening and runs past the start of the second. */
  ghost function Overlaid(prefix: Bytes, b: nat): Bytes
    requires 0 < b < |Open(prefix)|
  {
    Open(prefix)[..|Open(prefix)| - b] + Marker(prefix, 0) + [88]
  }

  ghost predicate BorderOf(open: Bytes, b: nat) {
    0 < b < |open| && open[..b] == open[|open| - b..]
  }

  lemma OverlaidBytes(prefix: Bytes, b: nat)
    requires BorderOf(Open(prefix), b)
    ensures var open := Open(prefix); var l := |open|; var text := Overlaid(prefix, b);
            && |text| == 2 * l - b + 3
            && OccursAt(text, open, 0)
            && (forall p :: l - b <= p < 2 * l - b ==> text[p] == open[p - (l - b)])
            && text[2 * l - b..] == [48, RBRACKET, 88]
  {
    var open := Open(prefix);
    var l := |open|;
    var text := Overlaid(prefix, b);
    assert Print(0) == [48];
    assert text == open[..l - b] + open + [48, RBRACKET, 88];
    assert text[..l] == open[..l - b] + open[..b] == open;
  }

  /** The scan of the overlaid text finds nothing. */
  lemma OverlaidUsesNothing(prefix: Bytes, b: nat)
    requires RBRACKET !in prefix && BorderOf(Open(prefix), b)
    ensures UsedFrom(prefix, Overlaid(prefix, b), 0) == {}
  {
    hide IndexFrom, DigitsEnd, Value, Print, Overlaid, NumberAt;
    OverlaidBytes(prefix, b);
    var open, text := Open(prefix), Overlaid(prefix, b);
    var l := |open|;
    var j := DigitsEnd(text, l);
    OverlaidNumber(prefix, b);
    forall p | l <= p ensures !OccursAt(text, open, p) {
      if p + l <= |text| {
        assert text[p..p + l][l - 1] == text[p + l - 1] == text[2 * l - b..][p - l + b - 1] != UNDERSCORE;
      }
    }
    assert IndexFrom(text, open, 0) == 0;
    assert IndexFrom(text, open, j) == -1;
    assert UsedFrom(prefix, text, j) == {};
  }

  /** After the first opening come digits, if any, and then no closing bracket. */
  lemma OverlaidNumber(prefix: Bytes, b: nat)
    requires RBRACKET !in prefix && BorderOf(Open(prefix), b)
    ensures |Open(prefix)| <= |Overlaid(prefix, b)|
    ensures NumberAt(Overlaid(prefix, b), |Open(prefix)|) == {}
  {
    hide DigitsEnd, Value, Print, Overlaid;
    OverlaidBytes(prefix, b);
    var open, text := Open(prefix), Overlaid(prefix, b);
    var l := |open|;
    var j := DigitsEnd(text, l);
    var last := 2 * l - b - 1;
    assert text[last] == UNDERSCORE;
    assert forall t :: l <= t < j ==> IsDigit(text[l..j][t - l]) && text[t] == text[l..j][t - l];
    assert j <= last;
    assert text[j] == open[j - (l - b)] != RBRACKET;
  }

  lemma BorderedBreaks(prefix: Bytes, b: nat)
    requires RBRACKET !in prefix && BorderOf(Open(prefix), b)
    ensures var text := Overlaid(prefix, b); var ranges := [Range(|text| - 1, |text|)];
            && |text| <= 2 * |prefix| + 7 && InBounds(ranges, |text|) && !RoundTrips(prefix, text, ranges)
  {
    hide UsedFrom, Substitute, ByMarker, Masked, TableOf, Print;
    OverlaidUsesNothing(prefix, b);
    var text := Overlaid(prefix, b);
    var at := |text| - 1;
    MaskAtEnd(prefix, text, at);
    var m, a := Marker(prefix, 0), Open(prefix)[..|Open(prefix)| - b];
    OverlaidBytes(prefix, b);
    assert text[..at] == a + m && text[at..] == [88];
    var e := Entry(text, Range(at, |text|), m);
    SingletonLookup(e);
    assert e.original == [88];
    DoubledMarker(prefix, a, [88]);
    MarkerShape(prefix, 0);
    assert a + m + m == text[..at] + m;
    assert |a + [88] + [88]| < |text|;
  }

  /** Both occurrences of the marker are replaced, the one that was in the text
      already too. */
  lemma DoubledMarker(prefix: Bytes, a: Bytes, x: Bytes)
    requires RBRACKET !in prefix && RBRACKET !in a && |a| <= |prefix| + 2
    ensures var m := Marker(prefix, 0); Substitute(a + m + m, map[m := x]) == a + x + x
  {
    hide Substitute, Print, HeadMarker, Marker, Occurs;
    var m := Marker(prefix, 0);
    var lookup := map[m := x];
    MarkerShape(prefix, 0);
    assert MarkerLookup(lookup);
    KeptWithoutMarker(a, m, x);
    KeptWithoutMarker([], m, x);
    SubstitutesEveryOccurrence(a, m, m, lookup);
    SubstitutesEveryOccurrence([], m, [], lookup);
    assert [] + m + [] == m;
  }

  lemma KeptWithoutMarker(a: Bytes, m: Bytes, x: Bytes)
    requires |a| < |m|
    ensures Substitute(a, map[m := x]) == a
  {
    hide Substitute;
    assert !HasMarker(a, map[m := x]);
    SubstituteWithoutMarkers(a, map[m := x]);
  }

  // ---- The exact condition ----------------------------------------------------

  ghost predicate AlwaysRoundTrips(prefix: Bytes) {
    forall text, ranges ::
      InBounds(ranges, |text|) && Addressable(text, ranges) ==> RoundTrips(prefix, text, ranges)
  }

  /** Masking can always be undone if and only if the prefix has no closing
      bracket and "[prefix_" does not overlap itself; the length bound is far
      above what a process can hold. */
  lemma RoundTripsExactlyForSafePrefixes(prefix: Bytes)
    requires |prefix| <= MAX_INT / 4
    ensures AlwaysRoundTrips(prefix) <==> SafePrefix(prefix)
  {
    hide RoundTrips, Overlaid, Masked, TableOf, InBounds;
    if SafePrefix(prefix) {
      forall text, ranges | InBounds(ranges, |text|) && Addressable(text, ranges)
        ensures RoundTrips(prefix, text, ranges)
      {
        SafeRoundTrips(prefix, text, ranges);
      }
    } else if RBRACKET in prefix {
      ClosingBracketBreaks(prefix);
      assert Addressable([], [Range(0, 0)]);
    } else {
      var k :| 0 < k < |Open(prefix)| && Open(prefix)[..k] == Open(prefix)[|Open(prefix)| - k..];
      BorderedBreaks(prefix, k);
      var text := Overlaid(prefix, k);
      assert Addressable(text, [Range(|text| - 1, |text|)]);
    }
  }

  lemma SafeRoundTrips(prefix: Bytes, text: Bytes, ranges: seq<Range>)
    requires SafePrefix(prefix) && InBounds(ranges, |text|) && Addressable(text, ranges)
    ensures RoundTrips(prefix, text, ranges)
  {
    RestoreUndoesMask(prefix, text, ranges);
  }
}

/** Masking can be undone: markers are fresh, and `Restore` is the inverse of
    `Mask` exactly for safe prefixes. */
module RoundTrip {
  import opened Bytes
  import opened Decimal
  import opened Markers
  import opened Ranges
  import opened Restoring
  import opened Masking

  /** What a Go process can hold: the lengths of a string and of a slice of
      ranges together stay within the range of `int`. */
  ghost predicate Addressable(text: Bytes, ranges: seq<Range>) {
    |text| + |ranges| <= MAX_INT
  }

  /** The numbers of the markers allocated one after another. */
  ghost function Allocated(used: set<nat>, next: nat, count: nat): (ns: seq<nat>)
    ensures |ns| == count
    decreases count
  {
    if count == 0 then []
    else
      var n := NextFree(used, next);
      [n] + Allocated(used + {n}, n + 1, count - 1)
  }

  /** Allocated numbers go up, avoid every number in use, and stay below the count
      of used numbers plus the count of allocated ones. */
  ghost predicate FreshNumbers(ns: seq<nat>, used: set<nat>, next: nat) {
    && (forall i :: 0 <= i < |ns| ==> next <= ns[i] <= |used| + i && ns[i] !in used)
    && (forall i, j :: 0 <= i < j < |ns| ==> ns[i] < ns[j])
  }

  lemma {:induction false} AllocatedNumbers(used: set<nat>, next: nat, count: nat)
    requires forall m: nat :: m < next ==> m in used
    ensures FreshNumbers(Allocated(used, next, count), used, next)
    decreases count
  {
    hide NextFree;
    if count > 0 {
      NextFreeIsSmall(used, next);
      var n := NextFree(used, next);
      AllocatedNumbers(used + {n}, n + 1, count - 1);
      FreshNumbersCons(n, Allocated(used + {n}, n + 1, count - 1), used, next);
    }
  }

  lemma FreshNumbersCons(n: nat, tail: seq<nat>, used: set<nat>, next: nat)
    requires next <= n <= |used| && n !in used && FreshNumbers(tail, used + {n}, n + 1)
    ensures FreshNumbers([n] + tail, used, next)
  {
    var ns := [n] + tail;
    assert |used + {n}| == |used| + 1;
    assert forall i :: 0 < i < |ns| ==> ns[i] == tail[i - 1];
  }

  ghost predicate MarkedBy(prefix: Bytes, text: Bytes, table: seq<Replacement>, ns: seq<nat>) {
    && |table| == |ns|
    && (forall i :: 0 <= i < |ns| ==> table[i].marker == Marker(prefix, ns[i]) && IsPart(text, table[i]))
  }

  lemma {:induction false} TableMarkers(prefix: Bytes, text: Bytes, merged: seq<Range>, last: int, used: set<nat>,
                                        next: nat)
    requires Ordered(text, merged, last)
    ensures MarkedBy(prefix, text, TableFrom(prefix, text, merged, last, used, next), Allocated(used, next, |merged|))
    decreases |merged|
  {
    hide NextFree, Marker, Fits;
    if merged != [] {
      var n := NextFree(used, next);
      TableMarkers(prefix, text, merged[1..], merged[0].end, used + {n}, n + 1);
      var rest := TableFrom(prefix, text, merged[1..], merged[0].end, used + {n}, n + 1);
      var table, e := TableFrom(prefix, text, merged, last, used, next), Entry(text, merged[0], Marker(prefix, n));
      var ns, tail := Allocated(used, next, |merged|), Allocated(used + {n}, n + 1, |merged| - 1);
      assert table == [e] + rest;
      assert ns == [n] + tail;
      forall i | 0 <= i < |ns| ensures table[i].marker == Marker(prefix, ns[i]) && IsPart(text, table[i]) {
        if i > 0 {
          assert table[i] == rest[i - 1] && ns[i] == tail[i - 1];
        }
      }
    }
  }

  /** The entry stands for its range of the text. */
  ghost predicate IsPart(text: Bytes, e: Replacement) {
    0 <= e.start <= e.end <= |text| && e.original == text[e.start..e.end]
  }

  ghost predicate Distinct(table: seq<Replacement>) {
    forall i, j :: 0 <= i < j < |table| ==> table[i].marker != table[j].marker
  }

  /** The markers are bracketed, pairwise distinct, none ends another, and none
      occurs in the text. */
  ghost predicate FreshTable(text: Bytes, table: seq<Replacement>) {
    && Distinct(table)
    && (forall e :: e in table ==> Bracketed(e.marker) && !Occurs(text, e.marker) && IsPart(text, e))
    && (forall e, f :: e in table && f in table && IsSuffix(e.marker, f.marker) ==> e.marker == f.marker)
  }

  /** For a safe prefix the markers of `Mask` are fresh. */
  lemma MarkersAreFresh(prefix: Bytes, text: Bytes, ranges: seq<Range>)
    requires SafePrefix(prefix) && InBounds(ranges, |text|) && Addressable(text, ranges)
    ensures FreshTable(text, TableOf(prefix, text, ranges))
  {
    hide UsedFrom, Merged, Allocated, TableFrom, Marker, FreshTable, SafePrefix, Assemble, Fits, Ordered, InBounds;
    MaskStarts(prefix, text, ranges);
    MergedRanges(ranges, |text|);
    var used := UsedFrom(prefix, text, 0);
    UsedIsBounded(prefix, text, 0);
    var merged := Merged(ranges);
    var ns := Allocated(used, 0, |merged|);
    AllocatedNumbers(used, 0, |merged|);
    TableMarkers(prefix, text, merged, 0, used, 0);
    NumbersGiveFreshTable(prefix, text, TableOf(prefix, text, ranges), ns);
  }

  lemma NumbersGiveFreshTable(prefix: Bytes, text: Bytes, table: seq<Replacement>, ns: seq<nat>)
    requires SafePrefix(prefix) && MarkedBy(prefix, text, table, ns)
    requires FreshNumbers(ns, UsedFrom(prefix, text, 0), 0) && |UsedFrom(prefix, text, 0)| + |ns| <= MAX_INT
    ensures FreshTable(text, table)
  {
    hide Marker, UsedFrom, Occurs, Bordered;
    forall i | 0 <= i < |table|
      ensures Bracketed(table[i].marker) && !Occurs(text, table[i].marker)
    {
      MarkerIsFresh(prefix, text, ns[i]);
    }
    forall i, j | 0 <= i < |table| && 0 <= j < |table| && IsSuffix(table[i].marker, table[j].marker)
      ensures i == j
    {
      MarkersSuffixFree(prefix, ns[i], ns[j]);
    }
    forall i, j | 0 <= i < j < |table| ensures table[i].marker != table[j].marker {
      var a, b := ns[i], ns[j];
      if table[i].marker == table[j].marker {
        MarkersSuffixFree(prefix, a, b);
      }
    }
  }

  lemma MarkerIsFresh(prefix: Bytes, text: Bytes, n: nat)
    requires SafePrefix(prefix) && n <= MAX_INT && n !in UsedFrom(prefix, text, 0)
    ensures Bracketed(Marker(prefix, n)) && !Occurs(text, Marker(prefix, n))
  {
    hide Marker, UsedFrom, Bordered;
    MarkerShape(prefix, n);
    if Occurs(text, Marker(prefix, n)) {
      var i :| OccursAt(text, Marker(prefix, n), i);
      ScanFindsMarker(prefix, text, n, i, 0);
    }
  }

  /** With distinct markers the lookup is the table. */
  lemma {:induction false} LookupOfTable(table: seq<Replacement>)
    requires Distinct(table)
    ensures var m := ByMarker(table);
            && (forall i :: 0 <= i < |table| ==> table[i].marker in m && m[table[i].marker] == table[i].original)
            && (forall k :: k in m ==> exists i :: 0 <= i < |table| && table[i].marker == k)
  {
    if table != [] {
      LookupOfTable(table[..|table| - 1]);
    }
  }

  /** A fresh table is a marker lookup whose originals are inert. */
  lemma FreshLookup(text: Bytes, table: seq<Replacement>)
    requires FreshTable(text, table)
    ensures MarkerLookup(ByMarker(table)) && InertOriginals(ByMarker(table))
    ensures !HasMarker(text, ByMarker(table))
    ensures forall e :: e in table ==> e.marker in ByMarker(table) && ByMarker(table)[e.marker] == e.original
  {
    hide ByMarker, Bracketed, Occurs, IsSuffix;
    var lookup := ByMarker(table);
    LookupOfTable(table);
    forall k | k in lookup ensures Bracketed(k) && !Occurs(text, k) && !HasMarker(lookup[k], lookup) {
      var i :| 0 <= i < |table| && table[i].marker == k;
      assert table[i] in table;
      PartHasNoMarker(text, table, table[i], lookup);
    }
    forall p, s | p in lookup && s in lookup && IsSuffix(p, s) ensures p == s {
      var i :| 0 <= i < |table| && table[i].marker == p;
      var j :| 0 <= j < |table| && table[j].marker == s;
      assert table[i] in table && table[j] in table;
    }
  }

  lemma PartHasNoMarker(text: Bytes, table: seq<Replacement>, e: Replacement, lookup: Lookup)
    requires FreshTable(text, table) && e in table
    requires forall k :: k in lookup ==> exists i :: 0 <= i < |table| && table[i].marker == k
    ensures !HasMarker(e.original, lookup)
  {
    hide Occurs, Bracketed, IsSuffix;
    if HasMarker(e.original, lookup) {
      var k :| k in lookup && Occurs(e.original, k);
      var i :| 0 <= i < |table| && table[i].marker == k;
      assert table[i] in table;
      OccursInPart(text, e.start, e.end, k);
    }
  }

  lemma OccursInPart(text: Bytes, a: int, b: int, p: Bytes)
    requires 0 <= a <= b <= |text| && Occurs(text[a..b], p)
    ensures Occurs(text, p)
  {
    OccursInWhole(text[..a], text[a..b], text[b..], p);
    assert text == text[..a] + text[a..b] + text[b..];
  }

  /** Substituting a table into the text assembled from it gives the text back. */
  lemma {:induction false} SubstituteAssembled(text: Bytes, table: seq<Replacement>, last: int, lookup: Lookup)
    requires Fits(text, table, last) && MarkerLookup(lookup) && !HasMarker(text, lookup)
    requires forall e :: e in table ==> IsPart(text, e) && e.marker in lookup && lookup[e.marker] == e.original
    ensures Substitute(Assemble(text, table, last), lookup) == text[last..]
  {
    hide Substitute, MarkerLookup, HasMarker;
    if table == [] {
      GapIsKept(text, last, |text|, lookup);
      assert text[last..] == text[last..|text|];
    } else {
      var e := table[0];
      assert e in table;
      assert forall f :: f in table[1..] ==> f in table;
      var gap, rest := text[last..e.start], Assemble(text, table[1..], e.end);
      SubstituteAssembled(text, table[1..], e.end, lookup);
      GapIsKept(text, last, e.start, lookup);
      SubstitutesEveryOccurrence(gap, e.marker, rest, lookup);
      assert gap + e.original + text[e.end..] == text[last..];
    }
  }

  lemma GapIsKept(text: Bytes, a: int, b: int, lookup: Lookup)
    requires 0 <= a <= b <= |text| && !HasMarker(text, lookup)
    ensures Substitute(text[a..b], lookup) == text[a..b]
  {
    hide Occurs, Substitute;
    if HasMarker(text[a..b], lookup) {
      var k :| k in lookup && Occurs(text[a..b], k);
      OccursInPart(text, a, b, k);
    }
    SubstituteWithoutMarkers(text[a..b], lookup);
  }

  /** `Restore(Mask(text, ranges)) == text`. */
  lemma RestoreUndoesMask(prefix: Bytes, text: Bytes, ranges: seq<Range>)
    requires SafePrefix(prefix) && InBounds(ranges, |text|) && Addressable(text, ranges)
    ensures Substitute(Masked(prefix, text, ranges), ByMarker(TableOf(prefix, text, ranges))) == text
  {
    hide Substitute, ByMarker, Assemble, TableFrom, UsedFrom, Merged, SafePrefix, IsPart, HasMarker;
    MarkersAreFresh(prefix, text, ranges);
    var table := TableOf(prefix, text, ranges);
    FreshLookup(text, table);
    SubstituteAssembled(text, table, 0, ByMarker(table));
    assert text[0..] == text;
  }

  /** Masking changes the text exactly when there is something to mask. */
  lemma MaskChangesText(prefix: Bytes, text: Bytes, ranges: seq<Range>)
    requires SafePrefix(prefix) && InBounds(ranges, |text|) && Addressable(text, ranges)
    ensures Masked(prefix, text, ranges) == text <==> ranges == []
  {
    hide *;
    MaskStarts(prefix, text, ranges);
    if ranges != [] {
      MarkersAreFresh(prefix, text, ranges);
      MergedRanges(ranges, |text|);
      var table := TableOf(prefix, text, ranges);
      FirstMarkerOccurs(text, table);
    }
  }

  lemma FirstMarkerOccurs(text: Bytes, table: seq<Replacement>)
    requires Fits(text, table, 0) && table != [] && FreshTable(text, table)
    ensures Assemble(text, table, 0) != text
  {
    hide Bracketed, IsSuffix;
    var e := table[0];
    var m := Assemble(text, table, 0);
    assert m[e.start..e.start + |e.marker|] == e.marker;
    assert OccursAt(m, e.marker, e.start);
    assert e in table;
  }

  /** `restored != masked` is an exact test: with the table of a mask, the output
      of `Restore` differs from its input, whatever the input, if and only if one
      of the table's own markers occurs in it. */
  lemma RestorationIsDetected(prefix: Bytes, text: Bytes, ranges: seq<Range>, input: Bytes)
    requires SafePrefix(prefix) && InBounds(ranges, |text|) && Addressable(text, ranges)
    ensures var table := TableOf(prefix, text, ranges);
            Substitute(input, ByMarker(table)) != input <==> exists e :: e in table && Occurs(input, e.marker)
  {
    hide *;
    MarkersAreFresh(prefix, text, ranges);
    var table := TableOf(prefix, text, ranges);
    TableRestorationIsDetected(text, table, input);
  }

  lemma TableRestorationIsDetected(text: Bytes, table: seq<Replacement>, input: Bytes)
    requires FreshTable(text, table)
    ensures Substitute(input, ByMarker(table)) != input <==> exists e :: e in table && Occurs(input, e.marker)
  {
    hide ByMarker, Substitute, MarkerLookup, InertOriginals, Occurs, Bracketed, IsSuffix;
    FreshLookup(text, table);
    DetectsRestoration(input, ByMarker(table));
    LookupOfTable(table);
    if HasMarker(input, ByMarker(table)) {
      var k :| k in ByMarker(table) && Occurs(input, k);
      var i :| 0 <= i < |table| && table[i].marker == k;
      assert table[i] in table;
    }
  }

  /** Whatever the prefix: one marker per merged range, numbered upwards, and
      every number below the count of used numbers plus the count of ranges. */
  lemma AllocationIsBounded(prefix: Bytes, text: Bytes, ranges: seq<Range>)
    requires InBounds(ranges, |text|)
    ensures var table, used := TableOf(prefix, text, ranges), UsedFrom(prefix, text, 0);
            var ns := Allocated(used, 0, |table|);
            && MarkedBy(prefix, text, table, ns)
            && FreshNumbers(ns, used, 0)
            && forall i :: 0 <= i < |ns| ==> ns[i] < |used| + |table|
  {
    hide UsedFrom, Merged, Allocated, TableFrom, Assemble, MarkedBy, Ordered;
    MaskStarts(prefix, text, ranges);
    var used := UsedFrom(prefix, text, 0);
    AllocatedNumbers(used, 0, |Merged(ranges)|);
    TableMarkers(prefix, text, Merged(ranges), 0, used, 0);
  }
}

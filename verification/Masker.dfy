/** `masker.Mask` and `masker.Stars`, and the round trip with `Restore`. */
module Masking {
  import opened Bytes
  import opened Decimal
  import opened Markers
  import opened Ranges
  import opened Restoring

  // ---- What Mask writes -------------------------------------------------------

  /** Consecutive table entries lie one after the other in text[last..]. */
  ghost predicate Fits(text: Bytes, table: seq<Replacement>, last: int) {
    if table == [] then 0 <= last <= |text|
    else
      && 0 <= last <= table[0].start <= table[0].end <= |text|
      && Fits(text, table[1..], table[0].end)
  }

  /** text[last..] with the range of every entry replaced by its marker, and all
      other bytes kept in order. */
  function Assemble(text: Bytes, table: seq<Replacement>, last: int): Bytes
    requires Fits(text, table, last)
  {
    if table == [] then text[last..]
    else text[last..table[0].start] + table[0].marker + Assemble(text, table[1..], table[0].end)
  }

  /** The merged ranges lie one after the other from `last` on. */
  ghost predicate Ordered(text: Bytes, merged: seq<Range>, last: int) {
    if merged == [] then 0 <= last <= |text|
    else
      && 0 <= last <= merged[0].start <= merged[0].end <= |text|
      && Ordered(text, merged[1..], merged[0].end)
  }

  function Entry(text: Bytes, r: Range, marker: Bytes): Replacement
    requires 0 <= r.start <= r.end <= |text|
  {
    Replacement(marker, text[r.start..r.end], r.start, r.end)
  }

  /** The table for the merged ranges, numbers allocated from `next` on. */
  function TableFrom(prefix: Bytes, text: Bytes, merged: seq<Range>, last: int, used: set<nat>, next: nat)
    : (table: seq<Replacement>)
    requires Ordered(text, merged, last)
    ensures |table| == |merged| && Fits(text, table, last)
  {
    if merged == [] then []
    else
      var r := merged[0];
      var n := NextFree(used, next);
      [Entry(text, r, Marker(prefix, n))] + TableFrom(prefix, text, merged[1..], r.end, used + {n}, n + 1)
  }

  lemma {:induction false} SeparatedIsOrdered(text: Bytes, merged: seq<Range>, last: int)
    requires Separated(merged) && InBounds(merged, |text|) && 0 <= last <= |text|
    requires merged != [] ==> last <= merged[0].start
    ensures Ordered(text, merged, last)
  {
    if merged != [] {
      assert merged[0] in merged;
      assert forall r :: r in merged[1..] ==> r in merged;
      SeparatedIsOrdered(text, merged[1..], merged[0].end);
    }
  }

  lemma MergedIsOrdered(text: Bytes, ranges: seq<Range>)
    requires InBounds(ranges, |text|)
    ensures Ordered(text, Merged(ranges), 0)
  {
    hide Merged;
    MergedRanges(ranges, |text|);
    assert Merged(ranges) != [] ==> Merged(ranges)[0] in Merged(ranges);
    SeparatedIsOrdered(text, Merged(ranges), 0);
  }

  function TableOf(prefix: Bytes, text: Bytes, ranges: seq<Range>): (table: seq<Replacement>)
    requires InBounds(ranges, |text|)
    ensures Fits(text, table, 0) && |table| == |Merged(ranges)|
  {
    MergedIsOrdered(text, ranges);
    TableFrom(prefix, text, Merged(ranges), 0, UsedFrom(prefix, text, 0), 0)
  }

  function Masked(prefix: Bytes, text: Bytes, ranges: seq<Range>): Bytes
    requires InBounds(ranges, |text|)
  {
    Assemble(text, TableOf(prefix, text, ranges), 0)
  }

  method Mask(prefix: Bytes, text: Bytes, ranges: seq<Range>) returns (masked: Bytes, table: seq<Replacement>)
    requires InBounds(ranges, |text|)
    ensures table == TableOf(prefix, text, ranges)
    ensures masked == Masked(prefix, text, ranges)
  {
    hide *;
    MaskStarts(prefix, text, ranges);
    if |ranges| == 0 {
      return text, [];
    }
    var merged := MergeRanges(ranges);
    var used := UsedMarkers(prefix, text);
    var next := 0;
    table := [];
    masked := [];
    var last := 0;
    ghost var rest := TableOf(prefix, text, ranges);
    assert merged[0..] == merged;
    for i := 0 to |merged|
      invariant Ordered(text, merged[i..], last)
      invariant rest == TableFrom(prefix, text, merged[i..], last, used, next)
      invariant TableOf(prefix, text, ranges) == table + rest
      invariant Masked(prefix, text, ranges) == masked + Assemble(text, rest, last)
    {
      var r := merged[i];
      assert merged[i..][1..] == merged[i + 1..];
      MaskStep(prefix, text, merged[i..], last, used, next, masked);
      var used', marker, n := NextMarker(prefix, used, next);
      masked := masked + text[last..r.start] + marker;
      table := table + [Entry(text, r, marker)];
      used, next, last := used', n + 1, r.end;
      rest := rest[1..];
    }
    assert merged[|merged|..] == [];
    MaskEnds(prefix, text, last, used, next);
    masked := masked + text[last..];
  }

  lemma MaskStarts(prefix: Bytes, text: Bytes, ranges: seq<Range>)
    requires InBounds(ranges, |text|)
    ensures Ordered(text, Merged(ranges), 0)
    ensures TableOf(prefix, text, ranges) ==
            TableFrom(prefix, text, Merged(ranges), 0, UsedFrom(prefix, text, 0), 0)
    ensures Masked(prefix, text, ranges) == Assemble(text, TableOf(prefix, text, ranges), 0)
    ensures ranges == [] ==> TableOf(prefix, text, ranges) == [] && Masked(prefix, text, ranges) == text
  {
    hide Merged, UsedFrom;
    MergedIsOrdered(text, ranges);
    MergedRanges(ranges, |text|);
  }

  /** One round of the loop of `Mask`, after `done` has been written. */
  lemma MaskStep(prefix: Bytes, text: Bytes, merged: seq<Range>, last: int, used: set<nat>, next: nat, done: Bytes)
    requires merged != [] && Ordered(text, merged, last)
    ensures var r, n := merged[0], NextFree(used, next);
            var m, table := Marker(prefix, n), TableFrom(prefix, text, merged, last, used, next);
            && 0 <= last <= r.start <= r.end <= |text|
            && Ordered(text, merged[1..], r.end)
            && table == [Entry(text, r, m)] + TableFrom(prefix, text, merged[1..], r.end, used + {n}, n + 1)
            && done + Assemble(text, table, last) ==
               done + text[last..r.start] + m + Assemble(text, table[1..], r.end)
  {
    hide NextFree, Marker;
    var n := NextFree(used, next);
    var rest := TableFrom(prefix, text, merged[1..], merged[0].end, used + {n}, n + 1);
    var table := TableFrom(prefix, text, merged, last, used, next);
    assert table[1..] == rest;
  }

  lemma MaskEnds(prefix: Bytes, text: Bytes, last: int, used: set<nat>, next: nat)
    requires Ordered(text, [], last)
    ensures 0 <= last <= |text| && TableFrom(prefix, text, [], last, used, next) == []
    ensures Assemble(text, [], last) == text[last..]
  {
  }

  // ---- Stars ------------------------------------------------------------------

  /** "****", the fixed run of the stars format. */
  const STAR_RUN: Bytes := [42, 42, 42, 42]

  function StarTable(text: Bytes, merged: seq<Range>, last: int): (table: seq<Replacement>)
    requires Ordered(text, merged, last)
    ensures |table| == |merged| && Fits(text, table, last)
  {
    if merged == [] then []
    else [Entry(text, merged[0], STAR_RUN)] + StarTable(text, merged[1..], merged[0].end)
  }

  function StarTableOf(text: Bytes, ranges: seq<Range>): (table: seq<Replacement>)
    requires InBounds(ranges, |text|)
    ensures Fits(text, table, 0)
  {
    MergedIsOrdered(text, ranges);
    StarTable(text, Merged(ranges), 0)
  }

  method Stars(text: Bytes, ranges: seq<Range>) returns (masked: Bytes, table: seq<Replacement>)
    requires InBounds(ranges, |text|)
    ensures table == StarTableOf(text, ranges) && masked == Assemble(text, table, 0)
  {
    hide Merged, InBounds, Assemble, StarTable, Entry;
    MergedIsOrdered(text, ranges);
    if |ranges| == 0 {
      MergedRanges(ranges, |text|);
      StarsEnd(text, 0);
      return text, [];
    }
    var merged := MergeRanges(ranges);
    table := [];
    masked := [];
    var last := 0;
    ghost var rest := StarTableOf(text, ranges);
    assert merged[0..] == merged;
    for i := 0 to |merged|
      invariant Ordered(text, merged[i..], last)
      invariant rest == StarTable(text, merged[i..], last)
      invariant StarTableOf(text, ranges) == table + rest
      invariant Assemble(text, StarTableOf(text, ranges), 0) == masked + Assemble(text, rest, last)
    {
      var r := merged[i];
      assert merged[i..][1..] == merged[i + 1..];
      StarsStep(text, merged[i..], last, masked);
      masked := masked + text[last..r.start] + STAR_RUN;
      table := table + [Entry(text, r, STAR_RUN)];
      last := r.end;
      rest := rest[1..];
    }
    assert merged[|merged|..] == [];
    StarsEnd(text, last);
    masked := masked + text[last..];
  }

  lemma StarsStep(text: Bytes, merged: seq<Range>, last: int, done: Bytes)
    requires merged != [] && Ordered(text, merged, last)
    ensures var r, table := merged[0], StarTable(text, merged, last);
            && 0 <= last <= r.start <= r.end <= |text| && Ordered(text, merged[1..], r.end)
            && table == [Entry(text, r, STAR_RUN)] + StarTable(text, merged[1..], r.end)
            && done + Assemble(text, table, last) ==
               done + text[last..r.start] + STAR_RUN + Assemble(text, table[1..], r.end)
  {
    var rest := StarTable(text, merged[1..], merged[0].end);
    assert StarTable(text, merged, last)[1..] == rest;
  }

  lemma StarsEnd(text: Bytes, last: int)
    requires 0 <= last <= |text|
    ensures Ordered(text, [], last) && StarTable(text, [], last) == [] && Assemble(text, [], last) == text[last..]
  {
  }
}

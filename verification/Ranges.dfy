/** `masker.mergeRanges`: sort, then compact overlapping and adjacent ranges in
    place. */
module Ranges {
  import opened Sorting

  datatype Range = Range(start: int, end: int)

  predicate Before(a: Range, b: Range) {
    if a.start != b.start then a.start < b.start else a.end < b.end
  }

  lemma BeforeIsTotal()
    ensures StrictTotal(Before)
  {
  }

  function Sorted(ranges: seq<Range>): seq<Range> {
    Sort(ranges, Before)
  }

  /** One step of the compaction. */
  function Add(out: seq<Range>, r: Range): seq<Range> {
    if out == [] || r.start > out[|out| - 1].end then out + [r]
    else if r.end > out[|out| - 1].end then out[|out| - 1 := out[|out| - 1].(end := r.end)]
    else out
  }

  function Compact(rs: seq<Range>): (out: seq<Range>)
    ensures |out| <= |rs|
    ensures rs != [] ==> out != []
  {
    if rs == [] then [] else Add(Compact(rs[..|rs| - 1]), rs[|rs| - 1])
  }

  function Merged(ranges: seq<Range>): seq<Range> {
    Compact(Sorted(ranges))
  }

  lemma CompactNothing()
    ensures Compact([]) == []
  {
  }

  lemma CompactOneMore(rs: seq<Range>, i: nat)
    requires i < |rs|
    ensures Compact(rs[..i + 1]) == Add(Compact(rs[..i]), rs[i])
  {
    assert rs[..i + 1][..i] == rs[..i];
  }

  /** The result and the ranges still to read share one array: the write index
      never overtakes the read index. */
  method MergeRanges(ranges: seq<Range>) returns (merged: seq<Range>)
    ensures merged == Merged(ranges)
  {
    hide Sort, StrictTotal, Compact;
    var sorted := Sorted(ranges);
    var rs := new Range[|sorted|](i requires 0 <= i < |sorted| => sorted[i]);
    var k := 0;
    CompactNothing();
    for i := 0 to rs.Length
      invariant 0 <= k <= i
      invariant rs[..k] == Compact(sorted[..i])
      invariant rs[i..] == sorted[i..]
    {
      var r := rs[i];
      assert r == rs[i..][0] == sorted[i];
      CompactOneMore(sorted, i);
      assert rs[i + 1..] == rs[i..][1..] == sorted[i + 1..];
      ghost var was := rs[..k];
      if k == 0 || r.start > rs[k - 1].end {
        rs[k] := r;
        k := k + 1;
        assert rs[..k] == was + [r];
      } else if r.end > rs[k - 1].end {
        rs[k - 1] := rs[k - 1].(end := r.end);
        assert rs[..k] == was[k - 1 := was[k - 1].(end := r.end)];
      }
    }
    assert sorted[..rs.Length] == sorted;
    merged := rs[..k];
  }

  // ---- What merging achieves --------------------------------------------------

  ghost predicate InBounds(ranges: seq<Range>, n: int) {
    forall r :: r in ranges ==> 0 <= r.start <= r.end <= n
  }

  /** Ordered, with at least one byte between consecutive ranges. */
  ghost predicate Separated(rs: seq<Range>) {
    forall i, j :: 0 <= i < j < |rs| ==> rs[i].end < rs[j].start
  }

  ghost predicate Covers(rs: seq<Range>, p: int) {
    exists r :: r in rs && r.start <= p < r.end
  }

  /** r lies inside one range of rs. */
  ghost predicate Within(r: Range, rs: seq<Range>) {
    exists m :: m in rs && m.start <= r.start && r.end <= m.end
  }

  lemma AddSeparates(out: seq<Range>, r: Range, n: int)
    requires Separated(out) && InBounds(out, n) && 0 <= r.start <= r.end <= n
    requires out != [] ==> out[|out| - 1].start <= r.start
    ensures var out' := Add(out, r);
            && Separated(out') && InBounds(out', n) && |out| <= |out'| <= |out| + 1
            && out'[|out'| - 1].start <= r.start
            && (forall i :: 0 <= i < |out| ==> out'[i].start == out[i].start && out[i].end <= out'[i].end)
            && (|out'| > |out| ==> out'[|out|] == r)
            && r.end <= out'[|out'| - 1].end
  {
    var out' := Add(out, r);
    assert forall i :: 0 <= i < |out| ==> out[i] in out;
    forall m | m in out' ensures 0 <= m.start <= m.end <= n {
      var i :| 0 <= i < |out'| && out'[i] == m;
    }
  }

  /** Sorted input, seen from its last element. */
  lemma LastIsLargest(rs: seq<Range>)
    requires SortedBy(rs, Before) && rs != []
    ensures SortedBy(rs[..|rs| - 1], Before)
    ensures |rs| > 1 ==> rs[..|rs| - 1][|rs| - 2].start <= rs[|rs| - 1].start
  {
    assert |rs| > 1 ==> !Before(rs[|rs| - 1], rs[|rs| - 2]);
  }

  lemma {:induction false} CompactSeparates(rs: seq<Range>, n: int)
    requires SortedBy(rs, Before) && InBounds(rs, n)
    ensures Separated(Compact(rs)) && InBounds(Compact(rs), n)
    ensures rs != [] ==> Compact(rs)[|Compact(rs)| - 1].start <= rs[|rs| - 1].start
    decreases |rs|, 1
  {
    if rs != [] {
      hide Before, SortedBy, Separated, Add, Compact, InBounds;
      FrontStartsBefore(rs, n);
      CompactLast(rs);
      AddSeparates(Compact(rs[..|rs| - 1]), rs[|rs| - 1], n);
    }
  }

  /** Every input range lies inside one merged range. */
  lemma {:induction false} CompactContains(rs: seq<Range>, n: int, r: Range)
    requires SortedBy(rs, Before) && InBounds(rs, n) && r in rs
    ensures Within(r, Compact(rs))
  {
    hide Before, SortedBy, Separated, Add, InBounds;
    var k := |rs| - 1;
    var out, out' := Compact(rs[..k]), Compact(rs);
    LastStep(rs, n);
    if r in rs[..k] {
      CompactContains(rs[..k], n, r);
      var i :| 0 <= i < |out| && out[i].start <= r.start && r.end <= out[i].end;
      assert out'[i] in out';
    } else {
      assert r == rs[k];
      assert out'[|out'| - 1] in out';
    }
  }

  /** The last step of the compaction, with what sortedness says about it. */
  lemma LastStep(rs: seq<Range>, n: int)
    requires SortedBy(rs, Before) && InBounds(rs, n) && rs != []
    ensures var out, r, out' := Compact(rs[..|rs| - 1]), rs[|rs| - 1], Compact(rs);
            && SortedBy(rs[..|rs| - 1], Before) && InBounds(rs[..|rs| - 1], n)
            && out' == Add(out, r) && |out| <= |out'| <= |out| + 1
            && out'[|out'| - 1].start <= r.start && r.end <= out'[|out'| - 1].end
            && (out != [] ==> out[|out| - 1].start <= r.start)
            && (forall i :: 0 <= i < |out| ==> out'[i].start == out[i].start && out[i].end <= out'[i].end)
  {
    hide Before, SortedBy, Separated, Add, Compact, InBounds;
    FrontStartsBefore(rs, n);
    CompactLast(rs);
    AddSeparates(Compact(rs[..|rs| - 1]), rs[|rs| - 1], n);
  }

  lemma {:induction false} FrontStartsBefore(rs: seq<Range>, n: int)
    requires SortedBy(rs, Before) && InBounds(rs, n) && rs != []
    ensures var before := rs[..|rs| - 1];
            && SortedBy(before, Before) && InBounds(before, n) && 0 <= rs[|rs| - 1].start <= rs[|rs| - 1].end <= n
            && Separated(Compact(before)) && InBounds(Compact(before), n)
            && (Compact(before) != [] ==> Compact(before)[|Compact(before)| - 1].start <= rs[|rs| - 1].start)
    decreases |rs|, 0
  {
    hide Before, SortedBy, Separated, Compact, InBounds;
    var before := rs[..|rs| - 1];
    LastIsLargest(rs);
    LastInBounds(rs, n);
    CompactSeparates(before, n);
    if before == [] {
      CompactNothing();
    }
  }

  lemma LastInBounds(rs: seq<Range>, n: int)
    requires InBounds(rs, n) && rs != []
    ensures InBounds(rs[..|rs| - 1], n) && 0 <= rs[|rs| - 1].start <= rs[|rs| - 1].end <= n
  {
    assert rs[|rs| - 1] in rs;
    assert forall r :: r in rs[..|rs| - 1] ==> r in rs;
  }

  lemma CompactLast(rs: seq<Range>)
    requires rs != []
    ensures Compact(rs) == Add(Compact(rs[..|rs| - 1]), rs[|rs| - 1])
    ensures Compact(rs[..|rs| - 1]) == [] ==> rs[..|rs| - 1] == []
  {
    hide Add;
  }

  /** Merging covers no byte that was not covered. */
  lemma {:induction false} CompactCoversOnly(rs: seq<Range>, n: int, p: int)
    requires SortedBy(rs, Before) && InBounds(rs, n) && Covers(Compact(rs), p)
    ensures Covers(rs, p)
  {
    hide Before, SortedBy, Separated, InBounds, Compact, Add;
    if rs == [] {
      CompactNothing();
    } else {
      var k := |rs| - 1;
      LastStep(rs, n);
      assert rs[k] in rs;
      if !(rs[k].start <= p < rs[k].end) {
        AddCoversOnly(Compact(rs[..k]), rs[k], p);
        CompactCoversOnly(rs[..k], n, p);
        var q :| q in rs[..k] && q.start <= p < q.end;
        assert q in rs;
      }
    }
  }

  lemma AddCoversOnly(out: seq<Range>, r: Range, p: int)
    requires out != [] ==> out[|out| - 1].start <= r.start
    requires Covers(Add(out, r), p)
    ensures Covers(out, p) || r.start <= p < r.end
  {
    var out' := Add(out, r);
    var m :| m in out' && m.start <= p < m.end;
    var i :| 0 <= i < |out'| && out'[i] == m;
    if i < |out| {
      assert out[i] in out;
      assert out' != out ==> out[|out| - 1] in out;
    }
  }

  /** Every merged range begins with an input range. */
  lemma {:induction false} CompactBegins(rs: seq<Range>, n: int, m: Range) returns (r: Range)
    requires SortedBy(rs, Before) && InBounds(rs, n) && m in Compact(rs)
    ensures r in rs && r.start == m.start && r.end <= m.end
  {
    hide Before, SortedBy, Separated, InBounds, Compact;
    var k := |rs| - 1;
    if rs == [] {
      CompactNothing();
      r := m;
    } else {
      LastStep(rs, n);
      var out, out' := Compact(rs[..k]), Compact(rs);
      var i :| 0 <= i < |out'| && out'[i] == m;
      if i < |out| {
        assert out[i] in out;
        r := CompactBegins(rs[..k], n, out[i]);
      } else {
        r := rs[k];
      }
    }
  }

  /** Merging keeps exactly the covered bytes, in separated in-bounds ranges, drops no
      range, not even an empty one, and adds none: each begins with an input range. */
  lemma MergedRanges(ranges: seq<Range>, n: int)
    requires InBounds(ranges, n)
    ensures Separated(Merged(ranges)) && InBounds(Merged(ranges), n)
    ensures forall p :: Covers(Merged(ranges), p) <==> Covers(ranges, p)
    ensures forall r :: r in ranges ==> Within(r, Merged(ranges))
    ensures forall m :: m in Merged(ranges) ==> exists r :: r in ranges && r.start == m.start && r.end <= m.end
    ensures |Merged(ranges)| <= |ranges|
    ensures Merged(ranges) == [] <==> ranges == []
  {
    hide Compact, Sort;
    BeforeIsTotal();
    SortSorts(ranges, Before);
    var rs := Sorted(ranges);
    SamePermutation(rs, ranges);
    CompactSeparates(rs, n);
    forall r | r in ranges ensures Within(r, Merged(ranges)) {
      CompactContains(rs, n, r);
    }
    hide InBounds, Separated, SortedBy, Within;
    forall m | m in Merged(ranges) ensures exists r :: r in ranges && r.start == m.start && r.end <= m.end {
      var r := CompactBegins(rs, n, m);
    }
    forall p ensures Covers(Merged(ranges), p) <==> Covers(ranges, p) {
      CompactCovers(rs, n, p);
    }
  }

  lemma CompactCovers(rs: seq<Range>, n: int, p: int)
    requires SortedBy(rs, Before) && InBounds(rs, n)
    ensures Covers(Compact(rs), p) <==> Covers(rs, p)
  {
    hide Compact, SortedBy, Before, InBounds;
    if Covers(Compact(rs), p) {
      CompactCoversOnly(rs, n, p);
    }
    if Covers(rs, p) {
      var r :| r in rs && r.start <= p < r.end;
      CompactContains(rs, n, r);
    }
  }
}

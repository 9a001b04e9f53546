/** What building guarantees: it fails closed, keeps every byte outside the found
    fragments, and can be undone from the reduced table. */
module PipelineFacts {
  import opened Bytes
  import opened Decimal
  import opened Markers
  import opened Ranges
  import opened Restoring
  import opened Masking
  import opened RoundTrip
  import Resolving
  import ResolveFacts
  import Sorting
  import Utf8
  import opened StoreCore
  import opened Pipeline

  // ---- The reduced table ------------------------------------------------------

  ghost predicate AllParts(text: Bytes, table: seq<Replacement>) {
    forall e :: e in table ==> IsPart(text, e)
  }

  /** Reducing a table to offsets and cutting the originals out again loses nothing
      that `Restore` reads. */
  lemma {:induction false} RebuiltLookup(text: Bytes, table: seq<Replacement>)
    requires AllParts(text, table)
    ensures Sliceable(text, Reduced(table))
    ensures ByMarker(Rebuilt(text, Reduced(table))) == ByMarker(table)
  {
    ReducedIsSliceable(text, table);
    if table != [] {
      var before := table[..|table| - 1];
      RebuiltLookup(text, before);
      var slots, rebuilt := Reduced(table), Rebuilt(text, Reduced(table));
      assert slots[..|slots| - 1] == Reduced(before);
      assert rebuilt[..|rebuilt| - 1] == Rebuilt(text, Reduced(before));
      assert table[|table| - 1] in table;
    }
  }

  lemma ReducedIsSliceable(text: Bytes, table: seq<Replacement>)
    requires AllParts(text, table)
    ensures Sliceable(text, Reduced(table))
  {
    forall s | s in Reduced(table) ensures 0 <= s.start <= s.end <= |text| {
      var i :| 0 <= i < |table| && Reduced(table)[i] == s;
      assert table[i] in table && IsPart(text, table[i]);
    }
  }

  /** The entries of a table have the ranges r, and hold their bytes. */
  ghost predicate Entries(text: Bytes, table: seq<Replacement>, rs: seq<Range>) {
    && |table| == |rs|
    && forall i :: 0 <= i < |rs| ==>
         table[i].start == rs[i].start && table[i].end == rs[i].end && IsPart(text, table[i])
  }

  lemma EntriesCons(text: Bytes, e: Replacement, table: seq<Replacement>, rs: seq<Range>)
    requires rs != [] && Entries(text, table, rs[1..])
    requires e.start == rs[0].start && e.end == rs[0].end && IsPart(text, e)
    ensures Entries(text, [e] + table, rs)
  {
    var t := [e] + table;
    forall i | 0 <= i < |rs| ensures t[i].start == rs[i].start && t[i].end == rs[i].end && IsPart(text, t[i]) {
      if i > 0 {
        assert t[i] == table[i - 1] && rs[i] == rs[1..][i - 1];
      }
    }
  }

  lemma {:induction false} MarkerEntries(prefix: Bytes, text: Bytes, merged: seq<Range>, last: int, used: set<nat>,
                                         next: nat)
    requires Ordered(text, merged, last)
    ensures Entries(text, TableFrom(prefix, text, merged, last, used, next), merged)
    decreases |merged|
  {
    hide Entries, NextFree, Marker;
    if merged == [] {
      NoEntries(text);
    } else {
      var n := NextFree(used, next);
      MarkerEntries(prefix, text, merged[1..], merged[0].end, used + {n}, n + 1);
      EntriesCons(text, Entry(text, merged[0], Marker(prefix, n)),
                  TableFrom(prefix, text, merged[1..], merged[0].end, used + {n}, n + 1), merged);
    }
  }

  lemma NoEntries(text: Bytes)
    ensures Entries(text, [], [])
  {
  }

  lemma {:induction false} StarEntries(text: Bytes, merged: seq<Range>, last: int)
    requires Ordered(text, merged, last)
    ensures Entries(text, StarTable(text, merged, last), merged)
    decreases |merged|
  {
    hide Entries;
    if merged == [] {
      NoEntries(text);
    } else {
      StarEntries(text, merged[1..], merged[0].end);
      EntriesCons(text, Entry(text, merged[0], STAR_RUN), StarTable(text, merged[1..], merged[0].end), merged);
    }
  }

  lemma TableEntries(prefix: Bytes, format: Format, text: Bytes, ranges: seq<Range>)
    requires InBounds(ranges, |text|)
    ensures Entries(text, TableFor(prefix, format, text, ranges), Merged(ranges))
  {
    hide Merged, UsedFrom, Entries, TableFrom, StarTable;
    MergedIsOrdered(text, ranges);
    if format.StarsFormat? {
      StarEntries(text, Merged(ranges), 0);
    } else {
      MarkerEntries(prefix, text, Merged(ranges), 0, UsedFrom(prefix, text, 0), 0);
    }
  }

  lemma EntriesAreParts(text: Bytes, table: seq<Replacement>, rs: seq<Range>)
    requires Entries(text, table, rs)
    ensures AllParts(text, table)
  {
  }

  // ---- Failure ----------------------------------------------------------------

  /** Building fails exactly when a recognizer fails or a fragment is out of bounds
      or no valid UTF-8 slice; no text is produced then. */
  lemma BuildFailsClosed(prefix: Bytes, policy: Policy, payload: Bytes, results: seq<Finding>)
    ensures Built(prefix, policy, payload, results) == None <==>
            || None in results
            || exists r, f :: r in results && r.Some? && f in r.value &&
                              !(0 <= f.start <= f.end <= |payload| && Utf8.Valid(payload[f.start..f.end]))
  {
    hide Built, Utf8.Valid;
    BuildFailsOnInvalid(prefix, policy, payload, results);
    assert forall f :: Resolving.ValidFragment(payload, f) <==>
                       0 <= f.start <= f.end <= |payload| && Utf8.Valid(payload[f.start..f.end]);
  }

  lemma BuildFailsOnInvalid(prefix: Bytes, policy: Policy, payload: Bytes, results: seq<Finding>)
    ensures Built(prefix, policy, payload, results) == None <==>
            || None in results
            || exists r, f :: r in results && r.Some? && f in r.value && !Resolving.ValidFragment(payload, f)
  {
    hide Gathered, Resolving.ValidFragment, Assemble, Reduced, TableFor, RangesOf;
    GatheredFragments(results);
    if None !in results {
      var frags := Gathered(results).value;
      ResolvedInBounds(payload, frags, policy.priority);
      if !Resolving.AllValid(payload, frags) {
        var f :| f in frags && !Resolving.ValidFragment(payload, f);
        var r :| r in results && r.Some? && f in r.value;
      }
    }
  }

  /** The fragments, table and ranges behind a content that was built. */
  ghost predicate MadeFrom(prefix: Bytes, c: Content, frags: seq<Fragment>, ranges: seq<Range>) {
    && |ranges| <= |frags| && (ranges == [] <==> frags == []) && InBounds(ranges, |c.original|)
    && (forall b :: Covers(ranges, b) <==> ResolveFacts.Covers(frags, b))
    && (TableFits(prefix, c.format, c.original, ranges);
        var table := TableFor(prefix, c.format, c.original, ranges);
        c.masked == Assemble(c.original, table, 0) && c.table == Reduced(table))
  }

  lemma BuiltFrom(prefix: Bytes, policy: Policy, payload: Bytes, results: seq<Finding>) returns (ranges: seq<Range>)
    requires Built(prefix, policy, payload, results).Some?
    ensures var c := Built(prefix, policy, payload, results).value;
            && c.original == payload && c.format == policy.format && Gathered(results).Some?
            && MadeFrom(prefix, c, Gathered(results).value, ranges)
  {
    hide Gathered, Assemble, Reduced, TableFor, Resolving.ValidFragment, ResolveFacts.Disjoint, ResolveFacts.Within;
    var frags := Gathered(results).value;
    ResolvedInBounds(payload, frags, policy.priority);
    ResolveFacts.ResolveCoversExactly(payload, frags, policy.priority);
    var resolved := Resolving.Resolve(payload, frags, policy.priority).value;
    ranges := RangesOf(resolved);
    ResolvedIsNoLonger(payload, frags, policy.priority);
    TableFits(prefix, policy.format, payload, ranges);
    forall b ensures Covers(ranges, b) <==> ResolveFacts.Covers(frags, b) {
      RangesCover(resolved, b);
    }
  }

  lemma ResolvedIsNoLonger(text: Bytes, frags: seq<Fragment>, p: Resolving.Priority)
    requires Resolving.Resolve(text, frags, p).Some?
    ensures |Resolving.Resolve(text, frags, p).value| <= |frags|
  {
    hide Sorting.Sort, Resolving.Sweep, Resolving.Order, Sorting.StrictTotal;
    Resolving.OrderIsTotal(p);
    Sorting.SortSorts(frags, Resolving.Order(p));
    Sorting.SamePermutation(Sorting.Sort(frags, Resolving.Order(p)), frags);
  }

  lemma RangesCover(frags: seq<Fragment>, b: int)
    ensures Covers(RangesOf(frags), b) <==> ResolveFacts.Covers(frags, b)
  {
    var rs := RangesOf(frags);
    if Covers(rs, b) {
      var r :| r in rs && r.start <= b < r.end;
      var i :| 0 <= i < |rs| && rs[i] == r;
      assert frags[i] in frags;
    }
    if ResolveFacts.Covers(frags, b) {
      var f :| f in frags && f.start <= b < f.end;
      var i :| 0 <= i < |frags| && frags[i] == f;
      assert rs[i] in rs;
    }
  }

  // ---- Restoration from the stored record ----------------------------------------

  /** `Restore` with the table of a stored record. */
  ghost function RestoredText(c: Content, input: Bytes): Bytes
    requires Sliceable(c.original, c.table)
  {
    Substitute(input, ByMarker(Rebuilt(c.original, c.table)))
  }

  /** A Go process can hold the payload and the fragments found in it. */
  ghost predicate FitsInMemory(payload: Bytes, results: seq<Finding>) {
    Gathered(results).Some? ==> |payload| + |Gathered(results).value| <= MAX_INT
  }

  /** Whatever the prefix and the format, no slot of a built table lies outside the
      original: cutting the originals out of it cannot fail. */
  lemma BuiltIsSliceable(prefix: Bytes, policy: Policy, payload: Bytes, results: seq<Finding>)
    requires Built(prefix, policy, payload, results).Some?
    ensures var c := Built(prefix, policy, payload, results).value; Sliceable(c.original, c.table)
  {
    hide Built, Rebuilt, Reduced, Sliceable, Gathered, Covers, ResolveFacts.Covers, Assemble, TableFor, InBounds,
      AllParts, Entries, Merged;
    var ranges := BuiltFrom(prefix, policy, payload, results);
    TableEntries(prefix, policy.format, payload, ranges);
    EntriesAreParts(payload, TableFor(prefix, policy.format, payload, ranges), Merged(ranges));
    ReducedIsSliceable(payload, TableFor(prefix, policy.format, payload, ranges));
  }

  /** In the marker format the stored mask restores exactly to the original, after
      the table has been reduced to offsets and rebuilt; and the mask differs from
      the original exactly when some fragment was found. */
  lemma BuiltMaskRestores(prefix: Bytes, policy: Policy, payload: Bytes, results: seq<Finding>)
    requires SafePrefix(prefix) && policy.format.MarkerFormat? && FitsInMemory(payload, results)
    requires Built(prefix, policy, payload, results).Some?
    ensures var c := Built(prefix, policy, payload, results).value;
            && Sliceable(c.original, c.table)
            && RestoredText(c, c.masked) == payload
            && (c.masked == payload <==> Gathered(results).value == [])
  {
    hide Built, SafePrefix, Substitute, ByMarker, Rebuilt, Reduced, Sliceable, Gathered, Covers, ResolveFacts.Covers,
      Assemble, TableOf, InBounds, AllParts, Entries, Merged;
    var ranges := BuiltFrom(prefix, policy, payload, results);
    var table := TableOf(prefix, payload, ranges);
    TableEntries(prefix, policy.format, payload, ranges);
    EntriesAreParts(payload, table, Merged(ranges));
    RebuiltLookup(payload, table);
    RestoreUndoesMask(prefix, payload, ranges);
    MaskChangesText(prefix, payload, ranges);
  }

  /** In the marker format, whatever text is presented: restoring it changes it if
      and only if it holds one of the stored markers. */
  lemma BuiltRestorationIsDetected(prefix: Bytes, policy: Policy, payload: Bytes, results: seq<Finding>, input: Bytes)
    requires SafePrefix(prefix) && policy.format.MarkerFormat? && FitsInMemory(payload, results)
    requires Built(prefix, policy, payload, results).Some?
    ensures var c := Built(prefix, policy, payload, results).value;
            && Sliceable(c.original, c.table)
            && (RestoredText(c, input) != input <==> exists s :: s in c.table && Occurs(input, s.marker))
  {
    hide Built, SafePrefix, Substitute, ByMarker, Rebuilt, Reduced, Sliceable, Gathered, Covers, ResolveFacts.Covers,
      Assemble, TableOf, InBounds, AllParts, Entries, Merged, Occurs;
    var ranges := BuiltFrom(prefix, policy, payload, results);
    var table := TableOf(prefix, payload, ranges);
    TableEntries(prefix, policy.format, payload, ranges);
    EntriesAreParts(payload, table, Merged(ranges));
    RebuiltLookup(payload, table);
    RestorationIsDetected(prefix, payload, ranges, input);
    SameMarkers(table, input);
  }

  lemma SameMarkers(table: seq<Replacement>, input: Bytes)
    ensures (exists e :: e in table && Occurs(input, e.marker)) <==>
            (exists s :: s in Reduced(table) && Occurs(input, s.marker))
  {
    hide Occurs;
    var slots := Reduced(table);
    if e :| e in table && Occurs(input, e.marker) {
      var i :| 0 <= i < |table| && table[i] == e;
      assert slots[i] in slots && Occurs(input, slots[i].marker);
    }
    if s :| s in slots && Occurs(input, s.marker) {
      var i :| 0 <= i < |slots| && slots[i] == s;
      assert table[i] in table && Occurs(input, table[i].marker);
    }
  }

  // ---- What is kept -----------------------------------------------------------

  /** The bytes of text[i..] that no fragment covers, in order. */
  ghost function Outside(text: Bytes, frags: seq<Fragment>, i: nat): Bytes
    requires i <= |text|
    decreases |text| - i
  {
    if i == |text| then []
    else (if ResolveFacts.Covers(frags, i) then [] else [text[i]]) + Outside(text, frags, i + 1)
  }

  function Flat(parts: seq<Bytes>): Bytes {
    if parts == [] then [] else parts[0] + Flat(parts[1..])
  }

  /** gaps[0] marks[0] gaps[1] marks[1] … gaps[n]. */
  function Interleaved(gaps: seq<Bytes>, marks: seq<Slot>): Bytes
    requires |gaps| == |marks| + 1
  {
    if marks == [] then gaps[0]
    else gaps[0] + marks[0].marker + Interleaved(gaps[1..], marks[1..])
  }

  ghost function Gaps(text: Bytes, table: seq<Replacement>, last: int): (gaps: seq<Bytes>)
    requires Fits(text, table, last)
    ensures |gaps| == |table| + 1
  {
    if table == [] then [text[last..]]
    else [text[last..table[0].start]] + Gaps(text, table[1..], table[0].end)
  }

  lemma {:induction false} AssembleInterleaves(text: Bytes, table: seq<Replacement>, last: int)
    requires Fits(text, table, last)
    ensures Assemble(text, table, last) == Interleaved(Gaps(text, table, last), Reduced(table))
    decreases |table|
  {
    if table != [] {
      AssembleInterleaves(text, table[1..], table[0].end);
      var gaps := Gaps(text, table, last);
      assert gaps[1..] == Gaps(text, table[1..], table[0].end);
      assert Reduced(table)[1..] == Reduced(table[1..]);
    }
  }

  lemma OutsideOne(text: Bytes, frags: seq<Fragment>, a: nat)
    requires a < |text| && !ResolveFacts.Covers(frags, a)
    ensures Outside(text, frags, a) == [text[a]] + Outside(text, frags, a + 1)
  {
    hide ResolveFacts.Covers;
  }

  lemma {:induction false} OutsideUncovered(text: Bytes, frags: seq<Fragment>, a: nat, b: nat)
    requires a <= b <= |text| && forall i :: a <= i < b ==> !ResolveFacts.Covers(frags, i)
    ensures Outside(text, frags, a) == text[a..b] + Outside(text, frags, b)
    decreases b - a
  {
    hide ResolveFacts.Covers, Outside;
    if a == b {
      assert text[a..b] == [];
    } else {
      OutsideUncovered(text, frags, a + 1, b);
      OutsideOne(text, frags, a);
      var rest := Outside(text, frags, b);
      assert text[a..b] == [text[a]] + text[a + 1..b];
      assert [text[a]] + (text[a + 1..b] + rest) == ([text[a]] + text[a + 1..b]) + rest;
    }
  }

  lemma {:induction false} OutsideCovered(text: Bytes, frags: seq<Fragment>, a: nat, b: nat)
    requires a <= b <= |text| && forall i :: a <= i < b ==> ResolveFacts.Covers(frags, i)
    ensures Outside(text, frags, a) == Outside(text, frags, b)
    decreases b - a
  {
    hide ResolveFacts.Covers;
    if a < b {
      OutsideCovered(text, frags, a + 1, b);
    }
  }

  ghost predicate InTable(table: seq<Replacement>, b: int) {
    exists e :: e in table && e.start <= b < e.end
  }

  lemma {:induction false} GapsAreOutside(text: Bytes, frags: seq<Fragment>, table: seq<Replacement>, last: int)
    requires Fits(text, table, last)
    requires forall b :: last <= b < |text| ==> (ResolveFacts.Covers(frags, b) <==> InTable(table, b))
    ensures Flat(Gaps(text, table, last)) == Outside(text, frags, last)
    decreases |table|
  {
    hide ResolveFacts.Covers;
    if table == [] {
      OutsideUncovered(text, frags, last, |text|);
      assert Flat([text[last..]][1..]) == [];
    } else {
      var e, rest := table[0], table[1..];
      StartsInOrder(text, rest, e.end);
      forall b | e.end <= b < |text| ensures ResolveFacts.Covers(frags, b) <==> InTable(rest, b) {
        assert table == [e] + rest;
        assert InTable(table, b) <==> InTable(rest, b);
      }
      GapsAreOutside(text, frags, rest, e.end);
      forall b | last <= b < e.start ensures !ResolveFacts.Covers(frags, b) {
        assert table == [e] + rest;
      }
      OutsideUncovered(text, frags, last, e.start);
      forall b | e.start <= b < e.end ensures ResolveFacts.Covers(frags, b) {
        assert e in table;
      }
      OutsideCovered(text, frags, e.start, e.end);
      var gaps := Gaps(text, table, last);
      assert gaps[1..] == Gaps(text, rest, e.end);
    }
  }

  lemma {:induction false} StartsInOrder(text: Bytes, table: seq<Replacement>, last: int)
    requires Fits(text, table, last)
    ensures 0 <= last <= |text|
    ensures forall e :: e in table ==> last <= e.start <= e.end <= |text|
    decreases |table|
  {
    if table != [] {
      StartsInOrder(text, table[1..], table[0].end);
      assert table == [table[0]] + table[1..];
    }
  }

  /** Every gap is what the text has between the slots on its two sides, or between a
      slot and the end of the text; the first gap starts at `last`. */
  ghost predicate GapsBetween(text: Bytes, slots: seq<Slot>, gaps: seq<Bytes>, last: int) {
    && |gaps| == |slots| + 1
    && forall i :: 0 <= i < |gaps| ==>
         var a := if i == 0 then last else slots[i - 1].end;
         var b := if i == |slots| then |text| else slots[i].start;
         0 <= a <= b <= |text| && gaps[i] == text[a..b]
  }

  lemma {:induction false} GapsLieBetween(text: Bytes, table: seq<Replacement>, last: int)
    requires Fits(text, table, last)
    ensures GapsBetween(text, Reduced(table), Gaps(text, table, last), last)
    decreases |table|
  {
    if table != [] {
      GapsLieBetween(text, table[1..], table[0].end);
      var gaps, slots := Gaps(text, table, last), Reduced(table);
      assert gaps[1..] == Gaps(text, table[1..], table[0].end);
      assert slots[1..] == Reduced(table[1..]);
    }
  }

  /** Exactly the found bytes are replaced, each slot where it lies: the mask is the
      stored markers, in table order, between the gaps that the slots leave in the
      original; and the gaps together are the bytes no fragment covers. */
  ghost predicate ReplacesExactly(c: Content, frags: seq<Fragment>, gaps: seq<Bytes>) {
    && GapsBetween(c.original, c.table, gaps, 0)
    && c.masked == Interleaved(gaps, c.table)
    && Flat(gaps) == Outside(c.original, frags, 0)
  }

  lemma BuildReplacesExactly(prefix: Bytes, policy: Policy, payload: Bytes, results: seq<Finding>)
    returns (gaps: seq<Bytes>)
    requires Built(prefix, policy, payload, results).Some?
    ensures Gathered(results).Some?
    ensures var c, frags := Built(prefix, policy, payload, results).value, Gathered(results).value;
            && ReplacesExactly(c, frags, gaps)
            && (forall b :: (exists s :: s in c.table && s.start <= b < s.end) <==> ResolveFacts.Covers(frags, b))
  {
    hide Built, Gathered, ResolveFacts.Covers, Assemble, TableFor, InBounds, Merged, Fits, Gaps, Interleaved, Flat,
      Outside, Separated, Ranges.Within, GapsBetween;
    var ranges := BuiltFrom(prefix, policy, payload, results);
    var table := TableFor(prefix, policy.format, payload, ranges);
    TableFits(prefix, policy.format, payload, ranges);
    TableEntries(prefix, policy.format, payload, ranges);
    MergedRanges(ranges, |payload|);
    forall b ensures InTable(table, b) <==> Covers(ranges, b) {
      EntriesCover(payload, table, Merged(ranges), b);
    }
    forall b ensures InTable(table, b) <==> exists s :: s in Reduced(table) && s.start <= b < s.end {
      SlotsCover(table, b);
    }
    gaps := Gaps(payload, table, 0);
    AssembleInterleaves(payload, table, 0);
    GapsLieBetween(payload, table, 0);
    GapsAreOutside(payload, Gathered(results).value, table, 0);
  }

  lemma EntriesCover(text: Bytes, table: seq<Replacement>, rs: seq<Range>, b: int)
    requires Entries(text, table, rs)
    ensures InTable(table, b) <==> Covers(rs, b)
  {
    if e :| e in table && e.start <= b < e.end {
      var i :| 0 <= i < |table| && table[i] == e;
      assert rs[i] in rs;
    }
    if r :| r in rs && r.start <= b < r.end {
      var i :| 0 <= i < |rs| && rs[i] == r;
      assert table[i] in table;
    }
  }

  lemma SlotsCover(table: seq<Replacement>, b: int)
    ensures InTable(table, b) <==> exists s :: s in Reduced(table) && s.start <= b < s.end
  {
    var slots := Reduced(table);
    if e :| e in table && e.start <= b < e.end {
      var i :| 0 <= i < |table| && table[i] == e;
      assert slots[i] in slots;
    }
    if s :| s in slots && s.start <= b < s.end {
      var i :| 0 <= i < |slots| && slots[i] == s;
      assert table[i] in table;
    }
  }

  // ---- Policies -------------------------------------------------------------------

  /** The marker has the form "[prefix_n]". */
  ghost predicate HasForm(marker: Bytes, prefix: Bytes) {
    exists n: nat :: marker == [91] + prefix + [95] + Print(n) + [93]
  }

  lemma {:induction false} StarMarkers(text: Bytes, merged: seq<Range>, last: int)
    requires Ordered(text, merged, last)
    ensures forall e :: e in StarTable(text, merged, last) ==> e.marker == [42, 42, 42, 42]
    decreases |merged|
  {
    if merged != [] {
      StarMarkers(text, merged[1..], merged[0].end);
    }
  }

  lemma MarkerHasForm(prefix: Bytes, n: nat)
    ensures HasForm(Marker(prefix, n), prefix)
  {
    hide Print;
    assert Marker(prefix, n) == [91] + prefix + [95] + Print(n) + [93];
  }

  lemma {:induction false} NumberedMarkers(prefix: Bytes, text: Bytes, merged: seq<Range>, last: int, used: set<nat>,
                                           next: nat)
    requires Ordered(text, merged, last)
    ensures forall e :: e in TableFrom(prefix, text, merged, last, used, next) ==> HasForm(e.marker, prefix)
    decreases |merged|
  {
    hide NextFree, Marker, HasForm;
    if merged != [] {
      var n := NextFree(used, next);
      var rest := TableFrom(prefix, text, merged[1..], merged[0].end, used + {n}, n + 1);
      NumberedMarkers(prefix, text, merged[1..], merged[0].end, used + {n}, n + 1);
      MarkerHasForm(prefix, n);
      assert TableFrom(prefix, text, merged, last, used, next) == [Entry(text, merged[0], Marker(prefix, n))] + rest;
    }
  }

  /** A content has the format of its policy, and for each found stretch a marker of the
      form "[prefix_n]", or four asterisks. */
  lemma BuiltFollowsPolicy(prefix: Bytes, policy: Policy, payload: Bytes, results: seq<Finding>)
    requires Built(prefix, policy, payload, results).Some?
    ensures var c := Built(prefix, policy, payload, results).value;
            && c.original == payload && c.format == policy.format
            && forall s :: s in c.table ==>
                 if policy.format.StarsFormat? then s.marker == [42, 42, 42, 42] else HasForm(s.marker, prefix)
  {
    hide Gathered, Assemble, HasForm, Merged, UsedFrom, TableFrom, StarTable;
    var frags := Gathered(results).value;
    ResolvedInBounds(payload, frags, policy.priority);
    var ranges := RangesOf(Resolving.Resolve(payload, frags, policy.priority).value);
    MergedIsOrdered(payload, ranges);
    var table := TableFor(prefix, policy.format, payload, ranges);
    StarMarkers(payload, Merged(ranges), 0);
    NumberedMarkers(prefix, payload, Merged(ranges), 0, UsedFrom(prefix, payload, 0), 0);
    forall s | s in Reduced(table) ensures exists e :: e in table && e.marker == s.marker {
      var i :| 0 <= i < |table| && Reduced(table)[i] == s;
      assert table[i] in table;
    }
  }
}

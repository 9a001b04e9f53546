/** The building of a correspondence: recognizer results are gathered and
    resolved, the text is masked, and the table is reduced to offsets; and the
    way back from the stored record. */
module Pipeline {
  import opened Bytes
  import opened Decimal
  import opened Markers
  import opened Ranges
  import opened Restoring
  import opened Masking
  import opened RoundTrip
  import Sorting
  import Resolving
  import ResolveFacts
  import opened StoreCore

  type Fragment = Resolving.Fragment

  /** What one recognizer returns for a text; None is an error. */
  type Finding = Option<seq<Fragment>>

  /** How a scope masks: the priority of its types and the format. */
  datatype Policy = Policy(priority: Resolving.Priority, format: Format)

  // ---- Recognition ------------------------------------------------------------

  function Gathered(results: seq<Finding>): Finding {
    if results == [] then Some([])
    else
      match Gathered(results[..|results| - 1])
      case None => None
      case Some(frags) =>
        match results[|results| - 1]
        case None => None
        case Some(fs) => Some(frags + fs)
  }

  /** Gathering stops at the first recognizer that fails. */
  method Gather(results: seq<Finding>) returns (r: Finding)
    ensures r == Gathered(results)
  {
    var frags: seq<Fragment> := [];
    for i := 0 to |results|
      invariant Gathered(results[..i]) == Some(frags)
    {
      assert results[..i + 1][..i] == results[..i];
      if results[i].None? {
        FailurePersists(results, i + 1);
        return None;
      }
      frags := frags + results[i].value;
    }
    assert results[..|results|] == results;
    r := Some(frags);
  }

  lemma {:induction false} FailurePersists(results: seq<Finding>, i: nat)
    requires i <= |results| && Gathered(results[..i]) == None
    ensures Gathered(results) == None
    decreases |results|
  {
    if i == |results| {
      assert results[..i] == results;
    } else {
      var before := results[..|results| - 1];
      assert before[..i] == results[..i];
      FailurePersists(before, i);
    }
  }

  /** Gathering succeeds when no recognizer fails, and loses no fragment. */
  lemma {:induction false} GatheredFragments(results: seq<Finding>)
    ensures Gathered(results).Some? <==> None !in results
    ensures Gathered(results).Some? ==>
              forall f :: f in Gathered(results).value <==> exists r :: r in results && r.Some? && f in r.value
  {
    if results != [] {
      var before, last := results[..|results| - 1], results[|results| - 1];
      GatheredFragments(before);
      assert results == before + [last];
      if Gathered(results).Some? {
        forall f ensures f in Gathered(results).value <==> exists r :: r in results && r.Some? && f in r.value {
          if r :| r in results && r.Some? && f in r.value {
            assert r in before || r == last;
          }
        }
      }
    }
  }

  // ---- Conversions ------------------------------------------------------------

  function RangesOf(frags: seq<Fragment>): (rs: seq<Range>)
    ensures |rs| == |frags|
    ensures forall i :: 0 <= i < |rs| ==> rs[i] == Range(frags[i].start, frags[i].end)
  {
    if frags == [] then []
    else
      var f := frags[|frags| - 1];
      RangesOf(frags[..|frags| - 1]) + [Range(f.start, f.end)]
  }

  method ToRanges(frags: seq<Fragment>) returns (ranges: seq<Range>)
    ensures ranges == RangesOf(frags)
  {
    ranges := [];
    for i := 0 to |frags|
      invariant ranges == RangesOf(frags[..i])
    {
      assert frags[..i + 1][..i] == frags[..i];
      ranges := ranges + [Range(frags[i].start, frags[i].end)];
    }
    assert frags[..|frags|] == frags;
  }

  /** The table without its originals. */
  function Reduced(table: seq<Replacement>): (slots: seq<Slot>)
    ensures |slots| == |table|
    ensures forall i :: 0 <= i < |table| ==> slots[i] == Slot(table[i].marker, table[i].start, table[i].end)
  {
    if table == [] then []
    else
      var r := table[|table| - 1];
      Reduced(table[..|table| - 1]) + [Slot(r.marker, r.start, r.end)]
  }

  method ToStoreTable(table: seq<Replacement>) returns (slots: seq<Slot>)
    ensures slots == Reduced(table)
  {
    slots := [];
    for i := 0 to |table|
      invariant slots == Reduced(table[..i])
    {
      assert table[..i + 1][..i] == table[..i];
      slots := slots + [Slot(table[i].marker, table[i].start, table[i].end)];
    }
    assert table[..|table|] == table;
  }

  /** The offsets of every slot lie in the original. */
  predicate Sliceable(original: Bytes, slots: seq<Slot>) {
    forall s :: s in slots ==> 0 <= s.start <= s.end <= |original|
  }

  /** The table with its originals cut out of the stored original again; offsets
      are not carried over. */
  function Rebuilt(original: Bytes, slots: seq<Slot>): (table: seq<Replacement>)
    requires Sliceable(original, slots)
    ensures |table| == |slots|
    ensures forall i :: 0 <= i < |slots| ==>
              table[i] == Replacement(slots[i].marker, original[slots[i].start..slots[i].end], 0, 0)
  {
    if slots == [] then []
    else
      var s := slots[|slots| - 1];
      Rebuilt(original, slots[..|slots| - 1]) + [Replacement(s.marker, original[s.start..s.end], 0, 0)]
  }

  method FromStoreTable(original: Bytes, slots: seq<Slot>) returns (table: seq<Replacement>)
    requires Sliceable(original, slots)
    ensures table == Rebuilt(original, slots)
  {
    table := [];
    for i := 0 to |slots|
      invariant table == Rebuilt(original, slots[..i])
    {
      assert slots[..i + 1][..i] == slots[..i];
      var s := slots[i];
      assert s in slots;
      table := table + [Replacement(s.marker, original[s.start..s.end], 0, 0)];
    }
    assert slots[..|slots|] == slots;
  }

  // ---- Building ---------------------------------------------------------------

  ghost function TableFor(prefix: Bytes, format: Format, text: Bytes, ranges: seq<Range>): seq<Replacement>
    requires InBounds(ranges, |text|)
  {
    if format.StarsFormat? then StarTableOf(text, ranges) else TableOf(prefix, text, ranges)
  }

  /** What `build` returns in `Process` and `Mask`; None is an error. */
  ghost function Built(prefix: Bytes, policy: Policy, payload: Bytes, results: seq<Finding>): Option<Content> {
    match Gathered(results)
    case None => None
    case Some(frags) =>
      match Resolving.Resolve(payload, frags, policy.priority)
      case None => None
      case Some(resolved) =>
        ResolvedInBounds(payload, frags, policy.priority);
        var table := TableFor(prefix, policy.format, payload, RangesOf(resolved));
        TableFits(prefix, policy.format, payload, RangesOf(resolved));
        Some(Content(payload, Assemble(payload, table, 0), Reduced(table), policy.format))
  }

  lemma ResolvedInBounds(text: Bytes, frags: seq<Fragment>, p: Resolving.Priority)
    ensures var r := Resolving.Resolve(text, frags, p); r.Some? ==> InBounds(RangesOf(r.value), |text|)
  {
    hide Resolving.Resolve, ResolveFacts.Disjoint, ResolveFacts.Covers, ResolveFacts.Within;
    ResolveFacts.ResolveCoversExactly(text, frags, p);
    var r := Resolving.Resolve(text, frags, p);
    if r.Some? {
      forall q | q in RangesOf(r.value) ensures 0 <= q.start <= q.end <= |text| {
        var i :| 0 <= i < |r.value| && RangesOf(r.value)[i] == q;
        assert r.value[i] in r.value && Resolving.ValidFragment(text, r.value[i]);
      }
    }
  }

  lemma TableFits(prefix: Bytes, format: Format, text: Bytes, ranges: seq<Range>)
    requires InBounds(ranges, |text|)
    ensures Fits(text, TableFor(prefix, format, text, ranges), 0)
  {
  }

  method Build(prefix: Bytes, policy: Policy, payload: Bytes, results: seq<Finding>) returns (r: Option<Content>)
    ensures r == Built(prefix, policy, payload, results)
  {
    hide Resolving.Resolve, Gathered, StarTableOf, TableOf, Assemble;
    var gathered := Gather(results);
    if gathered.None? {
      return None;
    }
    var resolved := Resolving.ResolveWithPriority(payload, gathered.value, policy.priority);
    if resolved.None? {
      return None;
    }
    ResolvedInBounds(payload, gathered.value, policy.priority);
    var ranges := ToRanges(resolved.value);
    var masked, table;
    if policy.format.StarsFormat? {
      masked, table := Stars(payload, ranges);
    } else {
      masked, table := Mask(prefix, payload, ranges);
    }
    var slots := ToStoreTable(table);
    r := Some(Content(payload, masked, slots, policy.format));
  }
}

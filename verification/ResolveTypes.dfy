/** Which type a resolved fragment has, said of the fragments alone: of those that
    reach further than all before them, the one of highest priority. */
module ResolveTypes {
  import opened Bytes
  import opened Sorting
  import opened Resolving
  import opened ResolveFacts

  // ---- The fragment that counts -------------------------------------------------

  /** f reaches further than every fragment that starts before it, and no fragment that
      starts with it reaches further. */
  ghost predicate Outreaches(f: Fragment, rs: seq<Fragment>) {
    f in rs && forall g :: g in rs ==> (g.start < f.start ==> g.end < f.end) && (g.start == f.start ==> g.end <= f.end)
  }

  ghost predicate Inside(f: Fragment, o: Fragment) {
    o.start <= f.start && f.end <= o.end
  }

  /** f counts no less than g: a higher priority, then an earlier start, then a smaller
      type name. */
  ghost predicate Outranks(p: Priority, f: Fragment, g: Fragment) {
    || p(f.typ) > p(g.typ)
    || (p(f.typ) == p(g.typ) && (f.start < g.start || (f.start == g.start && !StringLess(g.typ, f.typ))))
  }

  /** o has the type of f, which outranks everything that outreaches inside o. */
  ghost predicate TakesFrom(p: Priority, o: Fragment, rs: seq<Fragment>, f: Fragment) {
    && Outreaches(f, rs) && Inside(f, o) && f.typ == o.typ
    && forall g :: Outreaches(g, rs) && Inside(g, o) ==> Outranks(p, f, g)
  }

  ghost predicate Chosen(p: Priority, o: Fragment, rs: seq<Fragment>) {
    exists f :: TakesFrom(p, o, rs, f)
  }

  /** Some fragment inside o reaches its end. */
  ghost predicate Attained(o: Fragment, rs: seq<Fragment>) {
    exists g :: g in rs && o.start <= g.start && g.end == o.end
  }

  ghost predicate AllChosen(p: Priority, rs: seq<Fragment>, out: seq<Fragment>) {
    forall o :: o in out ==> Attained(o, rs) && (o.start < o.end ==> Chosen(p, o, rs))
  }

  // ---- One round ------------------------------------------------------------------

  /** f comes after rs in the order, and rs reaches no further than the last fragment. */
  ghost predicate Round(p: Priority, rs: seq<Fragment>, out: seq<Fragment>, f: Fragment) {
    && Proper(rs) && f.start <= f.end && Disjoint(out) && Follows(p, f, rs)
    && (out == [] <==> rs == [])
    && (forall g :: g in rs ==> Within(g, out))
    && (out != [] ==> out[|out| - 1].start <= f.start)
    && (out != [] && out[|out| - 1].start == f.start ==> f.end <= out[|out| - 1].end)
  }

  lemma Reach(p: Priority, rs: seq<Fragment>, out: seq<Fragment>, f: Fragment, g: Fragment)
    requires Round(p, rs, out, f) && g in rs
    ensures out != [] && g.end <= out[|out| - 1].end
    ensures g.start <= f.start && (g.start == f.start ==> f.end <= g.end)
  {
    hide StringLess, EmptiesKept;
    assert Within(g, out);
    var o :| o in out && o.start <= g.start && g.end <= o.end;
    var i :| 0 <= i < |out| && out[i] == o;
    assert i < |out| - 1 ==> out[i].end <= out[|out| - 1].start;
    assert !Precedes(p, f, g);
  }

  /** What outreached before still does, and nothing else but perhaps f. */
  lemma OutreachesStill(p: Priority, rs: seq<Fragment>, out: seq<Fragment>, f: Fragment, g: Fragment)
    requires Round(p, rs, out, f) && g in rs
    ensures Outreaches(g, rs) <==> Outreaches(g, rs + [f])
  {
    hide Round;
    forall h | h in rs + [f]
      ensures h in rs || h == f
    {
    }
    Reach(p, rs, out, f, g);
    assert forall h :: h in rs ==> h in rs + [f];
  }

  /** f does not outreach inside a fragment whose end was attained before, unless it
      repeats a range. */
  lemma OutreachesInside(p: Priority, rs: seq<Fragment>, out: seq<Fragment>, f: Fragment, o: Fragment)
    returns (g: Fragment)
    requires Round(p, rs, out, f) && o in out && o.start < o.end && Attained(o, rs)
    requires Outreaches(f, rs + [f]) && Inside(f, o)
    ensures g in rs && g.start == f.start && g.end == f.end && Outreaches(g, rs) && Inside(g, o)
    ensures p(g.typ) > p(f.typ) || (p(g.typ) == p(f.typ) && !StringLess(f.typ, g.typ))
  {
    hide Within, Disjoint;
    g :| g in rs && o.start <= g.start && g.end == o.end;
    Reach(p, rs, out, f, g);
    assert g in rs + [f];
    assert !Precedes(p, f, g);
    hide Round;
    forall h | h in rs ensures (h.start < g.start ==> h.end < g.end) && (h.start == g.start ==> h.end <= g.end) {
      assert h in rs + [f];
    }
  }

  /** A resolved fragment that this round leaves alone. */
  lemma ChosenStill(p: Priority, rs: seq<Fragment>, out: seq<Fragment>, f: Fragment, o: Fragment)
    requires Round(p, rs, out, f) && o in out && o.start < o.end && Attained(o, rs) && Chosen(p, o, rs)
    ensures Chosen(p, o, rs + [f])
  {
    hide Round, StringLess, Outreaches;
    var c :| TakesFrom(p, o, rs, c);
    assert c in rs by { InRs(c, rs); }
    OutreachesStill(p, rs, out, f, c);
    forall g | Outreaches(g, rs + [f]) && Inside(g, o) ensures Outranks(p, c, g) {
      InRs(g, rs + [f]);
      if g in rs {
        OutreachesStill(p, rs, out, f, g);
      } else {
        var h := OutreachesInside(p, rs, out, f, o);
        OutranksThrough(p, c, h, g);
      }
    }
    assert TakesFrom(p, o, rs + [f], c);
  }

  lemma InRs(f: Fragment, rs: seq<Fragment>)
    requires Outreaches(f, rs)
    ensures f in rs
  {
  }

  lemma OutranksThrough(p: Priority, c: Fragment, h: Fragment, g: Fragment)
    requires Outranks(p, c, h) && h.start == g.start
    requires p(h.typ) > p(g.typ) || (p(h.typ) == p(g.typ) && !StringLess(g.typ, h.typ))
    ensures Outranks(p, c, g)
  {
    hide StringLess;
    if p(c.typ) == p(h.typ) == p(g.typ) && c.start == g.start && StringLess(g.typ, c.typ) {
      if h.typ != g.typ {
        StringLessConnected(h.typ, g.typ);
        StringLessTransitive(h.typ, g.typ, c.typ);
      }
    }
  }

  /** A fragment that begins a new resolved one. */
  lemma ChosenFresh(p: Priority, rs: seq<Fragment>, out: seq<Fragment>, f: Fragment)
    requires Round(p, rs, out, f) && f.start < f.end && (out != [] ==> out[|out| - 1].end <= f.start)
    ensures Chosen(p, f, rs + [f])
  {
    hide StringLess, Within, Disjoint;
    forall g | g in rs ensures g.end <= f.start && g.start < f.start {
      Reach(p, rs, out, f, g);
    }
    StringLessIrreflexive(f.typ);
    hide Round;
    assert TakesFrom(p, f, rs + [f], f);
  }

  /** The last fragment extended over f. */
  lemma ChosenExtended(p: Priority, rs: seq<Fragment>, out: seq<Fragment>, f: Fragment)
    requires Round(p, rs, out, f) && out != []
    requires var last := out[|out| - 1]; last.start < f.start < last.end < f.end && Chosen(p, last, rs)
    ensures var last := out[|out| - 1];
            Chosen(p, last.(typ := if p(f.typ) > p(last.typ) then f.typ else last.typ, end := f.end), rs + [f])
  {
    hide StringLess, Within, Disjoint;
    var last := out[|out| - 1];
    var o := last.(typ := if p(f.typ) > p(last.typ) then f.typ else last.typ, end := f.end);
    forall g | g in rs ensures g.end <= last.end && g.start < f.start {
      Reach(p, rs, out, f, g);
      Reach(p, rs, out, f, g);
    }
    hide Round;
    var c :| TakesFrom(p, last, rs, c);
    OutreachesStill(p, rs, out, f, c);
    assert Outreaches(f, rs + [f]);
    StringLessIrreflexive(f.typ);
    var best := if p(f.typ) > p(last.typ) then f else c;
    forall g | Outreaches(g, rs + [f]) && Inside(g, o) ensures Outranks(p, best, g) {
      if g in rs {
        OutreachesStill(p, rs, out, f, g);
      }
    }
    assert TakesFrom(p, o, rs + [f], best);
  }

  lemma AttainedStill(o: Fragment, rs: seq<Fragment>, f: Fragment)
    requires Attained(o, rs)
    ensures Attained(o, rs + [f])
  {
    var g :| g in rs && o.start <= g.start && g.end == o.end;
    assert g in rs + [f];
  }

  lemma AddChosen(p: Priority, rs: seq<Fragment>, out: seq<Fragment>, f: Fragment)
    requires Round(p, rs, out, f) && AllChosen(p, rs, out)
    ensures AllChosen(p, rs + [f], Add(p, out, f))
  {
    hide Round, Chosen, Attained;
    if out != [] {
      RoundStarts(p, rs, out, f);
    }
    forall o | o in Add(p, out, f) ensures Attained(o, rs + [f]) && (o.start < o.end ==> Chosen(p, o, rs + [f])) {
      if o in out {
        AttainedStill(o, rs, f);
        if o.start < o.end {
          ChosenStill(p, rs, out, f, o);
        }
      } else {
        FAttains(o, rs, f);
        if out == [] || f.start >= out[|out| - 1].end {
          if f.start < f.end {
            ChosenFresh(p, rs, out, f);
          }
        } else {
          assert out[|out| - 1] in out;
          ChosenExtended(p, rs, out, f);
        }
      }
    }
  }

  lemma RoundStarts(p: Priority, rs: seq<Fragment>, out: seq<Fragment>, f: Fragment)
    requires Round(p, rs, out, f) && out != []
    ensures out[|out| - 1].start <= f.start && (out[|out| - 1].start == f.start ==> f.end <= out[|out| - 1].end)
  {
  }

  lemma FAttains(o: Fragment, rs: seq<Fragment>, f: Fragment)
    requires o.start <= f.start && o.end == f.end
    ensures Attained(o, rs + [f])
  {
    assert f in rs + [f];
  }

  // ---- Every round ------------------------------------------------------------------

  lemma SweptDisjoint(p: Priority, rs: seq<Fragment>, out: seq<Fragment>)
    requires Swept(p, rs, out)
    ensures Disjoint(out) && (rs != [] ==> out != [])
  {
    hide Disjoint, SortedBy, EmptiesKept, HeadedBy;
  }

  lemma LastRound(p: Priority, rs: seq<Fragment>)
    requires SortedBy(rs, Order(p)) && Proper(rs) && rs != []
    ensures Round(p, rs[..|rs| - 1], Sweep(p, rs[..|rs| - 1]), rs[|rs| - 1])
    ensures SortedBy(rs[..|rs| - 1], Order(p)) && Proper(rs[..|rs| - 1])
    ensures Sweep(p, rs) == Add(p, Sweep(p, rs[..|rs| - 1]), rs[|rs| - 1])
    ensures rs == rs[..|rs| - 1] + [rs[|rs| - 1]]
  {
    hide SortedBy, StringLess, Precedes, Within, Sweep, Add, Follows, Swept, Disjoint, Order;
    var before, f := rs[..|rs| - 1], rs[|rs| - 1];
    LastFollows(p, rs);
    RoundShape(p, rs);
    assert f in rs;
    SweepSwept(p, before);
    SweptDisjoint(p, before, Sweep(p, before));
    if before != [] {
      SameStartNeverLonger(p, before, Sweep(p, before), f);
    }
    forall g | g in before ensures Within(g, Sweep(p, before)) {
      SweepContains(p, before, g);
    }
  }

  lemma {:induction false} SweepChosen(p: Priority, rs: seq<Fragment>)
    requires SortedBy(rs, Order(p)) && Proper(rs)
    ensures AllChosen(p, rs, Sweep(p, rs))
    decreases |rs|
  {
    if rs != [] {
      hide SortedBy, Proper, Round, Add, AllChosen, Sweep;
      LastRound(p, rs);
      SweepChosen(p, rs[..|rs| - 1]);
      AddChosen(p, rs[..|rs| - 1], Sweep(p, rs[..|rs| - 1]), rs[|rs| - 1]);
    }
  }

  lemma SameElements(p: Priority, o: Fragment, rs: seq<Fragment>, frags: seq<Fragment>)
    requires Chosen(p, o, rs) && forall f :: f in rs <==> f in frags
    ensures Chosen(p, o, frags)
  {
    hide StringLess, Outranks;
    var f :| TakesFrom(p, o, rs, f);
    assert forall g :: Outreaches(g, rs) <==> Outreaches(g, frags);
    assert TakesFrom(p, o, frags, f);
  }

  // ---- Main results -----------------------------------------------------------------

  /** The exact type of every resolved fragment: an empty one is a fragment of the
      input; any other one has the type of the fragment that, of all inside it that
      outreach what starts before them, has the highest priority, then the earliest
      start, then the smallest type name. */
  lemma ResolvedTypesAreExact(text: Bytes, frags: seq<Fragment>, p: Priority)
    requires AllValid(text, frags)
    ensures forall o :: o in Resolve(text, frags, p).value ==>
              if o.start == o.end then o in frags else o.start < o.end && Chosen(p, o, frags)
  {
    hide Sort, Sweep, ValidFragment, Order, StrictTotal, Chosen, SortedBy, HeadedBy;
    OrderIsTotal(p);
    SortSorts(frags, Order(p));
    var rs := Sort(frags, Order(p));
    SamePermutation(rs, frags);
    ProperIfValid(text, rs);
    SweepSwept(p, rs);
    SweepChosen(p, rs);
    var out := Sweep(p, rs);
    forall o | o in out ensures if o.start == o.end then o in frags else o.start < o.end && Chosen(p, o, frags) {
      var i :| 0 <= i < |out| && out[i] == o;
      if o.start < o.end {
        SameElements(p, o, rs, frags);
      }
    }
  }

  /** The longest fragments at the start of a resolved one have no higher priority than
      it; and if fragments have its very range, it has the type of the first of these by
      priority and name. */
  lemma ResolvedTypeIsHighest(text: Bytes, frags: seq<Fragment>, p: Priority, o: Fragment, f: Fragment)
    requires AllValid(text, frags) && o in Resolve(text, frags, p).value && o.start < o.end
    requires f in frags && f.start == o.start && forall g :: g in frags && g.start == o.start ==> g.end <= f.end
    ensures p(f.typ) <= p(o.typ)
    ensures f.end == o.end ==>
              && (exists g :: g in frags && g == o)
              && (p(f.typ) == p(o.typ) ==> !StringLess(f.typ, o.typ))
  {
    hide Resolve, StringLess, AllValid, Disjoint;
    ResolvedTypesAreExact(text, frags, p);
    StartOutreaches(text, frags, p, o, f);
    var c :| TakesFrom(p, o, frags, c);
    if f.end == o.end {
      assert c.start == f.start;
    }
  }

  lemma StartOutreaches(text: Bytes, frags: seq<Fragment>, p: Priority, o: Fragment, f: Fragment)
    requires AllValid(text, frags) && o in Resolve(text, frags, p).value && o.start < o.end
    requires f in frags && f.start == o.start && forall g :: g in frags && g.start == o.start ==> g.end <= f.end
    ensures Outreaches(f, frags) && Inside(f, o)
  {
    hide Resolve, AllValid;
    ResolveCoversExactly(text, frags, p);
    var out := Resolve(text, frags, p).value;
    assert Covers(out, o.start);
    var g :| g in frags && g.start <= o.start < g.end;
    InOnly(out, o, g);
    assert g.start == o.start && f.end >= g.end;
    InOnly(out, o, f);
    forall h | h in frags && h.start < f.start ensures h.end < f.end {
      if h.end > o.start {
        InOnly(out, o, h);
      }
    }
  }

  /** A fragment that holds the first byte of a resolved one lies in it. */
  lemma InOnly(out: seq<Fragment>, o: Fragment, f: Fragment)
    requires Disjoint(out) && o in out && o.start < o.end && Within(f, out) && f.start <= o.start < f.end
    ensures Inside(f, o)
  {
    var h :| h in out && h.start <= f.start && f.end <= h.end;
    var i :| 0 <= i < |out| && out[i] == o;
    var j :| 0 <= j < |out| && out[j] == h;
  }

  /** Empty fragments are not merged, whatever their types: where two of them stand, the
      one of lower priority stays as well. */
  lemma EmptiesAreNotMerged(text: Bytes, p: Priority, a: Type, b: Type)
    requires p(a) > p(b)
    ensures Resolve(text, [Fragment(b, 0, 0), Fragment(a, 0, 0)], p) ==
            Some([Fragment(a, 0, 0), Fragment(b, 0, 0)])
  {
    hide Sort, Sweep, StringLess;
    var frags, out := [Fragment(b, 0, 0), Fragment(a, 0, 0)], [Fragment(a, 0, 0), Fragment(b, 0, 0)];
    assert text[0..0] == [];
    OrderIsTotal(p);
    SortSorts(frags, Order(p));
    assert multiset(out) == multiset(frags);
    StringLessIrreflexive(a);
    StringLessIrreflexive(b);
    SortedIsUnique(Sort(frags, Order(p)), out, Order(p));
    SweepKeepsDisjoint(p, out);
  }

  ghost predicate DiffersFirstAt(a: Bytes, b: Bytes, k: int) {
    0 <= k < |a| && k < |b| && a[..k] == b[..k] && a[k] < b[k]
  }

  /** Strings that begin alike differ first where their tails do. */
  lemma TailsDiffer(a: Bytes, b: Bytes, k: int)
    requires a != [] && b != [] && a[0] == b[0]
    ensures DiffersFirstAt(a, b, k + 1) && k >= 0 <==> DiffersFirstAt(a[1..], b[1..], k)
    ensures !DiffersFirstAt(a, b, 0)
  {
    if 0 <= k < |a| - 1 && k < |b| - 1 {
      assert a[..k + 1] == [a[0]] + a[1..][..k] && b[..k + 1] == [b[0]] + b[1..][..k];
      assert a[1..][..k] == a[..k + 1][1..] && b[1..][..k] == b[..k + 1][1..];
    }
  }

  lemma PrefixByTails(a: Bytes, b: Bytes)
    requires a != [] && b != [] && a[0] == b[0]
    ensures |a| < |b| && b[..|a|] == a <==> |a[1..]| < |b[1..]| && b[1..][..|a[1..]|] == a[1..]
  {
    if |a| < |b| {
      assert b[..|a|] == [b[0]] + b[1..][..|a| - 1] && a == [a[0]] + a[1..];
      assert b[..|a|][1..] == b[1..][..|a| - 1];
    }
  }

  /** The order of type names is that of Go strings: a proper prefix comes first, and
      otherwise the first difference decides. */
  lemma {:induction false} NamesAreOrdered(a: Bytes, b: Bytes)
    ensures StringLess(a, b) <==> (|a| < |b| && b[..|a|] == a) || exists k :: DiffersFirstAt(a, b, k)
    decreases |a|
  {
    if a != [] && b != [] && a[0] == b[0] {
      hide DiffersFirstAt;
      NamesAreOrdered(a[1..], b[1..]);
      PrefixByTails(a, b);
      if k :| DiffersFirstAt(a[1..], b[1..], k) {
        TailsDiffer(a, b, k);
      }
      if k :| DiffersFirstAt(a, b, k) {
        TailsDiffer(a, b, k - 1);
      }
    } else {
      OrderedAtHead(a, b);
    }
  }

  lemma OrderedAtHead(a: Bytes, b: Bytes)
    requires a == [] || b == [] || a[0] != b[0]
    ensures StringLess(a, b) <==> (|a| < |b| && b[..|a|] == a) || exists k :: DiffersFirstAt(a, b, k)
  {
    if a != [] && b != [] {
      assert a[0] < b[0] ==> DiffersFirstAt(a, b, 0);
    }
  }

  // ---- Which ranges there are -------------------------------------------------------

  ghost predicate GoesAcross(rs: seq<Fragment>, b: int) {
    exists g :: g in rs && g.start < b < g.end
  }

  /** No place inside o where nothing goes across. */
  ghost predicate Connected(o: Fragment, rs: seq<Fragment>) {
    forall b :: o.start < b < o.end ==> GoesAcross(rs, b)
  }

  lemma ConnectedStill(o: Fragment, rs: seq<Fragment>, f: Fragment)
    requires Connected(o, rs)
    ensures Connected(o, rs + [f])
  {
    forall b | o.start < b < o.end ensures GoesAcross(rs + [f], b) {
      assert GoesAcross(rs, b);
      var g :| g in rs && g.start < b < g.end;
      assert g in rs + [f];
    }
  }

  lemma ConnectedExtended(last: Fragment, rs: seq<Fragment>, f: Fragment, o: Fragment)
    requires Connected(last, rs) && o.start == last.start && o.end == f.end && f.start < last.end
    ensures Connected(o, rs + [f])
  {
    forall b | o.start < b < o.end ensures GoesAcross(rs + [f], b) {
      if b < last.end {
        assert GoesAcross(rs, b);
        var g :| g in rs && g.start < b < g.end;
        assert g in rs + [f];
      } else {
        assert f in rs + [f];
      }
    }
  }

  lemma ConnectedItself(rs: seq<Fragment>, f: Fragment)
    ensures Connected(f, rs + [f])
  {
    forall b | f.start < b < f.end ensures GoesAcross(rs + [f], b) {
      assert f in rs + [f];
    }
  }

  lemma AddConnected(p: Priority, rs: seq<Fragment>, out: seq<Fragment>, f: Fragment)
    requires forall o :: o in out ==> Connected(o, rs)
    ensures forall o :: o in Add(p, out, f) ==> Connected(o, rs + [f])
  {
    hide Connected;
    forall o | o in Add(p, out, f) ensures Connected(o, rs + [f]) {
      if o in out {
        ConnectedStill(o, rs, f);
      } else if o == f {
        ConnectedItself(rs, f);
      } else {
        assert out[|out| - 1] in out;
        ConnectedExtended(out[|out| - 1], rs, f, o);
      }
    }
  }

  lemma {:induction false} SweepConnected(p: Priority, rs: seq<Fragment>)
    ensures forall o :: o in Sweep(p, rs) ==> Connected(o, rs)
    decreases |rs|
  {
    hide Connected, Add;
    if rs != [] {
      SweepConnected(p, rs[..|rs| - 1]);
      AddConnected(p, rs[..|rs| - 1], Sweep(p, rs[..|rs| - 1]), rs[|rs| - 1]);
      assert rs == rs[..|rs| - 1] + [rs[|rs| - 1]];
    }
  }

  /** Resolution joins no more than it must: fragments that only touch stay apart. */
  lemma ResolvedAreConnected(text: Bytes, frags: seq<Fragment>, p: Priority)
    requires AllValid(text, frags)
    ensures forall o :: o in Resolve(text, frags, p).value ==> Connected(o, frags)
  {
    hide Sort, Sweep, ValidFragment, Order, StrictTotal, Connected;
    OrderIsTotal(p);
    SortSorts(frags, Order(p));
    var rs := Sort(frags, Order(p));
    SamePermutation(rs, frags);
    SweepConnected(p, rs);
    forall o | o in Sweep(p, rs) ensures Connected(o, frags) {
      SameConnected(o, rs, frags);
    }
  }

  lemma SameConnected(o: Fragment, rs: seq<Fragment>, frags: seq<Fragment>)
    requires Connected(o, rs) && forall f :: f in rs <==> f in frags
    ensures Connected(o, frags)
  {
    forall b | o.start < b < o.end ensures GoesAcross(frags, b) {
      assert GoesAcross(rs, b);
    }
  }

  // ---- Empty fragments ----------------------------------------------------------------

  lemma AddEmpties(text: Bytes, p: Priority, rs: seq<Fragment>, out: seq<Fragment>, f: Fragment, e: Fragment)
    requires Round(p, rs, out, f) && Sound(text, out, rs) && e.start == e.end
    requires multiset(out)[e] == if Covers(rs, e.start) then 0 else multiset(rs)[e]
    ensures multiset(Add(p, out, f))[e] == if Covers(rs + [f], e.start) then 0 else multiset(rs + [f])[e]
  {
    hide Sound, Within, Follows, Disjoint;
    CoversOneMore(rs, f, e.start);
    assert forall g :: g in rs ==> g.start <= f.start && (g.start == f.start ==> f.end <= g.end) by {
      forall g | g in rs ensures g.start <= f.start && (g.start == f.start ==> f.end <= g.end) {
        Reach(p, rs, out, f, g);
      }
    }
    if f == e {
      if out != [] && f.start < out[|out| - 1].end {
        LastCoversStill(text, out, rs, f.start);
      } else {
        forall g | g in rs ensures g.end <= f.start {
          Reach(p, rs, out, f, g);
        }
      }
    } else {
      EmptiesElsewhere(p, out, f, e);
    }
  }

  lemma CoversOneMore(rs: seq<Fragment>, f: Fragment, x: int)
    ensures Covers(rs + [f], x) <==> Covers(rs, x) || f.start <= x < f.end
  {
    if f.start <= x < f.end {
      assert f in rs + [f];
    }
    if g :| g in rs && g.start <= x < g.end {
      assert g in rs + [f];
    }
  }

  lemma LastCoversStill(text: Bytes, out: seq<Fragment>, rs: seq<Fragment>, x: int)
    requires Sound(text, out, rs) && out != [] && out[|out| - 1].start <= x < out[|out| - 1].end
    ensures Covers(rs, x)
  {
    hide AllValid;
    assert out[|out| - 1] in out;
    assert Covers(out, x);
  }

  /** A round leaves the count of every other empty fragment alone. */
  lemma EmptiesElsewhere(p: Priority, out: seq<Fragment>, f: Fragment, e: Fragment)
    requires e.start == e.end && f != e && f.start <= f.end && (out != [] ==> out[|out| - 1].start <= f.start)
    ensures multiset(Add(p, out, f))[e] == multiset(out)[e]
  {
    if out != [] {
      var k := |out| - 1;
      assert out == out[..k] + [out[k]];
      var out' := Add(p, out, f);
      if |out'| == |out| {
        assert out' == out[..k] + [out'[k]];
      }
    }
  }

  lemma {:induction false} SweepEmpties(text: Bytes, p: Priority, rs: seq<Fragment>, e: Fragment)
    requires SortedBy(rs, Order(p)) && AllValid(text, rs) && e.start == e.end
    ensures multiset(Sweep(p, rs))[e] == if Covers(rs, e.start) then 0 else multiset(rs)[e]
    decreases |rs|
  {
    hide SortedBy, Proper, Round, Add, Sound, Sweep, Covers, ValidFragment, Order;
    if rs != [] {
      var before, f := rs[..|rs| - 1], rs[|rs| - 1];
      ProperIfValid(text, rs);
      LastRound(p, rs);
      assert forall g :: g in before ==> g in rs;
      SweepSound(text, p, before);
      SweepEmpties(text, p, before, e);
      AddEmpties(text, p, before, Sweep(p, before), f, e);
    } else {
      SweepNothing(p);
    }
  }

  /** An empty fragment stays as often as it is given, unless it stands in a range that
      goes beyond it; then it is dropped. */
  lemma EmptiesAreExact(text: Bytes, frags: seq<Fragment>, p: Priority, e: Fragment)
    requires AllValid(text, frags) && e.start == e.end
    ensures multiset(Resolve(text, frags, p).value)[e] == if Covers(frags, e.start) then 0 else multiset(frags)[e]
  {
    hide Sort, Sweep, ValidFragment, Order, StrictTotal;
    OrderIsTotal(p);
    SortSorts(frags, Order(p));
    var rs := Sort(frags, Order(p));
    SamePermutation(rs, frags);
    SweepEmpties(text, p, rs, e);
  }
}

/** What resolution guarantees: the covered bytes are exactly those of the
    fragments, in ordered disjoint valid slices, whatever order they came in. */
module ResolveFacts {
  import opened Bytes
  import opened Sorting
  import opened Utf8
  import opened Resolving

  // ---- Invariants of the sweep ------------------------------------------------

  /** Ordered and disjoint. */
  ghost predicate Disjoint(out: seq<Fragment>) {
    && (forall i :: 0 <= i < |out| ==> out[i].start <= out[i].end)
    && (forall i, j :: 0 <= i < j < |out| ==> out[i].end <= out[j].start)
  }

  /** Every empty fragment of the result is one of the input, unchanged. */
  ghost predicate EmptiesKept(out: seq<Fragment>, rs: seq<Fragment>) {
    forall i :: 0 <= i < |out| && out[i].start == out[i].end ==> out[i] in rs
  }

  /** f starts where a fragment of rs started that reached no further. */
  ghost predicate HeadedBy(f: Fragment, rs: seq<Fragment>) {
    exists r :: r in rs && r.start == f.start && r.end <= f.end
  }

  /** f lies inside one fragment of out. */
  ghost predicate Within(f: Fragment, out: seq<Fragment>) {
    exists o :: o in out && o.start <= f.start && f.end <= o.end
  }

  ghost predicate Covers(frags: seq<Fragment>, b: int) {
    exists f :: f in frags && f.start <= b < f.end
  }

  /** The state of the sweep over the sorted fragments rs. */
  ghost predicate Swept(p: Priority, rs: seq<Fragment>, out: seq<Fragment>) {
    && SortedBy(out, Order(p)) && Disjoint(out) && EmptiesKept(out, rs)
    && (rs != [] ==> out != [] && out[|out| - 1].start <= rs[|rs| - 1].start && HeadedBy(out[|out| - 1], rs))
  }

  /** All earlier fragments come before f in the order. */
  ghost predicate Follows(p: Priority, f: Fragment, rs: seq<Fragment>) {
    forall r :: r in rs ==> !Precedes(p, f, r)
  }

  /** The same-start branch of the sweep can never fire: a fragment that starts
      where the last one does reaches no further. */
  lemma SameStartNeverLonger(p: Priority, rs: seq<Fragment>, out: seq<Fragment>, f: Fragment)
    requires Swept(p, rs, out) && rs != [] && Follows(p, f, rs)
    ensures f.start == out[|out| - 1].start ==> f.end <= out[|out| - 1].end
  {
    hide SortedBy, Disjoint, EmptiesKept, StringLess;
    var last := out[|out| - 1];
    var r :| r in rs && r.start == last.start && r.end <= last.end;
  }

  /** Appending a fragment that starts after everything so far. */
  lemma AppendSwept(p: Priority, rs: seq<Fragment>, out: seq<Fragment>, f: Fragment)
    requires Swept(p, rs, out) && Follows(p, f, rs) && f.start <= f.end
    requires out != [] ==> out[|out| - 1].end <= f.start
    ensures Swept(p, rs + [f], out + [f])
  {
    hide StringLess, Precedes;
    var out' := out + [f];
    forall i | 0 <= i < |out| ensures !Precedes(p, f, out[i]) {
      AfterDisjoint(p, rs, out, f, i);
    }
    assert f in rs + [f];
    assert HeadedBy(f, rs + [f]);
    forall i | 0 <= i < |out'| && out'[i].start == out'[i].end ensures out'[i] in rs + [f] {
      assert i < |out| ==> out[i] in rs;
    }
    forall i, j | 0 <= i < j < |out'| ensures out'[i].end <= out'[j].start {
      assert i < |out| - 1 ==> out[i].end <= out[|out| - 1].start <= out[|out| - 1].end;
    }
  }

  lemma AfterDisjoint(p: Priority, rs: seq<Fragment>, out: seq<Fragment>, f: Fragment, i: nat)
    requires Disjoint(out) && EmptiesKept(out, rs) && Follows(p, f, rs) && f.start <= f.end && i < |out|
    requires out[|out| - 1].end <= f.start
    ensures !Precedes(p, f, out[i])
  {
    hide StringLess;
    assert out[i].end <= f.start;
    if out[i].start == f.start {
      assert out[i] in rs;
    }
  }

  /** Extending the last fragment over a partial overlap. */
  lemma ExtendSwept(p: Priority, rs: seq<Fragment>, out: seq<Fragment>, f: Fragment, typ: Type)
    requires Swept(p, rs, out) && rs != [] && rs[|rs| - 1].start <= f.start
    requires out[|out| - 1].start < f.start < out[|out| - 1].end < f.end
    ensures var k := |out| - 1; Swept(p, rs + [f], out[k := out[k].(typ := typ, end := f.end)])
  {
    hide StringLess;
    var k := |out| - 1;
    var last := out[k].(typ := typ, end := f.end);
    var out' := out[k := last];
    forall i | 0 <= i < k ensures !Precedes(p, last, out[i]) {
      assert !Order(p)(out[k], out[i]);
      assert out[i].end <= out[k].start;
    }
    assert SortedBy(out', Order(p));
    var r :| r in rs && r.start == out[k].start && r.end <= out[k].end;
    assert r in rs + [f];
    assert HeadedBy(last, rs + [f]);
  }

  lemma KeepSwept(p: Priority, rs: seq<Fragment>, out: seq<Fragment>, f: Fragment)
    requires Swept(p, rs, out) && rs != [] && rs[|rs| - 1].start <= f.start
    ensures Swept(p, rs + [f], out)
  {
    hide StringLess, SortedBy, Disjoint, Precedes;
    var r :| r in rs && r.start == out[|out| - 1].start && r.end <= out[|out| - 1].end;
    assert r in rs + [f];
    forall i | 0 <= i < |out| && out[i].start == out[i].end ensures out[i] in rs + [f] {
      assert out[i] in rs;
    }
  }

  lemma AddSwept(p: Priority, rs: seq<Fragment>, out: seq<Fragment>, f: Fragment)
    requires Swept(p, rs, out) && Follows(p, f, rs) && f.start <= f.end && (rs == [] ==> out == [])
    ensures Swept(p, rs + [f], Add(p, out, f))
  {
    hide Swept, Follows, StringLess, HeadedBy, Precedes;
    if rs == [] {
      AppendSwept(p, rs, out, f);
      assert out + [f] == [f];
    } else {
      LastStart(p, rs, out, f);
      SameStartNeverLonger(p, rs, out, f);
      var last := out[|out| - 1];
      if f.start >= last.end {
        AppendSwept(p, rs, out, f);
      } else if f.end <= last.end {
        KeepSwept(p, rs, out, f);
      } else {
        ExtendSwept(p, rs, out, f, if p(f.typ) > p(last.typ) then f.typ else last.typ);
      }
    }
  }

  lemma LastStart(p: Priority, rs: seq<Fragment>, out: seq<Fragment>, f: Fragment)
    requires Swept(p, rs, out) && rs != [] && Follows(p, f, rs)
    ensures out != [] && out[|out| - 1].start <= rs[|rs| - 1].start <= f.start
  {
    assert rs[|rs| - 1] in rs;
  }

  /** Sorted input, seen from its last element. */
  lemma LastFollows(p: Priority, rs: seq<Fragment>)
    requires SortedBy(rs, Order(p)) && rs != []
    ensures SortedBy(rs[..|rs| - 1], Order(p)) && Follows(p, rs[|rs| - 1], rs[..|rs| - 1])
    ensures rs == rs[..|rs| - 1] + [rs[|rs| - 1]]
  {
    hide StringLess, Precedes;
    var before, f := rs[..|rs| - 1], rs[|rs| - 1];
    forall r | r in before ensures !Precedes(p, f, r) {
      var i :| 0 <= i < |rs| - 1 && rs[i] == r;
      assert !Order(p)(rs[|rs| - 1], rs[i]);
    }
  }

  ghost predicate Proper(frags: seq<Fragment>) {
    forall f :: f in frags ==> f.start <= f.end
  }

  lemma {:induction false} SweepSwept(p: Priority, rs: seq<Fragment>)
    requires SortedBy(rs, Order(p)) && Proper(rs)
    ensures Swept(p, rs, Sweep(p, rs))
  {
    if rs == [] {
    } else {
      hide Swept, Follows, SortedBy, Add;
      LastFollows(p, rs);
      assert rs[|rs| - 1] in rs;
      SweepSwept(p, rs[..|rs| - 1]);
      AddSwept(p, rs[..|rs| - 1], Sweep(p, rs[..|rs| - 1]), rs[|rs| - 1]);
    }
  }

  // ---- Coverage ---------------------------------------------------------------

  /** One round, with what is known about it: the last fragment only grows, and
      reaches over f. */
  lemma RoundOf(p: Priority, rs: seq<Fragment>)
    requires SortedBy(rs, Order(p)) && Proper(rs) && rs != []
    ensures var before, f := rs[..|rs| - 1], rs[|rs| - 1];
            var out, out' := Sweep(p, before), Sweep(p, rs);
            && SortedBy(before, Order(p)) && Proper(before) && f in rs
            && (out == [] <==> before == []) && out' == Add(p, out, f) && |out| <= |out'|
            && (forall i :: 0 <= i < |out| ==> out'[i].start == out[i].start && out[i].end <= out'[i].end)
            && Within(f, out')
            && (out != [] ==> out[|out| - 1].start <= f.start)
  {
    hide Swept, Follows, SortedBy, Add, StringLess, Precedes;
    var before, f := rs[..|rs| - 1], rs[|rs| - 1];
    LastFollows(p, rs);
    SweepSwept(p, before);
    var out, out' := Sweep(p, before), Sweep(p, rs);
    if before != [] {
      LastStart(p, before, out, f);
    }
    AddReaches(p, out, f);
  }

  lemma RoundShape(p: Priority, rs: seq<Fragment>)
    requires SortedBy(rs, Order(p)) && Proper(rs) && rs != []
    ensures var before, f := rs[..|rs| - 1], rs[|rs| - 1];
            && SortedBy(before, Order(p)) && f in rs && Sweep(p, rs) == Add(p, Sweep(p, before), f)
            && (Sweep(p, before) != [] ==> Sweep(p, before)[|Sweep(p, before)| - 1].start <= f.start)
  {
    hide SortedBy, Sweep, Add, Within, Order;
    RoundOf(p, rs);
  }

  lemma AddReaches(p: Priority, out: seq<Fragment>, f: Fragment)
    requires out != [] ==> out[|out| - 1].start <= f.start
    ensures var out' := Add(p, out, f);
            && |out| <= |out'|
            && (forall i :: 0 <= i < |out| ==> out'[i].start == out[i].start && out[i].end <= out'[i].end)
            && Within(f, out')
  {
    var out' := Add(p, out, f);
    var last := out'[|out'| - 1];
    assert last in out' && last.start <= f.start && f.end <= last.end;
  }

  /** Every fragment lies inside one resolved fragment. */
  lemma {:induction false} SweepContains(p: Priority, rs: seq<Fragment>, f: Fragment)
    requires SortedBy(rs, Order(p)) && Proper(rs) && f in rs
    ensures Within(f, Sweep(p, rs))
    decreases |rs|
  {
    hide SortedBy, Sweep, Add;
    RoundOf(p, rs);
    if f in rs[..|rs| - 1] {
      SweepContains(p, rs[..|rs| - 1], f);
      var out, out' := Sweep(p, rs[..|rs| - 1]), Sweep(p, rs);
      var i :| 0 <= i < |out| && out[i].start <= f.start && f.end <= out[i].end;
      assert out'[i] in out';
    }
  }

  /** Resolved fragments are valid slices that cover no byte but those covered. */
  ghost predicate Sound(text: Bytes, out: seq<Fragment>, rs: seq<Fragment>) {
    && AllValid(text, out)
    && (forall b :: Covers(out, b) ==> Covers(rs, b))
  }

  lemma AddSound(text: Bytes, p: Priority, out: seq<Fragment>, rs: seq<Fragment>, f: Fragment)
    requires Sound(text, out, rs) && ValidFragment(text, f)
    requires out != [] ==> out[|out| - 1].start <= f.start
    ensures Sound(text, Add(p, out, f), rs + [f])
  {
    hide Valid;
    var out' := Add(p, out, f);
    forall o | o in out' ensures ValidFragment(text, o) {
      if o !in out && o != f {
        var last := out[|out| - 1];
        assert last in out && ValidFragment(text, last);
        assert o.start == last.start && o.end == f.end;
        ValidUnion(text, last.start, last.end, f.start, f.end);
      }
    }
    forall b | Covers(out', b) ensures Covers(rs + [f], b) {
      AddCoversOnly(p, out, rs, f, b);
    }
  }

  lemma AddCoversOnly(p: Priority, out: seq<Fragment>, rs: seq<Fragment>, f: Fragment, b: int)
    requires forall c :: Covers(out, c) ==> Covers(rs, c)
    requires Covers(Add(p, out, f), b) && (out != [] ==> out[|out| - 1].start <= f.start)
    ensures Covers(rs + [f], b)
  {
    var o :| o in Add(p, out, f) && o.start <= b < o.end;
    if f.start <= b < f.end {
      assert f in rs + [f];
    } else {
      assert Covers(out, b) by {
        if o !in out {
          assert out[|out| - 1] in out;
        }
      }
      var r :| r in rs && r.start <= b < r.end;
      assert r in rs + [f];
    }
  }

  lemma {:induction false} SweepSound(text: Bytes, p: Priority, rs: seq<Fragment>)
    requires SortedBy(rs, Order(p)) && AllValid(text, rs)
    ensures Sound(text, Sweep(p, rs), rs)
    decreases |rs|
  {
    if rs == [] {
    } else {
      hide SortedBy, Sweep, Add, Sound, Within, ValidFragment, Order;
      assert Proper(rs) by { ProperIfValid(text, rs); }
      RoundShape(p, rs);
      var before := rs[..|rs| - 1];
      assert forall f :: f in before ==> f in rs;
      SweepSound(text, p, before);
      AddSound(text, p, Sweep(p, before), before, rs[|rs| - 1]);
      assert rs == before + [rs[|rs| - 1]];
    }
  }

  // ---- Main results -----------------------------------------------------------

  /** Resolution fails exactly on an invalid fragment; otherwise its result is
      ordered and disjoint, made of valid slices, contains every fragment in one
      of its own, and covers exactly the bytes the fragments cover. */
  lemma ResolveCoversExactly(text: Bytes, frags: seq<Fragment>, p: Priority)
    ensures Resolve(text, frags, p).Some? <==>
            forall f :: f in frags ==> 0 <= f.start <= f.end <= |text| && Valid(text[f.start..f.end])
    ensures Resolve(text, frags, p).Some? <==> AllValid(text, frags)
    ensures Resolve(text, frags, p).Some? ==>
              var out := Resolve(text, frags, p).value;
              && Disjoint(out) && AllValid(text, out)
              && (forall o :: o in out ==> 0 <= o.start <= o.end <= |text| && Valid(text[o.start..o.end]))
              && (forall b :: Covers(out, b) <==> Covers(frags, b))
              && (forall f :: f in frags ==> Within(f, out))
              && (out == [] <==> frags == [])
  {
    hide Sort, Sweep, Valid, Order, StrictTotal;
    if AllValid(text, frags) {
      OrderIsTotal(p);
      SortSorts(frags, Order(p));
      var rs := Sort(frags, Order(p));
      SamePermutation(rs, frags);
      SweepSound(text, p, rs);
      SweepSwept(p, rs);
      var out := Sweep(p, rs);
      forall f | f in frags ensures Within(f, out) {
        SweepContains(p, rs, f);
      }
      forall b ensures Covers(out, b) <==> Covers(frags, b) {
        if Covers(frags, b) {
          var f :| f in frags && f.start <= b < f.end;
          assert Within(f, out);
        }
      }
    }
  }

  /** The result does not depend on the order in which the fragments arrive. */
  lemma ResolveIgnoresOrder(text: Bytes, f1: seq<Fragment>, f2: seq<Fragment>, p: Priority)
    requires multiset(f1) == multiset(f2)
    ensures Resolve(text, f1, p) == Resolve(text, f2, p)
  {
    hide Sort, Sweep, ValidFragment, Order, StrictTotal;
    SamePermutation(f1, f2);
    OrderIsTotal(p);
    SortSorts(f1, Order(p));
    SortSorts(f2, Order(p));
    SortedIsUnique(Sort(f1, Order(p)), Sort(f2, Order(p)), Order(p));
  }

  /** Fragments that are ordered and disjoint pass through the sweep. */
  lemma {:induction false} SweepKeepsDisjoint(p: Priority, out: seq<Fragment>)
    requires Disjoint(out)
    ensures Sweep(p, out) == out
    decreases |out|
  {
    hide Add;
    if out != [] {
      var before, f := out[..|out| - 1], out[|out| - 1];
      assert before != [] ==> before[|before| - 1].end <= f.start;
      SweepKeepsDisjoint(p, before);
      AddAfter(p, before, f);
      assert out == before + [f];
    }
  }

  lemma AddAfter(p: Priority, out: seq<Fragment>, f: Fragment)
    requires out != [] ==> out[|out| - 1].end <= f.start
    ensures Add(p, out, f) == out + [f]
  {
  }

  /** Resolving a resolved result changes nothing. */
  lemma ResolveIsIdempotent(text: Bytes, frags: seq<Fragment>, p: Priority)
    requires AllValid(text, frags)
    ensures Resolve(text, Resolve(text, frags, p).value, p) == Resolve(text, frags, p)
  {
    hide Sort, Sweep, ValidFragment, Order, StrictTotal, Disjoint;
    ResolveCoversExactly(text, frags, p);
    OrderIsTotal(p);
    SortSorts(frags, Order(p));
    var rs := Sort(frags, Order(p));
    SamePermutation(rs, frags);
    ProperIfValid(text, rs);
    SweepSwept(p, rs);
    var out := Sweep(p, rs);
    SortSorts(out, Order(p));
    SortedIsUnique(Sort(out, Order(p)), out, Order(p));
    SweepKeepsDisjoint(p, out);
  }

  lemma ProperIfValid(text: Bytes, rs: seq<Fragment>)
    requires AllValid(text, rs)
    ensures Proper(rs)
  {
    hide Valid;
  }
}

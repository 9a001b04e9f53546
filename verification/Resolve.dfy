/** `recognizer.ResolveWithPriority`: validate, sort, and sweep in place. */
module Resolving {
  import opened Bytes
  import opened Sorting
  import opened Utf8

  type Type = Bytes

  datatype Fragment = Fragment(typ: Type, start: int, end: int)

  type Priority = Type -> int

  // ---- The order --------------------------------------------------------------

  /** `<` on Go strings. */
  predicate StringLess(a: Bytes, b: Bytes) {
    if b == [] then false
    else if a == [] then true
    else a[0] < b[0] || (a[0] == b[0] && StringLess(a[1..], b[1..]))
  }

  lemma {:induction false} StringLessIrreflexive(a: Bytes)
    ensures !StringLess(a, a)
  {
    if a != [] {
      StringLessIrreflexive(a[1..]);
    }
  }

  lemma {:induction false} StringLessTransitive(a: Bytes, b: Bytes, c: Bytes)
    requires StringLess(a, b) && StringLess(b, c)
    ensures StringLess(a, c)
  {
    if a != [] && a[0] == b[0] == c[0] {
      StringLessTransitive(a[1..], b[1..], c[1..]);
    }
  }

  lemma {:induction false} StringLessConnected(a: Bytes, b: Bytes)
    requires a != b
    ensures StringLess(a, b) || StringLess(b, a)
  {
    if a != [] && b != [] && a[0] == b[0] {
      assert a == [a[0]] + a[1..] && b == [b[0]] + b[1..];
      StringLessConnected(a[1..], b[1..]);
    }
  }

  /** The comparison of the sort: earlier start, then longer, then higher
      priority, then smaller type name. */
  predicate Precedes(p: Priority, a: Fragment, b: Fragment) {
    if a.start != b.start then a.start < b.start
    else if a.end != b.end then a.end > b.end
    else if p(a.typ) != p(b.typ) then p(a.typ) > p(b.typ)
    else StringLess(a.typ, b.typ)
  }

  function Order(p: Priority): (Fragment, Fragment) -> bool {
    (a, b) => Precedes(p, a, b)
  }

  lemma OrderIsTotal(p: Priority)
    ensures StrictTotal(Order(p))
  {
    hide StringLess;
    forall a: Fragment ensures !Order(p)(a, a) {
      StringLessIrreflexive(a.typ);
    }
    forall a: Fragment, b: Fragment, c: Fragment | Order(p)(a, b) && Order(p)(b, c) ensures Order(p)(a, c) {
      if StringLess(a.typ, b.typ) && StringLess(b.typ, c.typ) {
        StringLessTransitive(a.typ, b.typ, c.typ);
      }
    }
    forall a: Fragment, b: Fragment | a != b ensures Order(p)(a, b) || Order(p)(b, a) {
      if a.typ != b.typ {
        StringLessConnected(a.typ, b.typ);
      }
    }
  }

  // ---- The sweep --------------------------------------------------------------

  /** One round of the sweep, with the branches of the source. */
  function Add(p: Priority, out: seq<Fragment>, f: Fragment): seq<Fragment> {
    if out == [] then [f]
    else
      var k := |out| - 1;
      var last := out[k];
      if f.start >= last.end then out + [f]
      else if f.end <= last.end then out
      else if f.start == last.start then out[k := last.(typ := f.typ, end := f.end)]
      else out[k := last.(typ := if p(f.typ) > p(last.typ) then f.typ else last.typ, end := f.end)]
  }

  function Sweep(p: Priority, rs: seq<Fragment>): (out: seq<Fragment>)
    ensures |out| <= |rs| && (rs != [] ==> out != [])
  {
    if rs == [] then [] else Add(p, Sweep(p, rs[..|rs| - 1]), rs[|rs| - 1])
  }

  predicate ValidFragment(text: Bytes, f: Fragment) {
    0 <= f.start <= f.end <= |text| && Valid(text[f.start..f.end])
  }

  ghost predicate AllValid(text: Bytes, frags: seq<Fragment>) {
    forall f :: f in frags ==> ValidFragment(text, f)
  }

  /** None stands for `ErrProtection`. */
  ghost function Resolve(text: Bytes, frags: seq<Fragment>, p: Priority): Option<seq<Fragment>> {
    if AllValid(text, frags) then Some(Sweep(p, Sort(frags, Order(p)))) else None
  }

  method ResolveWithPriority(text: Bytes, frags: seq<Fragment>, priority: Priority) returns (r: Option<seq<Fragment>>)
    ensures r == Resolve(text, frags, priority)
  {
    hide Valid, Sort;
    var rs: seq<Fragment> := [];
    for i := 0 to |frags|
      invariant rs == frags[..i]
      invariant forall j :: 0 <= j < i ==> ValidFragment(text, frags[j])
    {
      var f := frags[i];
      if !(0 <= f.start <= f.end <= |text|) || !Valid(text[f.start..f.end]) {
        assert f in frags;
        return None;
      }
      rs := rs + [f];
    }
    assert rs == frags;
    var out := SweepInPlace(priority, Sort(rs, Order(priority)));
    r := Some(out);
  }

  lemma SweepOneMore(p: Priority, rs: seq<Fragment>, i: nat)
    requires i < |rs|
    ensures Sweep(p, rs[..i + 1]) == Add(p, Sweep(p, rs[..i]), rs[i])
  {
    hide Add;
    assert rs[..i + 1][..i] == rs[..i];
  }

  lemma SweepNothing(p: Priority)
    ensures Sweep(p, []) == []
  {
  }

  /** The sorted fragments and the result share one array: the sweep writes only
      where it has already read. */
  method SweepInPlace(priority: Priority, sorted: seq<Fragment>) returns (out: seq<Fragment>)
    ensures out == Sweep(priority, sorted)
  {
    hide Sweep;
    var rs := new Fragment[|sorted|](i requires 0 <= i < |sorted| => sorted[i]);
    var k := 0;
    SweepNothing(priority);
    for i := 0 to rs.Length
      invariant 0 <= k <= i
      invariant rs[..k] == Sweep(priority, sorted[..i])
      invariant rs[i..] == sorted[i..]
    {
      var f := rs[i];
      assert f == rs[i..][0] == sorted[i];
      SweepOneMore(priority, sorted, i);
      assert rs[i + 1..] == rs[i..][1..] == sorted[i + 1..];
      ghost var was := rs[..k];
      if k == 0 {
        rs[0] := f;
        k := 1;
        assert rs[..k] == [f];
        continue;
      }
      var last := rs[k - 1];
      assert last == was[k - 1];
      if f.start >= last.end {
        rs[k] := f;
        k := k + 1;
        assert rs[..k] == was + [f];
        continue;
      }
      if f.end <= last.end {
        continue;
      }
      if f.start == last.start {
        rs[k - 1] := last.(typ := f.typ, end := f.end);
        assert rs[..k] == was[k - 1 := last.(typ := f.typ, end := f.end)];
        continue;
      }
      var typ := if priority(f.typ) > priority(last.typ) then f.typ else last.typ;
      rs[k - 1] := last.(typ := typ, end := f.end);
      assert rs[..k] == was[k - 1 := last.(typ := typ, end := f.end)];
    }
    assert sorted[..rs.Length] == sorted;
    out := rs[..k];
  }
}

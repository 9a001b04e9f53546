/** `masker.Restore`: one left-to-right pass that parses a marker up to its
    closing bracket, looks it up, and never re-scans an inserted original. */
module Restoring {
  import opened Bytes

  type Lookup = map<Bytes, Bytes>

  datatype Replacement = Replacement(marker: Bytes, original: Bytes, start: int, end: int)

  /** `byMarker`: the first entry of a marker wins. */
  function ByMarker(table: seq<Replacement>): Lookup {
    if table == [] then map[]
    else
      var m := ByMarker(table[..|table| - 1]);
      var r := table[|table| - 1];
      if r.marker in m then m else m[r.marker := r.original]
  }

  /** The marker the parser sees at the head of s, or the empty string. */
  function HeadMarker(s: Bytes): (mk: Bytes)
    ensures |mk| <= |s| && mk == s[..|mk|]
  {
    if s != [] && s[0] == LBRACKET then
      var j := IndexByte(s, RBRACKET);
      if j >= 0 then s[..j + 1] else []
    else []
  }

  /** What one step of the pass writes at the head of s, and how far it moves. */
  function Step(s: Bytes, lookup: Lookup): (r: (Bytes, nat))
    requires s != []
    ensures 0 < r.1 <= |s|
  {
    var mk := HeadMarker(s);
    if mk != [] && mk in lookup then (lookup[mk], |mk|) else ([s[0]], 1)
  }

  /** What the pass writes for the rest s of the input. */
  function Substitute(s: Bytes, lookup: Lookup): Bytes
    decreases |s|
  {
    if s == [] then []
    else
      var (piece, n) := Step(s, lookup);
      piece + Substitute(s[n..], lookup)
  }

  /** One step at offset i, after `done` has been written. */
  lemma SubstituteAt(done: Bytes, s: Bytes, i: nat, piece: Bytes, n: nat, lookup: Lookup)
    requires i < |s| && i + n <= |s| && Step(s[i..], lookup) == (piece, n)
    ensures done + Substitute(s[i..], lookup) == (done + piece) + Substitute(s[i + n..], lookup)
  {
    assert s[i..][n..] == s[i + n..];
  }

  /** No earlier entry has this marker. */
  ghost predicate IsFirst(table: seq<Replacement>, i: int) {
    0 <= i < |table| && forall j :: 0 <= j < i ==> table[j].marker != table[i].marker
  }

  /** The lookup knows the markers of the table, and for each the original of its first
      entry. */
  ghost predicate FirstCounts(table: seq<Replacement>, lookup: Lookup) {
    && (forall m :: m in lookup <==> exists e :: e in table && e.marker == m)
    && (forall i :: IsFirst(table, i) ==> table[i].marker in lookup && lookup[table[i].marker] == table[i].original)
  }

  lemma {:induction false} ByMarkerKeys(table: seq<Replacement>, m: Bytes)
    ensures m in ByMarker(table) <==> exists e :: e in table && e.marker == m
    decreases |table|
  {
    if table != [] {
      var n := |table| - 1;
      ByMarkerKeys(table[..n], m);
      assert table == table[..n] + [table[n]];
    }
  }

  lemma {:induction false} ByMarkerFirst(table: seq<Replacement>, i: int)
    requires IsFirst(table, i)
    ensures table[i].marker in ByMarker(table) && ByMarker(table)[table[i].marker] == table[i].original
    decreases |table|
  {
    var n := |table| - 1;
    if i < n {
      ByMarkerFirst(table[..n], i);
    } else {
      ByMarkerKeys(table[..n], table[n].marker);
      assert table[n].marker !in ByMarker(table[..n]);
    }
  }

  lemma FirstEntryCounts(table: seq<Replacement>)
    ensures FirstCounts(table, ByMarker(table))
  {
    hide ByMarker;
    forall m ensures m in ByMarker(table) <==> exists e :: e in table && e.marker == m {
      ByMarkerKeys(table, m);
    }
    forall i | IsFirst(table, i)
      ensures table[i].marker in ByMarker(table) && ByMarker(table)[table[i].marker] == table[i].original
    {
      ByMarkerFirst(table, i);
    }
  }

  method BuildLookup(table: seq<Replacement>) returns (byMarker: Lookup)
    ensures byMarker == ByMarker(table) && FirstCounts(table, byMarker)
  {
    byMarker := map[];
    for k := 0 to |table|
      invariant byMarker == ByMarker(table[..k])
    {
      assert table[..k + 1][..k] == table[..k];
      if table[k].marker !in byMarker {
        byMarker := byMarker[table[k].marker := table[k].original];
      }
    }
    assert table[..|table|] == table;
    FirstEntryCounts(table);
  }

  method Restore(masked: Bytes, table: seq<Replacement>) returns (text: Bytes)
    ensures text == Substitute(masked, ByMarker(table))
  {
    if |table| == 0 {
      SubstituteNothing(masked, ByMarker(table));
      return masked;
    }
    var byMarker := BuildLookup(table);
    text := Pass(masked, byMarker);
  }

  method Pass(masked: Bytes, byMarker: Lookup) returns (text: Bytes)
    ensures text == Substitute(masked, byMarker)
  {
    hide Substitute, IndexByte;
    text := [];
    var i := 0;
    assert masked[0..] == masked;
    ghost var goal := Substitute(masked, byMarker);
    while i < |masked|
      invariant 0 <= i <= |masked|
      invariant text + Substitute(masked[i..], byMarker) == goal
      decreases |masked| - i
    {
      var rest := masked[i..];
      var piece, n := [masked[i]], 1;
      if masked[i] == LBRACKET {
        var j := IndexByte(rest, RBRACKET);
        if j >= 0 {
          var mk := rest[..j + 1];
          if mk in byMarker {
            piece, n := byMarker[mk], |mk|;
          }
        }
      }
      SubstituteAt(text, masked, i, piece, n, byMarker);
      text := text + piece;
      i := i + n;
    }
    SubstituteEnd(masked[i..], byMarker);
  }

  lemma SubstituteEnd(s: Bytes, lookup: Lookup)
    requires s == []
    ensures Substitute(s, lookup) == []
  {
  }

  // ---- What the pass means --------------------------------------------------

  /** A marker is bracketed, with no closing bracket before its end. */
  ghost predicate Bracketed(mk: Bytes) {
    && |mk| >= 2
    && mk[0] == LBRACKET
    && mk[|mk| - 1] == RBRACKET
    && RBRACKET !in mk[..|mk| - 1]
  }

  ghost predicate IsSuffix(p: Bytes, s: Bytes) {
    |p| <= |s| && s[|s| - |p|..] == p
  }

  /** Every key is a bracketed marker and none is a proper suffix of another. */
  ghost predicate MarkerLookup(lookup: Lookup) {
    && (forall mk :: mk in lookup ==> Bracketed(mk))
    && (forall p, s :: p in lookup && s in lookup && IsSuffix(p, s) ==> p == s)
  }

  /** Some marker of the lookup occurs in s. */
  ghost predicate HasMarker(s: Bytes, lookup: Lookup) {
    exists mk :: mk in lookup && Occurs(s, mk)
  }

  lemma SubstituteNothing(s: Bytes, lookup: Lookup)
    requires lookup == map[]
    ensures Substitute(s, lookup) == s
  {
    if s != [] {
      SubstituteNothing(s[1..], lookup);
    }
  }

  /** A bracketed marker at the head is what the parser sees. */
  lemma HeadMarkerIs(mk: Bytes, b: Bytes)
    requires Bracketed(mk)
    ensures HeadMarker(mk + b) == mk
  {
    var s := mk + b;
    assert s[..|mk| - 1] == mk[..|mk| - 1];
    IndexByteIs(s, RBRACKET, |mk| - 1);
    assert s[..|mk|] == mk;
  }

  /** What the parser sees at the head of a + m + b, with a not empty: the same
      as in a alone, or else nothing the lookup knows. */
  lemma HeadBeforeMarker(a: Bytes, m: Bytes, b: Bytes, lookup: Lookup)
    requires MarkerLookup(lookup) && m in lookup && a != []
    ensures HeadMarker(a + m + b) in lookup ==> HeadMarker(a + m + b) == HeadMarker(a)
    ensures HeadMarker(a) in lookup ==> HeadMarker(a + m + b) == HeadMarker(a)
  {
    var s := a + m + b;
    if a[0] == LBRACKET {
      var j := IndexByte(a, RBRACKET);
      if j >= 0 {
        assert s[..j] == a[..j];
        IndexByteIs(s, RBRACKET, j);
        assert s[..j + 1] == a[..j + 1];
      } else {
        var e := |a| + |m| - 1;
        assert s[..e] == a + m[..|m| - 1];
        IndexByteIs(s, RBRACKET, e);
        var mk := HeadMarker(s);
        assert mk == s[..e + 1] == a + m;
        assert IsSuffix(m, mk);
        assert mk !in lookup;
        assert HeadMarker(a) == [];
        assert [] !in lookup by { assert !Bracketed([]); }
      }
    }
  }

  /** Substitution is simultaneous: wherever a marker of the table occurs, it is
      replaced by its original, independently of the text on either side. */
  lemma {:induction false} SubstitutesEveryOccurrence(a: Bytes, m: Bytes, b: Bytes, lookup: Lookup)
    requires MarkerLookup(lookup) && m in lookup
    ensures Substitute(a + m + b, lookup) == Substitute(a, lookup) + lookup[m] + Substitute(b, lookup)
    decreases |a|
  {
    hide HeadMarker, Step;
    var s := a + m + b;
    assert Bracketed(m);
    if a == [] {
      assert s == m + b;
      StepAtMarker(m, b, lookup);
      assert s[|m|..] == b;
    } else {
      var (piece, n) := Step(a, lookup);
      StepBeforeMarker(a, m, b, lookup);
      CutHead(a, m, b, n);
      SubstitutesEveryOccurrence(a[n..], m, b, lookup);
      assert Substitute(s, lookup) == piece + Substitute(a[n..] + m + b, lookup);
    }
  }

  lemma StepAtMarker(m: Bytes, b: Bytes, lookup: Lookup)
    requires MarkerLookup(lookup) && m in lookup
    ensures m + b != [] && Step(m + b, lookup) == (lookup[m], |m|)
  {
    assert Bracketed(m);
    HeadMarkerIs(m, b);
  }

  lemma StepBeforeMarker(a: Bytes, m: Bytes, b: Bytes, lookup: Lookup)
    requires MarkerLookup(lookup) && m in lookup && a != []
    ensures a + m + b != [] && Step(a + m + b, lookup) == Step(a, lookup)
  {
    assert (a + m + b)[0] == a[0];
    HeadBeforeMarker(a, m, b, lookup);
    NotEmptyMarker(lookup);
  }

  lemma NotEmptyMarker(lookup: Lookup)
    requires MarkerLookup(lookup)
    ensures [] !in lookup
  {
    assert !Bracketed([]);
  }

  lemma CutHead(a: Bytes, m: Bytes, b: Bytes, k: nat)
    requires k <= |a|
    ensures (a + m + b)[k..] == a[k..] + m + b
  {
  }

  /** Text without markers of the table is left untouched. */
  lemma {:induction false} SubstituteWithoutMarkers(s: Bytes, lookup: Lookup)
    requires !HasMarker(s, lookup)
    ensures Substitute(s, lookup) == s
    decreases |s|
  {
    if s != [] {
      var mk := HeadMarker(s);
      if mk != [] && mk in lookup {
        assert OccursAt(s, mk, 0);
        assert false;
      }
      if HasMarker(s[1..], lookup) {
        var p :| p in lookup && Occurs(s[1..], p);
        assert s == s[..1] + s[1..] + [];
        OccursInWhole(s[..1], s[1..], [], p);
        assert false;
      }
      SubstituteWithoutMarkers(s[1..], lookup);
    }
  }

  /** The two laws leave no other choice: any f that replaces each occurrence
      independently and keeps marker-free text is `Substitute`. */
  lemma {:induction false} SubstitutionIsUnique(f: Bytes -> Bytes, s: Bytes, lookup: Lookup)
    requires MarkerLookup(lookup)
    requires forall a, m, b :: m in lookup ==> f(a + m + b) == f(a) + lookup[m] + f(b)
    requires forall a :: !HasMarker(a, lookup) ==> f(a) == a
    ensures f(s) == Substitute(s, lookup)
    decreases |s|
  {
    hide Substitute, Bracketed, OccursAt, IsSuffix;
    if HasMarker(s, lookup) {
      var m, a, b := SplitAtMarker(s, lookup);
      SubstitutionIsUnique(f, a, lookup);
      SubstitutionIsUnique(f, b, lookup);
      SubstitutesEveryOccurrence(a, m, b, lookup);
    } else {
      SubstituteWithoutMarkers(s, lookup);
    }
  }

  lemma SplitAtMarker(s: Bytes, lookup: Lookup) returns (m: Bytes, a: Bytes, b: Bytes)
    requires MarkerLookup(lookup) && HasMarker(s, lookup)
    ensures m in lookup && s == a + m + b && |a| < |s| && |b| < |s|
  {
    m :| m in lookup && Occurs(s, m);
    var i :| OccursAt(s, m, i);
    a, b := s[..i], s[i + |m|..];
    assert Bracketed(m);
  }

  /** No original contains a marker of the table. */
  ghost predicate InertOriginals(lookup: Lookup) {
    forall mk :: mk in lookup ==> !HasMarker(lookup[mk], lookup)
  }

  /** The marker m, read inside o + r where a longer text w + m + b was expected,
      leaves a non-empty remainder: m cannot lie inside an original. */
  lemma Overhang(o: Bytes, r: Bytes, w: Bytes, m: Bytes, b: Bytes, lookup: Lookup) returns (u: Bytes)
    requires m in lookup && !HasMarker(o, lookup)
    requires o + r == w + m + b
    ensures u != [] && r == u + b
  {
    var wm := w + m;
    if |o| >= |wm| {
      assert OccursAt(o, m, |w|) by {
        assert (o + r)[|w|..|wm|] == o[|w|..|wm|];
        assert (wm + b)[|w|..|wm|] == m;
      }
      assert false;
    }
    u := wm[|o|..];
    assert r == (o + r)[|o|..] == (wm + b)[|o|..] == u + b;
  }

  /** Substitution never shifts a text to the right over itself. */
  lemma {:induction false} NeverShifts(w: Bytes, y: Bytes, lookup: Lookup)
    requires InertOriginals(lookup) && w != []
    ensures Substitute(y, lookup) != w + y
    decreases |y|
  {
    if y != [] && Substitute(y, lookup) == w + y {
      var mk := HeadMarker(y);
      if mk != [] && mk in lookup {
        var b := y[|mk|..];
        assert y == mk + b;
        assert w + y == w + mk + b;
        var u := Overhang(lookup[mk], Substitute(b, lookup), w, mk, b, lookup);
        NeverShifts(u, b, lookup);
      } else {
        var w' := w[1..] + [y[0]];
        assert w + y == [w[0]] + (w' + y[1..]);
        assert Substitute(y, lookup)[1..] == Substitute(y[1..], lookup);
        assert (w + y)[1..] == w' + y[1..];
        NeverShifts(w', y[1..], lookup);
      }
    }
  }

  /** `restored != masked` detects a genuine restoration exactly: the output
      differs from the input if and only if some own marker occurs in it. */
  lemma {:induction false} DetectsRestoration(y: Bytes, lookup: Lookup)
    requires MarkerLookup(lookup) && InertOriginals(lookup)
    ensures Substitute(y, lookup) != y <==> HasMarker(y, lookup)
    decreases |y|
  {
    if !HasMarker(y, lookup) {
      SubstituteWithoutMarkers(y, lookup);
    } else {
      var mk := HeadMarker(y);
      if mk != [] && mk in lookup {
        HeadReplacementShows(y, lookup);
      } else {
        TailHasMarker(y, lookup);
        DetectsRestoration(y[1..], lookup);
        assert Substitute(y, lookup)[1..] == Substitute(y[1..], lookup);
      }
    }
  }

  lemma HeadReplacementShows(y: Bytes, lookup: Lookup)
    requires MarkerLookup(lookup) && InertOriginals(lookup)
    requires HeadMarker(y) != [] && HeadMarker(y) in lookup
    ensures Substitute(y, lookup) != y
  {
    if Substitute(y, lookup) == y {
      var mk := HeadMarker(y);
      var b := y[|mk|..];
      assert y == [] + mk + b;
      var u := Overhang(lookup[mk], Substitute(b, lookup), [], mk, b, lookup);
      NeverShifts(u, b, lookup);
    }
  }

  lemma HeadMarkerFound(y: Bytes, m: Bytes)
    requires Bracketed(m)
    ensures OccursAt(y, m, 0) ==> HeadMarker(y) == m
  {
    if OccursAt(y, m, 0) {
      assert y == m + y[|m|..];
      HeadMarkerIs(m, y[|m|..]);
    }
  }

  lemma TailHasMarker(y: Bytes, lookup: Lookup)
    requires MarkerLookup(lookup) && HasMarker(y, lookup)
    requires HeadMarker(y) == [] || HeadMarker(y) !in lookup
    ensures y != [] && HasMarker(y[1..], lookup)
  {
    var m :| m in lookup && Occurs(y, m);
    var i :| OccursAt(y, m, i);
    assert Bracketed(m);
    HeadMarkerFound(y, m);
    assert i > 0;
    assert y[1..][i - 1..i - 1 + |m|] == y[i..i + |m|];
    assert OccursAt(y[1..], m, i - 1);
  }
}

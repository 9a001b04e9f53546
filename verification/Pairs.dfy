/** The life of a load generator's pair, whatever the scenario: it is masked, then
    restored at most a budgeted number of times, one attempt at a time. */
module Pairs {
  import opened Bytes
  import opened Decimal
  import opened Totals

  // ---- Names --------------------------------------------------------------------

  /** "load-" and "-". */
  const LOAD: Bytes := [108, 111, 97, 100, 45]
  const DASH: Bytes := [45]

  /** `pairID`; scenarios below name a pair by its index. */
  function PairID(runID: Bytes, i: nat): Bytes {
    LOAD + runID + DASH + Print(i)
  }

  lemma PairIDsAreDistinct(runID: Bytes, i: nat, j: nat)
    ensures PairID(runID, i) == PairID(runID, j) <==> i == j
  {
    if PairID(runID, i) == PairID(runID, j) {
      var head := LOAD + runID + DASH;
      assert PairID(runID, i)[|head|..] == Print(i) && PairID(runID, j)[|head|..] == Print(j);
      ValueOfPrint(i);
      ValueOfPrint(j);
    }
  }

  // ---- Lives --------------------------------------------------------------------

  /** The mask step is out; or the mask is known, with so many restore attempts left
      and perhaps one out; or the pair is done with. */
  datatype Life = Masking | Held(left: nat, out: bool) | Over

  datatype Event =
    | IssueMask(id: nat)
    | IssueRestore(id: nat)
    | MaskDone(id: nat, ok: bool)
    | RestoreDone(id: nat, ok: bool)

  type Lives = map<nat, Life>

  /** What may happen next, when every issued step is completed at most once. */
  predicate Possible(lives: Lives, e: Event) {
    match e
    case IssueMask(id) => id == |lives| && id !in lives
    case IssueRestore(id) => id in lives && lives[id].Held? && lives[id].left > 0 && !lives[id].out
    case MaskDone(id, _) => id in lives && lives[id].Masking?
    case RestoreDone(id, _) => id in lives && lives[id].Held? && lives[id].out
  }

  function After(budget: nat, lives: Lives, e: Event): Lives
    requires Possible(lives, e)
  {
    match e
    case IssueMask(id) => lives[id := Masking]
    case IssueRestore(id) => lives[id := Held(lives[id].left - 1, true)]
    case MaskDone(id, ok) => lives[id := if ok then Held(budget, false) else Over]
    case RestoreDone(id, ok) =>
      lives[id := if !ok && lives[id].left > 0 then Held(lives[id].left, false) else Over]
  }

  // ---- Runs ---------------------------------------------------------------------

  predicate Run(budget: nat, lives: Lives, es: seq<Event>)
    decreases |es|
  {
    es == [] || (Possible(lives, es[0]) && Run(budget, After(budget, lives, es[0]), es[1..]))
  }

  function End(budget: nat, lives: Lives, es: seq<Event>): Lives
    requires Run(budget, lives, es)
    decreases |es|
  {
    if es == [] then lives else End(budget, After(budget, lives, es[0]), es[1..])
  }

  function Issued(es: seq<Event>): nat {
    if es == [] then 0
    else (if es[0].IssueMask? || es[0].IssueRestore? then 1 else 0) + Issued(es[1..])
  }

  function Restores(es: seq<Event>, id: nat): nat {
    if es == [] then 0 else (if es[0] == IssueRestore(id) then 1 else 0) + Restores(es[1..], id)
  }

  /** The steps that may still be issued for pairs already begun. */
  function Credit(budget: nat, life: Life): nat {
    match life
    case Masking => budget
    case Held(left, _) => left
    case Over => 0
  }

  ghost function Credits(budget: nat, lives: Lives): int {
    Total(lives, (life: Life) => Credit(budget, life))
  }

  /** Every event pays for the steps it issues. */
  lemma EventPays(budget: nat, lives: Lives, e: Event)
    requires Possible(lives, e)
    ensures var lives' := After(budget, lives, e);
            && |lives'| == |lives| + (if e.IssueMask? then 1 else 0)
            && Credits(budget, lives') + Issued([e]) <=
               Credits(budget, lives) + (if e.IssueMask? then 1 + budget else 0)
  {
    hide Total;
    var lives' := After(budget, lives, e);
    TotalUpdate(lives, (life: Life) => Credit(budget, life), e.id, lives'[e.id]);
    assert lives'.Keys == lives.Keys + {e.id};
    assert [e][1..] == [];
  }

  /** A run over no more than `total` pairs issues at most total * (1 + budget)
      steps. */
  lemma StepsAreBounded(budget: nat, total: nat, es: seq<Event>)
    requires Run(budget, map[], es) && |End(budget, map[], es)| <= total
    ensures Issued(es) <= total * (1 + budget)
  {
    hide Credits, Run, End, Issued;
    StepsArePaid(budget, map[], es);
    NoCredits(budget);
    CreditsAreNatural(budget, End(budget, map[], es));
    Grow(|End(budget, map[], es)|, total, 1 + budget);
  }

  lemma NoCredits(budget: nat)
    ensures Credits(budget, map[]) == 0
  {
    var nothing: Lives := map[];
    TotalOfNothing(nothing, (life: Life) => Credit(budget, life));
  }

  lemma CreditsAreNatural(budget: nat, lives: Lives)
    ensures Credits(budget, lives) >= 0
  {
    TotalNonNegative(lives, (life: Life) => Credit(budget, life));
  }

  lemma Grow(m: nat, n: nat, k: nat)
    requires m <= n
    ensures m * k <= n * k
  {
  }

  lemma {:induction false} StepsArePaid(budget: nat, lives: Lives, es: seq<Event>)
    requires Run(budget, lives, es)
    ensures var lives' := End(budget, lives, es);
            Credits(budget, lives') + Issued(es) <= Credits(budget, lives) + (|lives'| - |lives|) * (1 + budget)
            && |lives| <= |lives'|
    decreases |es|
  {
    hide Credits, Possible, After;
    if es != [] {
      EventPays(budget, lives, es[0]);
      StepsArePaid(budget, After(budget, lives, es[0]), es[1..]);
      assert [es[0]][1..] == [];
    }
  }

  /** The restores that a pair may still see. */
  ghost function Left(budget: nat, lives: Lives, id: nat): nat {
    if id in lives then Credit(budget, lives[id]) else budget
  }

  /** No pair is ever restored more often than the budget says. */
  lemma {:induction false} RestoresAreBounded(budget: nat, lives: Lives, es: seq<Event>, id: nat)
    requires Run(budget, lives, es)
    ensures Restores(es, id) <= Left(budget, lives, id)
    decreases |es|
  {
    if es != [] {
      RestoresAreBounded(budget, After(budget, lives, es[0]), es[1..], id);
    }
  }

  /** A restore is issued only after the pair's mask has succeeded, and never while
      another restore of the pair is out: since then that one has been completed. */
  lemma {:induction false} RestoreFollowsMask(budget: nat, lives: Lives, es: seq<Event>, k: nat)
    requires Run(budget, lives, es) && k < |es| && es[k].IssueRestore?
    requires es[k].id in lives ==> !lives[es[k].id].Held?
    ensures exists m :: 0 <= m < k && es[m] == MaskDone(es[k].id, true)
    decreases |es|
  {
    var id := es[k].id;
    var lives' := After(budget, lives, es[0]);
    if es[0] == MaskDone(id, true) {
      assert k > 0;
    } else {
      assert k > 0;
      RestoreFollowsMask(budget, lives', es[1..], k - 1);
      var m :| 0 <= m < k - 1 && es[1..][m] == MaskDone(id, true);
      assert es[m + 1] == MaskDone(id, true);
    }
  }

  lemma {:induction false} OneRestoreAtATime(budget: nat, lives: Lives, es: seq<Event>, j: nat, k: nat)
    requires Run(budget, lives, es) && j < k < |es| && es[j].IssueRestore? && es[k] == es[j]
    ensures exists m :: j < m < k && es[m] == RestoreDone(es[j].id, false)
    decreases |es|
  {
    var lives' := After(budget, lives, es[0]);
    if j > 0 {
      OneRestoreAtATime(budget, lives', es[1..], j - 1, k - 1);
      var m :| j - 1 < m < k - 1 && es[1..][m] == RestoreDone(es[j].id, false);
      assert es[m + 1] == RestoreDone(es[j].id, false);
    } else {
      var m := OutUntilDone(budget, lives', es[1..], es[0].id, k - 1);
      assert es[m + 1] == RestoreDone(es[0].id, false);
    }
  }

  /** While a restore is out, the next one has to wait for its failure. */
  lemma {:induction false} OutUntilDone(budget: nat, lives: Lives, es: seq<Event>, id: nat, k: nat) returns (m: nat)
    requires Run(budget, lives, es) && k < |es| && es[k] == IssueRestore(id)
    requires id in lives && lives[id].Held? && lives[id].out
    ensures m < k && es[m] == RestoreDone(id, false)
    decreases |es|
  {
    assert k > 0;
    m := 0;
    if es[0] == RestoreDone(id, false) {
    } else if es[0] == RestoreDone(id, true) {
      OverForever(budget, After(budget, lives, es[0]), es[1..], id, k - 1);
      assert false;
    } else {
      m := OutUntilDone(budget, After(budget, lives, es[0]), es[1..], id, k - 1);
      m := m + 1;
    }
  }

  /** A pair that is done with is never restored again. */
  lemma {:induction false} OverForever(budget: nat, lives: Lives, es: seq<Event>, id: nat, k: nat)
    requires Run(budget, lives, es) && id in lives && lives[id].Over? && k < |es|
    ensures es[k] != IssueRestore(id)
    decreases |es|
  {
    if k > 0 {
      OverForever(budget, After(budget, lives, es[0]), es[1..], id, k - 1);
    }
  }

  // ---- What may happen next --------------------------------------------------------

  /** How often e has happened. */
  function Count(es: seq<Event>, e: Event): nat {
    if es == [] then 0 else (if es[0] == e then 1 else 0) + Count(es[1..], e)
  }

  /** The pairs begun. */
  function Begun(es: seq<Event>): nat {
    if es == [] then 0 else (if es[0].IssueMask? then 1 else 0) + Begun(es[1..])
  }

  /** The life of pair id, told by the events alone: begun; masked or not; restored, or
      with no attempt left once all that were made have failed. */
  ghost predicate Told(budget: nat, lives: Lives, id: nat, begun: nat, masked: nat, unmasked: nat, tries: nat,
                       restored: nat, failed: nat)
  {
    && (id in lives <==> begun > 0)
    && begun <= 1 && masked + unmasked <= begun && restored + failed <= tries <= masked * budget && restored <= 1
    && (id in lives ==>
          match lives[id]
          case Masking => masked == unmasked == 0
          case Held(left, out) =>
            && masked == 1 && restored == 0 && left == budget - tries && failed == tries - (if out then 1 else 0)
            && (!out ==> left > 0)
          case Over =>
            restored + failed == tries && (unmasked == 1 || restored == 1 || (masked == 1 && failed == budget)))
  }

  ghost predicate ToldBy(budget: nat, lives: Lives, id: nat, es: seq<Event>) {
    Told(budget, lives, id, Count(es, IssueMask(id)), Count(es, MaskDone(id, true)), Count(es, MaskDone(id, false)),
         Count(es, IssueRestore(id)), Count(es, RestoreDone(id, true)), Count(es, RestoreDone(id, false)))
  }

  lemma {:induction false} CountOneMore(es: seq<Event>, more: Event, e: Event)
    ensures Count(es + [more], e) == Count(es, e) + if more == e then 1 else 0
    ensures Begun(es + [more]) == Begun(es) + if more.IssueMask? then 1 else 0
    decreases |es|
  {
    if es == [] {
      assert es + [more] == [more] && [more][1..] == [];
    } else {
      CountOneMore(es[1..], more, e);
      assert (es + [more])[1..] == es[1..] + [more];
    }
  }

  lemma OneEventTold(budget: nat, lives: Lives, id: nat, e: Event, b: nat, m: nat, u: nat, t: nat, r: nat, f: nat)
    requires budget > 0 && Possible(lives, e) && Told(budget, lives, id, b, m, u, t, r, f)
    ensures Told(budget, After(budget, lives, e), id,
                 b + (if e == IssueMask(id) then 1 else 0), m + (if e == MaskDone(id, true) then 1 else 0),
                 u + (if e == MaskDone(id, false) then 1 else 0), t + (if e == IssueRestore(id) then 1 else 0),
                 r + (if e == RestoreDone(id, true) then 1 else 0), f + (if e == RestoreDone(id, false) then 1 else 0))
  {
  }

  ghost predicate InSequence(lives: Lives, n: nat) {
    |lives| == n && forall id :: id in lives ==> id < n
  }

  lemma StaysInSequence(budget: nat, lives: Lives, e: Event, n: nat)
    requires Possible(lives, e) && InSequence(lives, n)
    ensures InSequence(After(budget, lives, e), n + if e.IssueMask? then 1 else 0)
  {
    var lives' := After(budget, lives, e);
    assert lives'.Keys == lives.Keys + {e.id};
    assert |lives'.Keys| == |lives'|;
  }

  lemma {:induction false} RunTold(budget: nat, lives: Lives, id: nat, done: seq<Event>, es: seq<Event>)
    requires budget > 0 && Run(budget, lives, es) && ToldBy(budget, lives, id, done) && InSequence(lives, Begun(done))
    ensures ToldBy(budget, End(budget, lives, es), id, done + es)
    ensures InSequence(End(budget, lives, es), Begun(done + es))
    decreases |es|
  {
    hide Told, Possible, After, InSequence, Count, Begun;
    if es == [] {
      assert done + es == done;
    } else {
      var e := es[0];
      OneEventTold(budget, lives, id, e, Count(done, IssueMask(id)), Count(done, MaskDone(id, true)),
                   Count(done, MaskDone(id, false)), Count(done, IssueRestore(id)), Count(done, RestoreDone(id, true)),
                   Count(done, RestoreDone(id, false)));
      StaysInSequence(budget, lives, e, Begun(done));
      forall x {
        CountOneMore(done, e, x);
      }
      RunTold(budget, After(budget, lives, e), id, done + [e], es[1..]);
      assert done + [e] + es[1..] == done + es;
    }
  }

  /** What may happen next, exactly, from the events so far: the pairs begin in turn; a
      mask that is out is completed once; a masked pair that has not been restored is
      restored again when all attempts so far have failed and the budget has more; and a
      restore that is out is completed once. */
  lemma NextIsExact(budget: nat, es: seq<Event>, id: nat)
    requires budget > 0 && Run(budget, map[], es)
    ensures var lives := End(budget, map[], es);
            && (Possible(lives, IssueMask(id)) <==> id == Begun(es))
            && (Possible(lives, IssueRestore(id)) <==>
                  Count(es, MaskDone(id, true)) == 1 && Count(es, RestoreDone(id, true)) == 0 &&
                  Count(es, RestoreDone(id, false)) == Count(es, IssueRestore(id)) < budget)
            && (forall ok :: Possible(lives, MaskDone(id, ok)) <==>
                  Count(es, IssueMask(id)) == 1 && Count(es, MaskDone(id, true)) == Count(es, MaskDone(id, false)) == 0)
            && (forall ok :: Possible(lives, RestoreDone(id, ok)) <==>
                  Count(es, IssueRestore(id)) ==
                  Count(es, RestoreDone(id, true)) + Count(es, RestoreDone(id, false)) + 1)
  {
    hide Run, End, Count, Begun;
    NothingTold(budget, id);
    RunTold(budget, map[], id, [], es);
    assert [] + es == es;
  }

  lemma NothingTold(budget: nat, id: nat)
    ensures ToldBy(budget, map[], id, []) && InSequence(map[], Begun([]))
  {
  }
}

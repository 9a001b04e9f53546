/** Every call can be brought to its end: from every reachable state a short run leads
    to its answer, in which nothing is cancelled, nothing times out and no time passes. */
module AppProgress {
  import opened Bytes
  import opened Expiry
  import opened Totals
  import opened StoreCore
  import opened StoreInvariant
  import opened DrainLemmas
  import opened StoreSteps
  import opened StoreProtocol
  import opened StoreHistory
  import opened StoreSafety
  import opened Pipeline
  import opened PipelineFacts
  import opened AppSteps
  import opened AppProtocol
  import opened AppEffects
  import opened AppSafety
  import opened AppScopes

  // ---- How far a thread is from its end -------------------------------------------

  predicate IsContextFailure(out: Outcome) {
    out.Fails? && out.error.ErrContext?
  }

  /** The steps a waiter on r still needs; a creator that was cancelled sends it back. */
  ghost function WaitRank(s: Sys, r: Tid): nat {
    if r in s.cells && s.cells[r].Closed? then
      if IsContextFailure(s.cells[r].outcome) then 8 else 3
    else if r in s.threads && s.threads[r].pc.Finishing? then
      if IsContextFailure(s.threads[r].pc.outcome) then 9 else 4
    else 5
  }

  /** A bound on the steps until the thread is done. */
  ghost function Rank(l: Limits, s: Sys, th: Thread): (n: nat)
    ensures n <= 9 && (!th.op.CreateOp? ==> n <= 1)
  {
    if th.pc.Done? then 0
    else if !th.op.CreateOp? then 1
    else
      match th.pc
      case Ready => if th.op.key in s.core.entries && Expired(l, s.core.entries[th.op.key], s.clock) then 7 else 6
      case Waiting(r) => WaitRank(s, r)
      case Building => 2
      case _ => 1
  }

  /** Thread t has come closer to its end, and no time has passed. */
  ghost predicate Closer(l: Limits, s: Sys, s': Sys, t: Tid) {
    && t in s.threads && t in s'.threads && s'.threads[t].op == s.threads[t].op && s'.clock == s.clock
    && Rank(l, s', s'.threads[t]) < Rank(l, s, s.threads[t])
  }

  // ---- Steps --------------------------------------------------------------------

  lemma BeginIsCloser(l: Limits, s: Sys, t: Tid, gone: set<Key>)
    requires Protocol(s.core, s.cells, s.threads) && Enabled(l, s, DoBegin(t, s.clock, gone))
    ensures Closer(l, s, Apply(l, s, DoBegin(t, s.clock, gone)), t)
  {
    hide Protocol, HoldersMatch, LinksMatch, KeysFree, CellsMatch, Drained, DrainEvents, ReserveRefusal, Expired,
      Drains;
    var op := s.threads[t].op;
    if op.key in s.core.inflight {
      LinkIsLive(s, op.key);
    }
  }

  lemma LookIsCloser(l: Limits, s: Sys, step: Step)
    requires Enabled(l, s, step) && ((step.DoGet? || step.DoMark?) && step.now == s.clock)
    ensures Closer(l, s, Apply(l, s, step), step.t)
  {
    hide Total, Removals, Expired, MayRestore;
  }

  /** The creator ends its build, with a record or a failure of its own. */
  lemma BuildIsCloser(l: Limits, s: Sys, step: Step, r: Tid, t: Tid)
    requires Protocol(s.core, s.cells, s.threads) && Enabled(l, s, step) && t in s.threads && s.threads[t].op.CreateOp?
    requires step == FailBuild(r, ERR_RECOGNITION) || (step.DoPublish? && step.t == r && step.at == s.clock)
    requires t == r || s.threads[t].pc == Waiting(r)
    ensures Closer(l, s, Apply(l, s, step), t)
  {
    hide HoldersMatch, LinksMatch, KeysFree, Drained, DrainEvents, PublishRefusal, Released, Expired, Drains,
      RecordSize;
    assert ThreadOk(r, s.cells, s.threads);
  }

  lemma FinishIsCloser(l: Limits, s: Sys, r: Tid, t: Tid)
    requires Protocol(s.core, s.cells, s.threads) && Enabled(l, s, DoFinish(r))
    requires t in s.threads && s.threads[t].op.CreateOp? && (t == r || s.threads[t].pc == Waiting(r))
    ensures Closer(l, s, Apply(l, s, DoFinish(r)), t)
  {
    hide HoldersMatch, LinksMatch, KeysFree, Unlinked, Expired;
    assert ThreadOk(r, s.cells, s.threads);
  }

  lemma WakeIsCloser(l: Limits, s: Sys, t: Tid)
    requires Enabled(l, s, Wake(t)) && s.threads[t].op.CreateOp?
    ensures Closer(l, s, Apply(l, s, Wake(t)), t)
  {
    hide Expired;
  }

  // ---- Moves --------------------------------------------------------------------

  /** What each build finds, as a function of its text. */
  type Finder = Bytes -> seq<Finding>

  /** Nobody cancels, gives up waiting or sends a request, and builds find what their
      text holds: with recognizers that do not fail, no build fails. */
  ghost predicate Calm(a: App, find: Finder, move: Move) {
    match move
    case Inside(step) => !step.Cancel? && !step.TimeOut? && !step.FailBuild? && !step.Deliver?
    case Build(t, results, _, _, _) => t.call in a.calls && results == find(a.calls[t.call].req.text)
    case Advance(_) => true
    case _ => false
  }

  ghost predicate CalmRun(cfg: Config, a: App, find: Finder, moves: seq<Move>)
    decreases |moves|
  {
    moves == [] ||
    (Allowed(cfg, a, moves[0]) && Calm(a, find, moves[0]) && CalmRun(cfg, Next(cfg, a, moves[0]), find, moves[1..]))
  }

  ghost predicate FindFits(calls: Calls, find: Finder) {
    forall d :: d in calls ==> FitsInMemory(calls[d].req.text, find(calls[d].req.text))
  }

  /** The call has replied, or its present operation runs. */
  ghost predicate UnderWay(a: App, c: nat) {
    c in a.calls && (a.calls[c].phase.Replied? || Tid(c, Stage(a.calls[c].phase)) in a.store.threads)
  }

  lemma CallsAreUnderWay(cfg: Config, a: App, c: nat)
    requires AppInv(cfg, a) && c in a.calls
    ensures UnderWay(a, c)
  {
    hide AppInv;
    CallFacts(cfg, a, c);
  }

  /** A bound on the moves until the call has replied. */
  ghost function Distance(l: Limits, a: App, c: nat): (n: nat)
    requires UnderWay(a, c)
    ensures n == 0 <==> a.calls[c].phase.Replied?
  {
    if a.calls[c].phase.Replied? then 0
    else
      var rank := Rank(l, a.store, a.store.threads[Tid(c, Stage(a.calls[c].phase))]);
      match Stage(a.calls[c].phase)
      case 0 => rank + 11
      case 1 => rank + 3
      case _ => rank + 1
  }

  lemma DistanceIsShort(cfg: Config, a: App, c: nat)
    requires AppInv(cfg, a) && c in a.calls
    ensures UnderWay(a, c) && Distance(cfg.limits, a, c) <= 12
  {
    hide AppInv, Rank, KeyFor, Decide;
    CallsAreUnderWay(cfg, a, c);
    CallFacts(cfg, a, c);
  }

  /** The move does what is asked of it: the call comes closer to its reply, no time
      passes, and no request changes. */
  ghost predicate Advances(cfg: Config, a: App, c: nat, a': App) {
    && UnderWay(a, c) && UnderWay(a', c) && Distance(cfg.limits, a', c) < Distance(cfg.limits, a, c)
    && a'.store.clock == a.store.clock
    && forall d :: d in a'.calls ==> d in a.calls && a'.calls[d].req == a.calls[d].req
  }

  lemma StoreAdvances(cfg: Config, a: App, c: nat, a': App)
    requires UnderWay(a, c) && !a.calls[c].phase.Replied? && a'.calls == a.calls
    requires Closer(cfg.limits, a.store, a'.store, Tid(c, Stage(a.calls[c].phase)))
    ensures Advances(cfg, a, c, a')
  {
    hide Rank;
  }

  /** The operation of the call has returned: it replies, or starts the next one. */
  lemma AdvanceStarts(cfg: Config, a: App, c: nat)
    requires AppInv(cfg, a) && Allowed(cfg, a, Advance(c))
    ensures var a' := Next(cfg, a, Advance(c));
            && c in a'.calls
            && (a'.calls[c].phase.Replied? ||
                var stage := Stage(a'.calls[c].phase);
                stage > Stage(a.calls[c].phase) && Tid(c, stage) in a'.store.threads &&
                a'.store.threads[Tid(c, stage)].pc.Ready? &&
                (stage == 2 ==> a'.store.threads[Tid(c, stage)].op.MarkOp?))
  {
    hide AppInv, Decide, KeyFor, MinRecordSize, Justified, Serves, ThreadKnows, OwnWork;
    CallFacts(cfg, a, c);
    StageAnswers(cfg, a, c);
  }

  lemma AdvanceAdvances(cfg: Config, a: App, c: nat)
    requires AppInv(cfg, a) && Allowed(cfg, a, Advance(c))
    ensures Advances(cfg, a, c, Next(cfg, a, Advance(c)))
  {
    hide AppInv, Next, WaitRank, Expired;
    AdvanceStarts(cfg, a, c);
    OthersStand(cfg, a, c);
  }

  /** What the invariant says about the thread of a call that has not replied. */
  lemma ThreadAtWork(cfg: Config, a: App, t: Tid)
    requires AppInv(cfg, a) && t in a.store.threads && t.call in a.calls
    ensures Protocol(a.store.core, a.store.cells, a.store.threads)
    ensures !a.store.threads[t].op.CleanOp?
    ensures !a.store.threads[t].op.CreateOp? ==> a.store.threads[t].pc.Ready? || a.store.threads[t].pc.Done?
  {
    hide Inv, History, RestorersUnique, StoreObserver.Conserved, HoldersMatch, LinksMatch, KeysFree, AllMade,
      AllOwnWork, AllRun, AllJustified, AllMarked, Marks, KeyFor, Denied;
    assert Serves(a.calls, t, a.store.threads[t].op);
    assert ThreadOk(t, a.store.cells, a.store.threads);
  }

  lemma InsideAdvances(cfg: Config, a: App, c: nat, step: Step)
    requires UnderWay(a, c) && !a.calls[c].phase.Replied? && Allowed(cfg, a, Inside(step))
    requires Closer(cfg.limits, a.store, Apply(cfg.limits, a.store, step), Tid(c, Stage(a.calls[c].phase)))
    ensures Advances(cfg, a, c, Next(cfg, a, Inside(step)))
  {
    hide Enabled, Apply, Closer, Advances, UnderWay;
    StoreAdvances(cfg, a, c, Next(cfg, a, Inside(step)));
  }

  /** A creator that builds ends its build, for the call itself or for a waiter. */
  lemma BuildAdvances(cfg: Config, a: App, c: nat, find: Finder, r: Tid) returns (move: Move)
    requires AppInv(cfg, a) && UnderWay(a, c) && !a.calls[c].phase.Replied? && FindFits(a.calls, find)
    requires r in a.store.threads && r.call in a.calls && a.store.threads[r].pc.Building?
    requires var th := a.store.threads[Tid(c, Stage(a.calls[c].phase))];
             th.op.CreateOp? && (th.pc == Waiting(r) || Tid(c, Stage(a.calls[c].phase)) == r)
    ensures Allowed(cfg, a, move) && Calm(a, find, move) && Advances(cfg, a, c, Next(cfg, a, move))
  {
    hide AppInv, Enabled, Apply, Built, FitsInMemory, Closer, Advances, Protocol, Denied;
    var results, now := find(a.calls[r.call].req.text), a.store.clock;
    BuildCanEnd(cfg, a, r, results);
    var gone :| Allowed(cfg, a, Build(r, results, now, now, gone));
    move := Build(r, results, now, now, gone);
    ThreadAtWork(cfg, a, r);
    var t := Tid(c, Stage(a.calls[c].phase));
    match BuildResult(cfg, a, r, results) {
      case None =>
        CanFail(cfg, a, r);
        BuildIsCloser(cfg.limits, a.store, FailBuild(r, ERR_RECOGNITION), r, t);
      case Some(content) =>
        BuildIsCloser(cfg.limits, a.store, DoPublish(r, content, now, now, gone), r, t);
    }
    StoreAdvances(cfg, a, c, Next(cfg, a, move));
  }

  /** A thread that is ready begins; a creator that has published finishes. */
  lemma OwnStepAdvances(cfg: Config, a: App, c: nat) returns (step: Step)
    requires AppInv(cfg, a) && UnderWay(a, c) && !a.calls[c].phase.Replied?
    requires var pc := a.store.threads[Tid(c, Stage(a.calls[c].phase))].pc; pc.Ready? || pc.Finishing?
    ensures Allowed(cfg, a, Inside(step)) && Advances(cfg, a, c, Next(cfg, a, Inside(step)))
    ensures step.DoGet? || step.DoBegin? || step.DoMark? || step.DoFinish?
  {
    hide AppInv, Apply, Closer, Advances, Protocol;
    var t, s := Tid(c, Stage(a.calls[c].phase)), a.store;
    ThreadAtWork(cfg, a, t);
    CallerIsAdmitted(cfg, a, t);
    if s.threads[t].pc.Finishing? {
      step := DoFinish(t);
      FinishIsCloser(cfg.limits, s, t, t);
    } else if s.threads[t].op.CreateOp? {
      NoneDraining(cfg.limits, s.core, s.clock);
      var gone := BatchExists(cfg.limits, s.core, {}, s.clock);
      step := DoBegin(t, s.clock, gone);
      BeginIsCloser(cfg.limits, s, t, gone);
    } else {
      step := if s.threads[t].op.GetOp? then DoGet(t, s.clock) else DoMark(t, s.clock);
      LookIsCloser(cfg.limits, s, step);
    }
    InsideAdvances(cfg, a, c, step);
  }

  /** A waiter wakes, or its creator goes on. */
  lemma WaitAdvances(cfg: Config, a: App, c: nat, find: Finder) returns (move: Move)
    requires AppInv(cfg, a) && UnderWay(a, c) && !a.calls[c].phase.Replied? && FindFits(a.calls, find)
    requires a.store.threads[Tid(c, Stage(a.calls[c].phase))].pc.Waiting?
    ensures Allowed(cfg, a, move) && Calm(a, find, move) && Advances(cfg, a, c, Next(cfg, a, move))
  {
    hide AppInv, Apply, Closer, Advances, Protocol, FindFits;
    var t, s := Tid(c, Stage(a.calls[c].phase)), a.store;
    var r := s.threads[t].pc.on;
    ThreadAtWork(cfg, a, t);
    WaitedCreator(cfg, a, t);
    if s.cells[r].Closed? {
      move := Inside(Wake(t));
      WakeIsCloser(cfg.limits, s, t);
      InsideAdvances(cfg, a, c, Wake(t));
    } else if s.threads[r].pc.Building? {
      move := BuildAdvances(cfg, a, c, find, r);
    } else {
      move := Inside(DoFinish(r));
      CallerIsAdmitted(cfg, a, r);
      FinishIsCloser(cfg.limits, s, r, t);
      InsideAdvances(cfg, a, c, DoFinish(r));
    }
  }

  lemma OneMoveCloser(cfg: Config, a: App, c: nat, find: Finder) returns (move: Move)
    requires AppInv(cfg, a) && UnderWay(a, c) && !a.calls[c].phase.Replied? && FindFits(a.calls, find)
    ensures Allowed(cfg, a, move) && Calm(a, find, move) && Advances(cfg, a, c, Next(cfg, a, move))
  {
    hide AppInv, Enabled, Apply, Advances, FindFits;
    var t := Tid(c, Stage(a.calls[c].phase));
    match a.store.threads[t].pc {
      case Done(_, _) =>
        move := Advance(c);
        AdvanceAdvances(cfg, a, c);
      case Building =>
        CallerIsAdmitted(cfg, a, t);
        move := BuildAdvances(cfg, a, c, find, t);
      case Waiting(_) => move := WaitAdvances(cfg, a, c, find);
      case _ =>
        var step := OwnStepAdvances(cfg, a, c);
        move := Inside(step);
    }
  }

  // ---- Runs -----------------------------------------------------------------------

  lemma {:induction false} CallsEndFrom(cfg: Config, a: App, c: nat, find: Finder) returns (moves: seq<Move>)
    requires AppInv(cfg, a) && Effects(cfg, a) && UnderWay(a, c) && FindFits(a.calls, find)
    ensures CanRun(cfg, a, moves) && CalmRun(cfg, a, find, moves) && |moves| <= Distance(cfg.limits, a, c)
    ensures var z := After(cfg, a, moves); c in z.calls && z.calls[c].phase.Replied? && z.store.clock == a.store.clock
    decreases Distance(cfg.limits, a, c)
  {
    hide AppInv, Effects, Allowed, Next, Calm, Distance, FitsInMemory;
    if Distance(cfg.limits, a, c) == 0 {
      moves := [];
    } else {
      var move := OneMoveCloser(cfg, a, c, find);
      MoveKeeps(cfg, a, move);
      var rest := CallsEndFrom(cfg, Next(cfg, a, move), c, find);
      moves := [move] + rest;
      assert moves[1..] == rest;
    }
  }

  /** Every call can be answered. From every reachable state, whatever the recognizers
      find in the texts of the calls under way, at most twelve moves answer call c; among
      them is no cancellation, timeout or new request, and no time passes. */
  lemma EveryCallCanEnd(cfg: Config, a: App, c: nat, find: Finder) returns (moves: seq<Move>)
    requires Reached(cfg, a) && c in a.calls && FindFits(a.calls, find)
    ensures CanRun(cfg, a, moves) && CalmRun(cfg, a, find, moves) && |moves| <= 12
    ensures var z := After(cfg, a, moves); c in z.calls && z.calls[c].phase.Replied? && z.store.clock == a.store.clock
  {
    hide Reached, AppInv, Effects, CanRun, After, CalmRun, UnderWay, Distance, FindFits;
    ReachableHolds(cfg, a);
    DistanceIsShort(cfg, a, c);
    moves := CallsEndFrom(cfg, a, c, find);
  }
}

/** Scopes do not touch each other, conflicts change nothing, and no call is ever
    stuck. */
module AppScopes {
  import opened Bytes
  import opened Expiry
  import Totals
  import opened StoreCore
  import opened DrainLemmas
  import opened StoreSteps
  import opened StoreProtocol
  import opened StoreHistory
  import opened StoreSafety
  import opened Pipeline
  import opened PipelineFacts
  import opened AppSteps
  import opened AppProtocol
  import opened AppEffects
  import opened AppSafety
  import opened AppRuns

  // ---- Isolation --------------------------------------------------------------

  /** `name:id` is injective for names without the separator. */
  lemma KeysAreInjective(s1: Bytes, id1: Bytes, s2: Bytes, id2: Bytes)
    requires COLON !in s1 && COLON !in s2
    ensures KeyOf(s1, id1) == KeyOf(s2, id2) <==> s1 == s2 && id1 == id2
  {
    if KeyOf(s1, id1) == KeyOf(s2, id2) {
      var k := KeyOf(s1, id1);
      assert k[..|s1|] == s1 && k[..|s2|] == s2;
      IndexByteIs(k, COLON, |s1|);
      IndexByteIs(k, COLON, |s2|);
      assert k[|s1| + 1..] == id1 && k[|s2| + 1..] == id2;
    }
  }

  lemma AdmittedScope(cfg: Config, req: Request)
    requires NamesOk(cfg.consumers) && Denied(cfg, req) == None
    ensures COLON !in Scope(req) && (Scope(req) == CONSUMER_SCOPE <==> req.ProcessReq?)
  {
  }

  /** From e to e' only this key may change; all else that happens is that expired
      records leave. */
  ghost predicate Touches(l: Limits, e: map<Key, Record>, e': map<Key, Record>, now: Time, key: Key) {
    forall k :: k != key ==>
      && (k in e' ==> k in e && e'[k] == e[k])
      && (k in e && k !in e' ==> Expired(l, e[k], now))
  }

  function OpKey(op: Op): Key {
    match op
    case GetOp(key) => key
    case CreateOp(key, _) => key
    case MarkOp(key, _) => key
    case CleanOp => []
  }

  lemma StepTouchesItsKey(l: Limits, s: Sys, step: Step)
    requires Enabled(l, s, step) && !step.Spawn?
    ensures Touches(l, s.core.entries, Apply(l, s, step).core.entries, Apply(l, s, step).clock,
            OpKey(s.threads[step.t].op))
  {
    hide Totals.Total, Removals, RecordSize, DrainEvents, Expired;
    match step
    case DoBegin(t, now, gone) => BeginRecords(l, s.core, s.threads[t].op.key, Reserve(s.threads[t].op), t, gone, now);
    case DoPublish(t, content, drainedAt, at, gone) =>
      PublishRecords(l, s.core, s.threads[t].op.key, t, Reserve(s.threads[t].op), content, gone, drainedAt, at);
    case _ =>
  }

  lemma PublishRecords<R>(l: Limits, c: Core<R>, key: Key, ref: R, reserve: int, content: Content,
                          gone: set<Key>, drainedAt: Time, at: Time)
    requires Drains(l, c, gone, drainedAt) && drainedAt <= at
    ensures Touches(l, c.entries, Publish(l, c, key, ref, reserve, content, gone, at).0.entries, at, key)
  {
    hide Totals.Total, Removals, RecordSize, DrainEvents, PublishRefusal;
  }

  /** The call that makes this move, if it is one call's own. */
  ghost predicate MoveOf(a: App, move: Move, c: nat) {
    match move
    case Inside(step) => !step.Spawn? && step.t in a.store.threads && step.t.call == c && c in a.calls
    case Build(t, _, _, _, _) => t.call == c
    case Advance(call) => call == c
    case _ => false
  }

  lemma MoverIsAdmitted(cfg: Config, a: App, move: Move, c: nat)
    requires AppInv(cfg, a) && Allowed(cfg, a, move) && MoveOf(a, move, c)
    ensures c in a.calls && Denied(cfg, a.calls[c].req) == None
  {
    hide AppInv, Denied, Enabled, Built, PipelineFacts.FitsInMemory;
    match move {
      case Inside(step) => CallerIsAdmitted(cfg, a, step.t);
      case Build(t, _, _, _, _) => CallerIsAdmitted(cfg, a, t);
      case Advance(call) => CallFacts(cfg, a, call);
      case _ =>
    }
  }

  /** No call ever changes, adds or makes visible a record of another scope or
      another identifier: under every other key it can at most remove a record that
      has expired. */
  lemma ScopesAreIsolated(cfg: Config, a: App, move: Move, c: nat, scope: Bytes, id: Bytes)
    requires Reached(cfg, a) && NamesOk(cfg.consumers) && Allowed(cfg, a, move) && MoveOf(a, move, c)
    requires c in a.calls && COLON !in scope && (scope != Scope(a.calls[c].req) || id != a.calls[c].req.id)
    ensures var e, a', k := a.store.core.entries, Next(cfg, a, move), KeyOf(scope, id);
            && (k in a'.store.core.entries ==> k in e && a'.store.core.entries[k] == e[k])
            && (k in e && k !in a'.store.core.entries ==> Expired(cfg.limits, e[k], a'.store.clock))
  {
    hide Reached, AppInv, Denied, KeyOf, Apply, Enabled, Built, PipelineFacts.FitsInMemory, Expired, Started;
    ReachableHolds(cfg, a);
    MoverIsAdmitted(cfg, a, move, c);
    var req := a.calls[c].req;
    AdmittedScope(cfg, req);
    KeysAreInjective(scope, id, Scope(req), req.id);
    match move {
      case Inside(step) =>
        ThreadKey(cfg, a, step.t);
        StepTouchesItsKey(cfg.limits, a.store, step);
      case Build(t, results, drainedAt, at, gone) =>
        ThreadKey(cfg, a, t);
        BuildTouches(cfg, a, t, results, drainedAt, at, gone);
      case Advance(call) => AdvanceTouches(cfg, a, call);
    }
  }

  /** The thread of a call works on the call's key. */
  lemma ThreadKey(cfg: Config, a: App, t: Tid)
    requires AppInv(cfg, a) && t in a.store.threads && t.call in a.calls
    ensures OpKey(a.store.threads[t].op) == KeyFor(a.calls[t.call].req)
  {
    hide SysInv, AllMade, AllOwnWork, AllRun, AllJustified, AllMarked, Admitted, Marks, KeyFor;
    assert Serves(a.calls, t, a.store.threads[t].op);
  }

  lemma BuildTouches(cfg: Config, a: App, t: Tid, results: seq<Finding>, drainedAt: Time, at: Time, gone: set<Key>)
    requires Allowed(cfg, a, Build(t, results, drainedAt, at, gone))
    ensures var s, s' := a.store, Next(cfg, a, Build(t, results, drainedAt, at, gone)).store;
            t in s.threads && Touches(cfg.limits, s.core.entries, s'.core.entries, s'.clock, OpKey(s.threads[t].op))
  {
    hide Apply, Enabled, Built, PipelineFacts.FitsInMemory, Touches, Denied;
    match BuildResult(cfg, a, t, results) {
      case None =>
        CanFail(cfg, a, t);
        StepTouchesItsKey(cfg.limits, a.store, FailBuild(t, ERR_RECOGNITION));
      case Some(content) =>
        StepTouchesItsKey(cfg.limits, a.store, DoPublish(t, content, drainedAt, at, gone));
    }
  }

  lemma AdvanceTouches(cfg: Config, a: App, c: nat)
    requires Allowed(cfg, a, Advance(c))
    ensures Next(cfg, a, Advance(c)).store.core == a.store.core
    ensures Next(cfg, a, Advance(c)).store.clock == a.store.clock
  {
    hide Decide, KeyFor;
  }

  // ---- Conflicts --------------------------------------------------------------

  /** The move by which a call answers Conflict leaves the store exactly as it is, and
      the call has published no version and marked none. */
  lemma ConflictsChangeNothing(cfg: Config, a: App, c: nat)
    requires Reached(cfg, a) && Allowed(cfg, a, Advance(c))
    requires Next(cfg, a, Advance(c)).calls[c].phase.Replied?
    requires Next(cfg, a, Advance(c)).calls[c].phase.final == Rejected(Conflict)
    ensures Next(cfg, a, Advance(c)).store == a.store
    ensures forall t :: t in a.store.threads && t.call == c ==> !a.store.threads[t].op.MarkOp?
    ensures forall v :: v in a.made ==> a.made[v].call != c
  {
    hide Reached, AppInv, Effects, KeyFor, Decide;
    ReachableHolds(cfg, a);
    CallFacts(cfg, a, c);
    if a.calls[c].phase.Marking? {
      MarksAreAnswers(a.calls[c].req, a.calls[c].phase.rec.content);
    }
    forall t | t in a.store.threads && t.call == c ensures !a.store.threads[t].op.MarkOp? {
      assert t == Tid(t.call, t.stage);
      ThreadStage(cfg, a, t);
    }
    forall v | v in a.made ensures a.made[v].call != c {
      MakersAnswerTheirMask(cfg, a, v);
      if a.made[v].call == c {
        MakerHasCreated(cfg, a, v);
      }
    }
  }

  /** The creating thread of a version returns nothing but that version. */
  lemma MakerHasCreated(cfg: Config, a: App, v: nat)
    requires Effects(cfg, a) && v in a.made
    ensures var t := Tid(a.made[v].call, 1);
            t in a.store.threads && (a.store.threads[t].pc.Done? ==> a.store.threads[t].pc.answer.Created?)
  {
    hide AllCreations, AllOwnMasks, AllEffective, AllRefused;
    assert Holds(a.store.threads[Tid(a.made[v].call, 1)].pc, v);
  }

  lemma MarksAreAnswers(req: Request, c: Content)
    ensures Decide(req, c).marks ==> Decide(req, c).reply.Text?
  {
    hide RestoredText, Sliceable;
  }

  lemma ThreadStage(cfg: Config, a: App, t: Tid)
    requires AppInv(cfg, a) && t in a.store.threads && t.call in a.calls
    ensures a.store.threads[t].op.MarkOp? ==> t.stage == 2
  {
    hide SysInv, AllMade, AllOwnWork, AllRun, AllJustified, AllMarked, Admitted, Marks, KeyFor;
    assert Serves(a.calls, t, a.store.threads[t].op);
  }

  // ---- Progress ---------------------------------------------------------------

  /** A non-empty set of stored keys has one with the earliest deadline. */
  lemma {:induction false} Earliest(l: Limits, m: map<Key, Record>, ks: set<Key>) returns (first: Key)
    requires ks <= m.Keys && ks != {}
    ensures first in ks && forall k :: k in ks ==> Deadline(l, m[first]) <= Deadline(l, m[k])
    decreases |ks|
  {
    hide Deadline;
    first :| first in ks;
    if ks != {first} {
      var rest := ks - {first};
      var other := Earliest(l, m, rest);
      assert forall k :: k in ks ==> k == first || k in rest;
      first := if Deadline(l, m[other]) < Deadline(l, m[first]) then other else first;
    }
  }

  lemma OneMoreDraining<R>(l: Limits, c: Core<R>, gone: set<Key>, first: Key, now: Time)
    requires Draining(l, c, gone, now) && first in c.entries && first !in gone && Expired(l, c.entries[first], now)
    requires forall k :: k in c.entries && k !in gone ==> Deadline(l, c.entries[first]) <= Deadline(l, c.entries[k])
    ensures Draining(l, c, gone + {first}, now)
  {
    hide Deadline;
  }

  /** A batch for `drainExpired` always exists. */
  lemma {:induction false} BatchExists<R>(l: Limits, c: Core<R>, gone: set<Key>, now: Time) returns (batch: set<Key>)
    requires Draining(l, c, gone, now) && |gone| <= DRAIN_BATCH
    ensures Drains(l, c, batch, now)
    decreases |c.entries.Keys - gone|
  {
    hide Deadline;
    var rest := c.entries.Keys - gone;
    assert forall k :: k in c.entries && k !in gone ==> k in rest;
    batch := gone;
    if |gone| < DRAIN_BATCH && rest != {} {
      var first := Earliest(l, c.entries, rest);
      if Expired(l, c.entries[first], now) {
        OneMoreDraining(l, c, gone, first, now);
        assert c.entries.Keys - (gone + {first}) == rest - {first};
        batch := BatchExists(l, c, gone + {first}, now);
      }
    }
  }

  /** The move goes on with this thread's operation, and is not a cancellation, a
      timeout, a failing build or a delivery of events. */
  ghost predicate Drives(move: Move, t: Tid) {
    match move
    case Inside(step) => step.t == t && !step.Cancel? && !step.TimeOut? && !step.Deliver? && !step.FailBuild?
    case Advance(c) => c == t.call
    case _ => false
  }

  /** Whatever these recognizer results lead to, the build can end now with it. */
  ghost predicate CanEndWith(cfg: Config, a: App, t: Tid, results: seq<Finding>) {
    exists gone :: Allowed(cfg, a, Build(t, results, a.store.clock, a.store.clock, gone))
  }

  /** A building thread can end its build with any recognizer results, failures and
      successes alike; any other thread can go on. */
  ghost predicate CanMove(cfg: Config, a: App, t: Tid) {
    if t in a.store.threads && a.store.threads[t].pc.Building? then
      t.call in a.calls &&
      forall results :: FitsInMemory(a.calls[t.call].req.text, results) ==> CanEndWith(cfg, a, t, results)
    else
      exists move :: Drives(move, t) && Allowed(cfg, a, move)
  }

  lemma CallerIsAdmitted(cfg: Config, a: App, t: Tid)
    requires AppInv(cfg, a) && t in a.store.threads && t.call in a.calls
    ensures Denied(cfg, a.calls[t.call].req) == None && !a.store.threads[t].op.CleanOp?
    ensures a.store.threads[t].pc.Building? || a.store.threads[t].pc.Finishing? ==> a.store.threads[t].op.CreateOp?
  {
    hide Inv, History, RestorersUnique, StoreObserver.Conserved, HoldersMatch, LinksMatch, KeysFree, AllMade,
      AllOwnWork,
      AllRun, AllJustified, AllMarked, Marks, KeyFor, Denied;
    assert Serves(a.calls, t, a.store.threads[t].op);
    assert t in a.store.threads.Keys;
    assert ThreadOk(t, a.store.cells, a.store.threads);
  }

  /** Every result of the recognizers can be published, or refused, at once. */
  lemma BuildCanEnd(cfg: Config, a: App, t: Tid, results: seq<Finding>)
    requires AppInv(cfg, a) && t in a.store.threads && t.call in a.calls && a.store.threads[t].pc.Building?
    requires FitsInMemory(a.calls[t.call].req.text, results)
    ensures CanEndWith(cfg, a, t, results)
  {
    hide AppInv, Built, FitsInMemory;
    CallerIsAdmitted(cfg, a, t);
    NoneDraining(cfg.limits, a.store.core, a.store.clock);
    var gone := BatchExists(cfg.limits, a.store.core, {}, a.store.clock);
    assert Allowed(cfg, a, Build(t, results, a.store.clock, a.store.clock, gone));
  }

  lemma ThreadCanMove(cfg: Config, a: App, t: Tid)
    requires AppInv(cfg, a) && t in a.store.threads && t.call in a.calls
    requires a.store.threads[t].pc.Ready? || a.store.threads[t].pc.Building? || a.store.threads[t].pc.Finishing?
    ensures CanMove(cfg, a, t)
  {
    hide AppInv, FitsInMemory, CanEndWith;
    var s := a.store;
    if s.threads[t].pc.Building? {
      forall results | FitsInMemory(a.calls[t.call].req.text, results) ensures CanEndWith(cfg, a, t, results) {
        BuildCanEnd(cfg, a, t, results);
      }
    } else {
      CallerIsAdmitted(cfg, a, t);
      NoneDraining(cfg.limits, s.core, s.clock);
      var gone := BatchExists(cfg.limits, s.core, {}, s.clock);
      var move :=
        if s.threads[t].pc.Finishing? then Inside(DoFinish(t))
        else if s.threads[t].op.GetOp? then Inside(DoGet(t, s.clock))
        else if s.threads[t].op.CreateOp? then Inside(DoBegin(t, s.clock, gone))
        else Inside(DoMark(t, s.clock));
      assert Drives(move, t) && Allowed(cfg, a, move);
    }
  }

  /** No call is ever stuck: until it has answered, some thread can move that is
      either its own or the creator it waits for, without any timeout, cancellation
      or new request; if that thread builds, its build can succeed as well as fail. */
  lemma CallsNeverStick(cfg: Config, a: App, c: nat)
    requires Reached(cfg, a) && c in a.calls && !a.calls[c].phase.Replied?
    ensures var t := Tid(c, Stage(a.calls[c].phase));
            && t in a.store.threads
            && (CanMove(cfg, a, t) ||
                (a.store.threads[t].pc.Waiting? && CanMove(cfg, a, a.store.threads[t].pc.on)))
  {
    hide Reached, AppInv, CanMove, Enabled;
    ReachableHolds(cfg, a);
    CallFacts(cfg, a, c);
    var t := Tid(c, Stage(a.calls[c].phase));
    match a.store.threads[t].pc {
      case Done(_, _) => AdvanceCanMove(cfg, a, c);
      case Waiting(on) => WaiterCanMove(cfg, a, t);
      case _ => ThreadCanMove(cfg, a, t);
    }
  }

  lemma AdvanceCanMove(cfg: Config, a: App, c: nat)
    requires Allowed(cfg, a, Advance(c))
    ensures CanMove(cfg, a, Tid(c, Stage(a.calls[c].phase)))
  {
    hide FitsInMemory;
    assert Drives(Advance(c), Tid(c, Stage(a.calls[c].phase)));
  }

  lemma WaiterCanMove(cfg: Config, a: App, t: Tid)
    requires AppInv(cfg, a) && t in a.store.threads && t.call in a.calls && a.store.threads[t].pc.Waiting?
    ensures CanMove(cfg, a, t) || CanMove(cfg, a, a.store.threads[t].pc.on)
  {
    hide SysInv, AllServe, AllRun, AllJustified, Admitted, AllMade, AllOwnWork, AllMarked, CanMove;
    var on := a.store.threads[t].pc.on;
    WaitedCreator(cfg, a, t);
    if a.store.cells[on].Closed? {
      assert CanMove(cfg, a, t) by {
        assert Drives(Inside(Wake(t)), t) && Allowed(cfg, a, Inside(Wake(t)));
        UnfoldCanMove(cfg, a, t, Inside(Wake(t)));
      }
    } else {
      ThreadCanMove(cfg, a, on);
    }
  }

  lemma UnfoldCanMove(cfg: Config, a: App, t: Tid, move: Move)
    requires Drives(move, t) && Allowed(cfg, a, move)
    requires t in a.store.threads ==> !a.store.threads[t].pc.Building?
    ensures CanMove(cfg, a, t)
  {
    hide Drives, Allowed;
  }

  lemma WaitedCreator(cfg: Config, a: App, t: Tid)
    requires AppInv(cfg, a) && t in a.store.threads && a.store.threads[t].pc.Waiting?
    ensures var on := a.store.threads[t].pc.on;
            && on in a.store.cells && on in a.store.threads && on.call in a.calls
            && (a.store.cells[on].Open? ==> a.store.threads[on].pc.Building? || a.store.threads[on].pc.Finishing?)
  {
    hide Inv, History, RestorersUnique, StoreObserver.Conserved, HoldersMatch, LinksMatch, KeysFree, AllMade,
      AllOwnWork,
      AllRun, AllJustified, AllMarked, Marks, KeyFor, Denied, Admitted;
    var on := a.store.threads[t].pc.on;
    assert ThreadOk(t, a.store.cells, a.store.threads);
    assert CellOk(on, a.store.cells, a.store.threads);
    assert Serves(a.calls, on, a.store.threads[on].op);
  }

  /** A call whose operation has returned does go on. */
  lemma AdvanceGoesOn(cfg: Config, a: App, c: nat)
    requires Reached(cfg, a) && Allowed(cfg, a, Advance(c))
    ensures var before, now := a.calls[c].phase, Next(cfg, a, Advance(c)).calls[c].phase;
            now.Replied? || Stage(now) > Stage(before)
  {
    hide Reached, AppInv, Decide, KeyFor;
    ReachableHolds(cfg, a);
    CallFacts(cfg, a, c);
  }

  // ---- Keys -----------------------------------------------------------------------

  /** Two served calls use one record exactly if they have the same identifier and are
      both `Process` calls or both of the same consumer. */
  lemma KeysSeparateConsumers(cfg: Config, r: Request, q: Request)
    requires NamesOk(cfg.consumers)
    requires !r.ProcessReq? ==> r.consumer in cfg.consumers
    requires !q.ProcessReq? ==> q.consumer in cfg.consumers
    ensures KeyFor(r) == KeyFor(q) <==>
            && r.id == q.id && (r.ProcessReq? <==> q.ProcessReq?)
            && (!r.ProcessReq? && !q.ProcessReq? ==> r.consumer == q.consumer)
  {
    hide KeyOf;
    KeysAreInjective(Scope(r), r.id, Scope(q), q.id);
  }

  // ---- Reservations -----------------------------------------------------------------

  /** While a call builds, the store holds for it 128 bytes, its key, its text and 64
      more, and one slot. */
  lemma BuildersAreCharged(cfg: Config, a: App, t: Tid)
    requires Reached(cfg, a) && t in a.store.threads && t.call in a.calls && a.store.threads[t].pc.Building?
    ensures t in a.store.core.active
    ensures a.store.core.active[t] == 128 + |KeyFor(a.calls[t.call].req)| + |a.calls[t.call].req.text| + 64
  {
    hide Reached, SysInv, AllMade, AllOwnWork, AllRun, AllJustified, AllMarked, Admitted, Marks, KeyFor, Effects;
    ReachableHolds(cfg, a);
    ReachedIsReachable(cfg, a);
    AccountsAreExact(cfg.limits, a.store);
    assert t in Builders(a.store.threads);
    assert Serves(a.calls, t, a.store.threads[t].op);
  }
}

/** What a call leaves behind: the version it creates, the mark it makes, and nothing
    at all when it is denied. */
module AppEffects {
  import opened Bytes
  import opened Expiry
  import Totals
  import opened StoreCore
  import opened StoreSteps
  import opened StoreProtocol
  import opened StoreHistory
  import opened StoreSafety
  import opened Pipeline
  import PipelineFacts
  import opened AppSteps
  import opened AppProtocol

  // ---- The invariant ----------------------------------------------------------

  /** While th, its creating thread, has not returned, the call creates; and once th
      has created a record, the call can only be answered with the new mask. */
  ghost predicate Creation(call: Call, th: Thread) {
    || call.phase.Creating?
    || (th.pc.Done? &&
        (th.pc.answer.Created? ==>
           call.phase == Replied(Text(th.pc.answer.rec.content.masked, NewMask), Some(th.pc.answer.rec))))
  }

  ghost predicate AllCreations(calls: Calls, threads: Threads) {
    forall c :: c in calls && Tid(c, 1) in threads ==> Creation(calls[c], threads[Tid(c, 1)])
  }

  /** The creator of version v is about to return it, or has. */
  predicate Holds(pc: Pc, v: nat) {
    match pc
    case Finishing(Delivers(rec)) => rec.version == v
    case Done(Created(rec), _) => rec.version == v
    case _ => false
  }

  /** Every version is held by the creating thread of the call that made it. */
  ghost predicate AllHeld(made: map<nat, Making>, threads: Threads) {
    forall v :: v in made ==> Tid(made[v].call, 1) in threads && Holds(threads[Tid(made[v].call, 1)].pc, v)
  }

  ghost predicate IsNewMask(phase: Phase) {
    phase.Replied? && phase.final.Text? && phase.final.kind.NewMask?
  }

  /** A call answered with a new mask has made the version itself. */
  ghost predicate OwnMask(call: Call, c: nat, made: map<nat, Making>) {
    IsNewMask(call.phase) ==>
      call.phase.cause.Some? && call.phase.cause.value.version in made && made[call.phase.cause.value.version].call == c
  }

  ghost predicate AllOwnMasks(calls: Calls, made: map<nat, Making>) {
    forall c :: c in calls ==> OwnMask(calls[c], c, made)
  }

  /** A returned `MarkRestored` has moved the version to its replay phase, unless the
      version expired in its pending phase or there is no replay phase. */
  ghost predicate Effective(l: Limits, past: Past, v: nat, clock: Time) {
    v in past.born && (v in past.restoredAt || Expired(l, past.born[v].rec, clock) || l.replayTtl <= 0)
  }

  ghost predicate AllEffective(l: Limits, threads: Threads, past: Past, clock: Time) {
    forall t :: t in threads && threads[t].op.MarkOp? && threads[t].pc.Done? ==>
      Effective(l, past, threads[t].op.version, clock)
  }

  /** A denied call has been refused for that very reason. */
  ghost predicate RefusedIfDenied(cfg: Config, call: Call) {
    Denied(cfg, call.req).Some? ==> call.phase == Replied(Rejected(Denied(cfg, call.req).value), None)
  }

  ghost predicate AllRefused(cfg: Config, calls: Calls) {
    forall c :: c in calls ==> RefusedIfDenied(cfg, calls[c])
  }

  ghost predicate Effects(cfg: Config, a: App) {
    && AllCreations(a.calls, a.store.threads)
    && AllHeld(a.made, a.store.threads)
    && AllOwnMasks(a.calls, a.made)
    && AllEffective(cfg.limits, a.store.threads, a.store.past, a.store.clock)
    && AllRefused(cfg, a.calls)
  }

  // ---- Calls ------------------------------------------------------------------

  ghost predicate CallOk(cfg: Config, call: Call, c: nat, threads: Threads, made: map<nat, Making>) {
    && (Tid(c, 1) in threads ==> Creation(call, threads[Tid(c, 1)]))
    && OwnMask(call, c, made) && RefusedIfDenied(cfg, call)
  }

  /** One call moves on, and perhaps one thread of its own, ready to run, joins. */
  lemma CallEffects(cfg: Config, a: App, c: nat, call: Call, t: Tid, th: Thread)
    requires Effects(cfg, a) && t.call == c && (t in a.store.threads || th.pc.Ready?)
    requires t in a.store.threads ==> a.store.threads[t] == th
    requires CallOk(cfg, call, c, a.store.threads[t := th], a.made)
    ensures Effects(cfg, a.(store := a.store.(threads := a.store.threads[t := th]), calls := a.calls[c := call]))
  {
    hide Creation, Holds, OwnMask, Effective, RefusedIfDenied;
  }

  lemma NoThreadEffects(cfg: Config, a: App, c: nat, call: Call)
    requires Effects(cfg, a) && CallOk(cfg, call, c, a.store.threads, a.made)
    ensures Effects(cfg, a.(calls := a.calls[c := call]))
  {
    hide Creation, Holds, OwnMask, Effective, RefusedIfDenied;
  }

  lemma EnterEffects(cfg: Config, a: App, c: nat, req: Request)
    requires AppInv(cfg, a) && Effects(cfg, a) && Allowed(cfg, a, Enter(c, req))
    ensures Effects(cfg, Next(cfg, a, Enter(c, req)))
  {
    hide AppInv, Effects, KeyFor;
    match Denied(cfg, req) {
      case Some(refusal) =>
        NoThreadEffects(cfg, a, c, Call(req, Replied(Rejected(refusal), None)));
      case None =>
        CallEffects(cfg, a, c, Call(req, Getting), Tid(c, 0), Thread(GetOp(KeyFor(req)), Ready, NOTHING));
    }
  }

  lemma CallIsOk(cfg: Config, a: App, c: nat)
    requires Effects(cfg, a) && c in a.calls
    ensures CallOk(cfg, a.calls[c], c, a.store.threads, a.made)
  {
    hide Creation, OwnMask, RefusedIfDenied;
  }

  /** A decision is never a new mask. */
  lemma DecisionIsNoNewMask(req: Request, c: Content)
    ensures Decide(req, c).reply.Text? ==> !Decide(req, c).reply.kind.NewMask?
  {
    hide PipelineFacts.RestoredText, Sliceable;
  }

  /** The call settles on a record it has not created. */
  lemma SettleEffects(cfg: Config, a: App, c: nat, rec: Record)
    requires Effects(cfg, a) && c in a.calls && Tid(c, 2) !in a.store.threads && Denied(cfg, a.calls[c].req) == None
    requires Tid(c, 1) in a.store.threads ==>
               a.store.threads[Tid(c, 1)].pc.Done? && !a.store.threads[Tid(c, 1)].pc.answer.Created?
    ensures Effects(cfg, Settle(cfg, a, c, rec))
  {
    hide Effects, Decide, Denied, KeyFor;
    var req := a.calls[c].req;
    var d := Decide(req, rec.content);
    DecisionIsNoNewMask(req, rec.content);
    if d.marks {
      var th := Thread(MarkOp(KeyFor(req), rec.version), Ready, NOTHING);
      CallEffects(cfg, a, c, Call(req, Marking(rec, d.reply)), Tid(c, 2), th);
    } else {
      NoThreadEffects(cfg, a, c, Call(req, Replied(d.reply, Some(rec))));
    }
  }

  /** The call is refused, or answers what it decided before. */
  lemma AnsweredEffects(cfg: Config, a: App, c: nat, reply: Reply, cause: Option<Record>)
    requires Effects(cfg, a) && c in a.calls && Denied(cfg, a.calls[c].req) == None
    requires Tid(c, 1) in a.store.threads ==>
             Creation(Call(a.calls[c].req, Replied(reply, cause)), a.store.threads[Tid(c, 1)])
    requires OwnMask(Call(a.calls[c].req, Replied(reply, cause)), c, a.made)
    ensures Effects(cfg, Answered(a, c, reply, cause))
  {
    hide Effects, Denied, Creation, OwnMask;
    NoThreadEffects(cfg, a, c, a.calls[c].(phase := Replied(reply, cause)));
  }

  lemma MarkingEffects(cfg: Config, a: App, c: nat)
    requires AppInv(cfg, a) && Effects(cfg, a) && c in a.calls && a.calls[c].phase.Marking?
    ensures Effects(cfg, Answered(a, c, a.calls[c].phase.reply, Some(a.calls[c].phase.rec)))
  {
    hide AppInv, Effects, Denied, Known, KeyFor, Decide;
    CallFacts(cfg, a, c);
    CallIsOk(cfg, a, c);
    DecisionIsNoNewMask(a.calls[c].req, a.calls[c].phase.rec.content);
    AnsweredEffects(cfg, a, c, a.calls[c].phase.reply, Some(a.calls[c].phase.rec));
  }

  lemma CreateEffects(cfg: Config, a: App, c: nat)
    requires Effects(cfg, a) && c in a.calls && Denied(cfg, a.calls[c].req) == None && Tid(c, 1) !in a.store.threads
    ensures var req := a.calls[c].req; var key := KeyFor(req);
            Effects(cfg, a.(store := Started(cfg.limits, a.store, Tid(c, 1),
                                              CreateOp(key, MinRecordSize(key, |req.text|))),
                            calls := a.calls[c := Call(req, Creating)]))
  {
    hide Effects, Denied, KeyFor;
    var req := a.calls[c].req;
    var key := KeyFor(req);
    CallEffects(cfg, a, c, Call(req, Creating), Tid(c, 1),
                Thread(CreateOp(key, MinRecordSize(key, |req.text|)), Ready, NOTHING));
  }

  lemma AdvanceEffects(cfg: Config, a: App, c: nat)
    requires AppInv(cfg, a) && Effects(cfg, a) && Allowed(cfg, a, Advance(c))
    ensures Effects(cfg, Next(cfg, a, Advance(c)))
  {
    hide AppInv, Effects, Started, Settle, Answered, KeyFor, Known, Decide, Denied;
    CallFacts(cfg, a, c);
    CallIsOk(cfg, a, c);
    var phase := a.calls[c].phase;
    if phase.Marking? {
      MarkingEffects(cfg, a, c);
    } else {
      match a.store.threads[Tid(c, Stage(phase))].pc.answer {
        case Looked(None) =>
          if a.calls[c].req.RestoreReq? {
            AnsweredEffects(cfg, a, c, Rejected(NotFound), None);
          } else if phase.Getting? {
            CreateEffects(cfg, a, c);
          }
        case Looked(Some(rec)) => SettleEffects(cfg, a, c, rec);
        case Existed(rec) => SettleEffects(cfg, a, c, rec);
        case Created(rec) => AnsweredEffects(cfg, a, c, Text(rec.content.masked, NewMask), Some(rec));
        case Failed(error) => AnsweredEffects(cfg, a, c, Rejected(RefusalFor(error)), None);
        case _ =>
      }
    }
  }

  // ---- The store moves --------------------------------------------------------

  lemma ThreadsMoveOn(cfg: Config, a: App, s: Sys)
    requires Effects(cfg, a) && s.threads.Keys == a.store.threads.Keys
    requires forall t :: t in s.threads ==> KeptOn(a.store.threads[t], s.threads[t])
    ensures AllCreations(a.calls, s.threads) && AllHeld(a.made, s.threads)
  {
    hide AllOwnMasks, AllRefused, AllEffective;
    forall c | c in a.calls && Tid(c, 1) in s.threads ensures Creation(a.calls[c], s.threads[Tid(c, 1)]) {
      assert Creation(a.calls[c], a.store.threads[Tid(c, 1)]);
      assert KeptOn(a.store.threads[Tid(c, 1)], s.threads[Tid(c, 1)]);
    }
    forall v | v in a.made
      ensures Tid(a.made[v].call, 1) in s.threads && Holds(s.threads[Tid(a.made[v].call, 1)].pc, v)
    {
      var t := Tid(a.made[v].call, 1);
      assert Holds(a.store.threads[t].pc, v) && KeptOn(a.store.threads[t], s.threads[t]);
    }
  }

  /** An effective mark stays effective. */
  lemma StillEffective(l: Limits, past: Past, past': Past, v: nat, clock: Time, clock': Time)
    requires Effective(l, past, v, clock) && Grows(past, past') && clock <= clock'
    ensures Effective(l, past', v, clock')
  {
  }

  lemma EffectiveMoves(l: Limits, s: Sys, s': Sys)
    requires AllEffective(l, s.threads, s.past, s.clock) && Grows(s.past, s'.past) && s.clock <= s'.clock
    requires s'.threads.Keys == s.threads.Keys && forall t :: t in s.threads ==> KeptOn(s.threads[t], s'.threads[t])
    requires forall t :: t in s'.threads && s'.threads[t].op.MarkOp? && s'.threads[t].pc.Done? ==>
               s.threads[t].pc.Done? || Effective(l, s'.past, s'.threads[t].op.version, s'.clock)
    ensures AllEffective(l, s'.threads, s'.past, s'.clock)
  {
    hide Effective, Grows;
    forall t | t in s'.threads && s'.threads[t].op.MarkOp? && s'.threads[t].pc.Done?
      ensures Effective(l, s'.past, s'.threads[t].op.version, s'.clock)
    {
      assert KeptOn(s.threads[t], s'.threads[t]);
      if s.threads[t].pc.Done? {
        StillEffective(l, s.past, s'.past, s.threads[t].op.version, s.clock, s'.clock);
      }
    }
  }

  /** Only `MarkRestored` itself returns a mark. */
  lemma NoMarkReturns(l: Limits, s: Sys, step: Step, t: Tid)
    requires SysInv(l, s) && Enabled(l, s, step) && !step.Spawn? && !step.DoMark? && t in s.threads
    requires s.threads[t].op.MarkOp?
    ensures t in Apply(l, s, step).threads
    ensures Apply(l, s, step).threads[t].pc.Done? ==> s.threads[t].pc.Done?
  {
    hide Inv, Protocol, History, RestorersUnique, StoreObserver.Conserved, Drained, DrainEvents, Begin, StoreCore.Get,
      StoreCore.Publish, Drains, Released, Unlinked;
    if step.t == t && (step.Wake? || step.TimeOut?) {
      WaiterCreates(l, s, t);
    }
  }

  /** A version that is pending, live and stored is marked. */
  lemma MarkIsEffective(l: Limits, s: Sys, t: Tid, now: Time, rec: Record)
    requires History(l, s) && Enabled(l, s, DoMark(t, now))
    requires Known(rec, s.threads[t].op.key, s.past) && rec.version == s.threads[t].op.version
    ensures var s' := Apply(l, s, DoMark(t, now)); Effective(l, s'.past, rec.version, s'.clock)
  {
    hide EntriesOk, PlainOk, ThreadsKnow, Expired, BornOk;
    var v := rec.version;
    if v !in s.past.restoredAt && !Expired(l, s.past.born[v].rec, now) {
      ExpiredStays(l, s.past.born[v].rec, s.clock, now);
      assert Current(s.past, v) == s.past.born[v].rec;
      BornPending(s, v);
    }
  }

  lemma BornPending(s: Sys, v: nat)
    requires BornOk(s.core.nextVer, s.past) && v in s.past.born
    ensures s.past.born[v].rec.version == v && !InReplay(s.past.born[v].rec)
  {
  }

  lemma MarkEffect(cfg: Config, a: App, t: Tid, now: Time)
    requires AppInv(cfg, a) && Enabled(cfg.limits, a.store, DoMark(t, now))
    ensures var s' := Apply(cfg.limits, a.store, DoMark(t, now));
            Effective(cfg.limits, s'.past, a.store.threads[t].op.version, s'.clock)
  {
    hide Inv, Protocol, RestorersUnique, StoreObserver.Conserved, History, AllMade, AllOwnWork, AllRun, AllMarked,
      Admitted, Enabled, Apply, KeyFor, Known, Decide;
    ThreadWaits(cfg.limits, a.store, t, now);
    assert Serves(a.calls, t, a.store.threads[t].op);
    var call := a.calls[t.call];
    assert Justified(call, a.store.past);
    MarkIsEffective(cfg.limits, a.store, t, now, Acted(call.phase).value);
  }

  lemma ThreadWaits(l: Limits, s: Sys, t: Tid, now: Time)
    requires Enabled(l, s, DoMark(t, now))
    ensures t in s.threads && s.threads[t].op.MarkOp?
  {
  }

  lemma StoreEffects(cfg: Config, a: App, step: Step)
    requires AppInv(cfg, a) && Effects(cfg, a) && Enabled(cfg.limits, a.store, step) && !step.Spawn?
    ensures var s' := Apply(cfg.limits, a.store, step);
            && AllCreations(a.calls, s'.threads) && AllHeld(a.made, s'.threads)
            && AllEffective(cfg.limits, s'.threads, s'.past, s'.clock)
  {
    hide AppInv, Effects, Enabled, Apply, SysInv, AllCreations, AllHeld, AllEffective, Effective, Grows, KeptOn;
    var s' := Apply(cfg.limits, a.store, step);
    InvParts(cfg, a);
    StoreMoves(cfg.limits, a.store, step);
    ThreadsMoveOn(cfg, a, s');
    EffectsParts(cfg, a);
    forall t | t in s'.threads && s'.threads[t].op.MarkOp? && s'.threads[t].pc.Done?
      ensures a.store.threads[t].pc.Done? || Effective(cfg.limits, s'.past, s'.threads[t].op.version, s'.clock)
    {
      SameOp(a.store.threads[t], s'.threads[t]);
      if step.DoMark? && step.t == t {
        MarkEffect(cfg, a, t, step.now);
      } else {
        MarkOrNot(cfg.limits, a.store, step, t);
      }
    }
    EffectiveMoves(cfg.limits, a.store, s');
  }

  lemma SameOp(x: Thread, y: Thread)
    requires KeptOn(x, y)
    ensures y.op == x.op
  {
  }

  lemma MarkOrNot(l: Limits, s: Sys, step: Step, t: Tid)
    requires SysInv(l, s) && Enabled(l, s, step) && !step.Spawn? && t in s.threads && s.threads[t].op.MarkOp?
    requires step.DoMark? ==> step.t != t
    ensures t in Apply(l, s, step).threads
    ensures Apply(l, s, step).threads[t].pc.Done? ==> s.threads[t].pc.Done?
  {
    hide SysInv, MayRestore, Expired;
    if !step.DoMark? {
      NoMarkReturns(l, s, step, t);
    }
  }

  lemma EffectsParts(cfg: Config, a: App)
    requires Effects(cfg, a)
    ensures AllEffective(cfg.limits, a.store.threads, a.store.past, a.store.clock)
    ensures AllOwnMasks(a.calls, a.made) && AllRefused(cfg, a.calls)
  {
    hide AllEffective, AllOwnMasks, AllRefused;
  }

  // ---- Publishing -------------------------------------------------------------

  lemma OneMoreHeld(calls: Calls, made: map<nat, Making>, threads: Threads, t: Tid, m: Making, rec: Record)
    requires AllHeld(made, threads) && AllOwnMasks(calls, made) && rec.version !in made
    requires t == Tid(m.call, 1) && t in threads && threads[t].pc == Finishing(Delivers(rec))
    ensures AllHeld(made[rec.version := m], threads) && AllOwnMasks(calls, made[rec.version := m])
  {
    forall c | c in calls ensures OwnMask(calls[c], c, made[rec.version := m]) {
      assert OwnMask(calls[c], c, made);
    }
  }

  lemma BuilderStage(cfg: Config, a: App, t: Tid)
    requires AppInv(cfg, a) && CanBuild(cfg, a, t)
    ensures t == Tid(t.call, 1)
  {
    hide SysInv, AllMade, AllOwnWork, AllRun, AllJustified, AllMarked, Admitted, Marks, KeyFor, Denied;
    assert Serves(a.calls, t, a.store.threads[t].op);
  }

  lemma PublishEffects(cfg: Config, a: App, t: Tid, results: seq<Finding>, drainedAt: Time, at: Time, gone: set<Key>)
    requires AppInv(cfg, a) && Effects(cfg, a) && Allowed(cfg, a, Build(t, results, drainedAt, at, gone))
    requires BuildResult(cfg, a, t, results).Some?
    ensures Effects(cfg, Next(cfg, a, Build(t, results, drainedAt, at, gone)))
  {
    hide AppInv, Enabled, Apply, SysInv, PipelineFacts.FitsInMemory, AllCreations, AllHeld, AllEffective, AllOwnMasks,
      AllRefused, Built, CanBuild, Grows;
    var content := BuildResult(cfg, a, t, results).value;
    var step := DoPublish(t, content, drainedAt, at, gone);
    var s' := Apply(cfg.limits, a.store, step);
    InvParts(cfg, a);
    StoreEffects(cfg, a, step);
    PublishedVersion(cfg.limits, a.store, t, content, drainedAt, at, gone);
    BuilderStage(cfg, a, t);
    if s'.core.nextVer != a.store.core.nextVer {
      MadeAreBorn(cfg, a);
      OneMoreHeld(a.calls, a.made, s'.threads, t, Making(t.call, results), s'.threads[t].pc.outcome.rec);
    }
  }

  lemma MadeAreBorn(cfg: Config, a: App)
    requires AppInv(cfg, a)
    ensures a.made.Keys == a.store.past.born.Keys
  {
    hide SysInv, MadeBy;
  }

  lemma BuildEffects(cfg: Config, a: App, t: Tid, results: seq<Finding>, drainedAt: Time, at: Time, gone: set<Key>)
    requires AppInv(cfg, a) && Effects(cfg, a) && Allowed(cfg, a, Build(t, results, drainedAt, at, gone))
    ensures Effects(cfg, Next(cfg, a, Build(t, results, drainedAt, at, gone)))
  {
    hide AppInv, Apply, Enabled, Built, PipelineFacts.FitsInMemory, Denied, AllCreations, AllHeld, AllEffective,
      AllOwnMasks, AllRefused;
    if BuildResult(cfg, a, t, results).Some? {
      PublishEffects(cfg, a, t, results, drainedAt, at, gone);
    } else {
      CanFail(cfg, a, t);
      StoreEffects(cfg, a, FailBuild(t, ERR_RECOGNITION));
    }
  }

  lemma InsideEffect(cfg: Config, a: App, step: Step)
    requires AppInv(cfg, a) && Effects(cfg, a) && Allowed(cfg, a, Inside(step))
    ensures Effects(cfg, Next(cfg, a, Inside(step)))
  {
    hide AppInv, Apply, Enabled, AllCreations, AllHeld, AllEffective, AllOwnMasks, AllRefused;
    StoreEffects(cfg, a, step);
  }

  lemma CleanEffects(cfg: Config, a: App, t: Tid)
    requires Effects(cfg, a) && Allowed(cfg, a, Clean(t))
    ensures Effects(cfg, Next(cfg, a, Clean(t)))
  {
    hide Creation, Holds, OwnMask, Effective, RefusedIfDenied;
  }

  lemma EffectsKeep(cfg: Config, a: App, move: Move)
    requires AppInv(cfg, a) && Effects(cfg, a) && Allowed(cfg, a, move)
    ensures Effects(cfg, Next(cfg, a, move))
  {
    hide AppInv, Effects, Allowed, Next;
    match move
    case Enter(c, req) => EnterEffects(cfg, a, c, req);
    case Inside(step) => InsideEffect(cfg, a, step);
    case Build(t, results, drainedAt, at, gone) => BuildEffects(cfg, a, t, results, drainedAt, at, gone);
    case Clean(t) => CleanEffects(cfg, a, t);
    case Advance(c) => AdvanceEffects(cfg, a, c);
  }
}

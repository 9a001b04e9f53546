/** How old the record may be that a call is answered from: it was live during the
    call, or it came from the creator that the call waited for. */
module AppFreshness {
  import opened Bytes
  import opened Expiry
  import Totals
  import opened StoreCore
  import opened StoreSteps
  import opened StoreProtocol
  import opened StoreHistory
  import opened StoreSafety
  import opened Handouts
  import opened Pipeline
  import PipelineFacts
  import opened AppSteps
  import opened AppProtocol
  import opened AppEffects
  import opened AppSafety
  import opened AppRuns

  // ---- The invariant ----------------------------------------------------------

  /** At this time the record has been published, is in this very phase, and has not
      expired. */
  ghost predicate Standing(l: Limits, rec: Record, at: Time) {
    rec.createdAt <= at && (InReplay(rec) ==> rec.firstRestoreAt.value <= at) && !Expired(l, rec, at)
  }

  ghost predicate Met(l: Limits, rec: Record, since: Time, until: Time) {
    exists at :: since <= at <= until && Standing(l, rec, at)
  }

  /** No version was published or made its transition later than now. */
  ghost predicate PastIsPast(past: Past, clock: Time) {
    && (forall v :: v in past.born ==> past.born[v].rec.createdAt <= clock)
    && (forall v :: v in past.restoredAt ==> past.restoredAt[v] <= clock)
  }

  /** The thread was answered from the reservation of another. */
  ghost predicate FromAnother(pc: Pc) {
    pc.Done? && pc.answer.Existed? && pc.via.Some?
  }

  ghost predicate ThreadFresh(l: Limits, pc: Pc, since: Time, until: Time) {
    RecordOf(pc).Some? && !FromAnother(pc) ==> Met(l, RecordOf(pc).value, since, until)
  }

  ghost predicate ThreadsFresh(l: Limits, threads: Threads, c: nat, since: Time, until: Time) {
    forall t :: t in threads && t.call == c ==> ThreadFresh(l, threads[t].pc, since, until)
  }

  /** The creating operation of call c waited for another creator, and got rec from it. */
  ghost predicate HandedOver(threads: Threads, c: nat, rec: Record) {
    Tid(c, 1) in threads && FromAnother(threads[Tid(c, 1)].pc) && threads[Tid(c, 1)].pc.answer.rec == rec
  }

  ghost predicate CallFresh(l: Limits, call: Call, c: nat, threads: Threads, since: Time, until: Time) {
    Acted(call.phase).Some? ==>
      Met(l, Acted(call.phase).value, since, until) || HandedOver(threads, c, Acted(call.phase).value)
  }

  ghost predicate StoreFresh(l: Limits, s: Sys, c: nat, since: Time) {
    && SysInv(l, s) && PastIsPast(s.past, s.clock) && since <= s.clock
    && ThreadsFresh(l, s.threads, c, since, s.clock)
  }

  ghost predicate Fresh(l: Limits, a: App, c: nat, req: Request, since: Time) {
    && StoreFresh(l, a.store, c, since) && c in a.calls && a.calls[c].req == req
    && CallFresh(l, a.calls[c], c, a.store.threads, since, a.store.clock)
  }

  // ---- Steps of the store -------------------------------------------------------

  lemma PastStep(l: Limits, s: Sys, step: Step)
    requires PastIsPast(s.past, s.clock) && Enabled(l, s, step)
    ensures PastIsPast(Apply(l, s, step).past, Apply(l, s, step).clock)
  {
    hide Totals.Total, Removals, RecordSize, Drained, DrainEvents, Drains, PublishRefusal, Released, Unlinked, Begin,
      StoreCore.Get, MayRestore, Expired;
  }

  lemma {:induction false} PastRun(l: Limits, s: Sys, steps: seq<Step>)
    requires PastIsPast(s.past, s.clock) && Runs(l, s, steps)
    ensures PastIsPast(Exec(l, s, steps).past, Exec(l, s, steps).clock)
    decreases |steps|
  {
    hide PastIsPast, Enabled, Apply;
    if steps != [] {
      PastStep(l, s, steps[0]);
      PastRun(l, Apply(l, s, steps[0]), steps[1..]);
    }
  }

  /** Nothing ever lies in the future. */
  lemma NothingIsAhead(l: Limits, s: Sys)
    requires Reachable(l, s)
    ensures PastIsPast(s.past, s.clock)
  {
    hide Runs, Exec;
    var at, steps :| Runs(l, Init(at), steps) && s == Exec(l, Init(at), steps);
    PastRun(l, Init(at), steps);
  }

  lemma MetLonger(l: Limits, rec: Record, since: Time, until: Time, until': Time)
    requires Met(l, rec, since, until) && until <= until'
    ensures Met(l, rec, since, until')
  {
    hide Standing;
  }

  lemma KnownIsMet(l: Limits, rec: Record, key: Key, past: Past, since: Time, clock: Time)
    requires Known(rec, key, past) && PastIsPast(past, clock) && !Expired(l, rec, clock) && since <= clock
    ensures Met(l, rec, since, clock)
  {
    hide Expired;
    assert Standing(l, rec, clock);
  }

  lemma ThreadIsFresh(l: Limits, s: Sys, s': Sys, step: Step, t: Tid, since: Time)
    requires Enabled(l, s, step) && s' == Apply(l, s, step) && t in s'.threads
    requires ThreadsKnow(s'.threads, s'.past) && PastIsPast(s'.past, s'.clock) && since <= s.clock <= s'.clock
    requires t in s.threads ==> ThreadFresh(l, s.threads[t].pc, since, s.clock) && KeptOn(s.threads[t], s'.threads[t])
    ensures ThreadFresh(l, s'.threads[t].pc, since, s'.clock)
  {
    hide Enabled, Apply, Met, Known, PastIsPast, Expired;
    var rec := RecordOf(s'.threads[t].pc);
    if rec.Some? && !FromAnother(s'.threads[t].pc) {
      if t in s.threads && RecordOf(s.threads[t].pc) == rec {
        MetLonger(l, rec.value, since, s.clock, s'.clock);
      } else {
        OwnHandoutsAreLive(l, s, step, t, rec.value);
        assert ThreadKnows(s'.threads[t], s'.past);
        KnownIsMet(l, rec.value, s'.threads[t].op.key, s'.past, since, s'.clock);
      }
    }
  }

  lemma FreshStep(l: Limits, s: Sys, step: Step, c: nat, since: Time)
    requires StoreFresh(l, s, c, since) && Enabled(l, s, step)
    ensures StoreFresh(l, Apply(l, s, step), c, since)
    ensures s.clock <= Apply(l, s, step).clock
    ensures forall t :: t in s.threads ==>
              t in Apply(l, s, step).threads && KeptOn(s.threads[t], Apply(l, s, step).threads[t])
  {
    hide SysInv, Enabled, Apply, PastIsPast, ThreadFresh, KeptOn, ThreadsKnow, Grows;
    var s' := Apply(l, s, step);
    StepKeeps(l, s, step);
    PastStep(l, s, step);
    if step.Spawn? {
      SpawnKeeps(l, s, step);
    } else {
      StoreMoves(l, s, step);
    }
    ThreadsAreKnown(l, s');
    forall t | t in s'.threads && t.call == c ensures ThreadFresh(l, s'.threads[t].pc, since, s'.clock) {
      ThreadIsFresh(l, s, s', step, t, since);
    }
  }

  lemma SpawnKeeps(l: Limits, s: Sys, step: Step)
    requires step.Spawn? && Enabled(l, s, step)
    ensures forall t :: t in s.threads ==>
              t in Apply(l, s, step).threads && KeptOn(s.threads[t], Apply(l, s, step).threads[t])
  {
  }

  lemma ThreadsAreKnown(l: Limits, s: Sys)
    requires SysInv(l, s)
    ensures ThreadsKnow(s.threads, s.past)
  {
    hide ThreadsKnow, Protocol, Inv, RestorersUnique, StoreObserver.Conserved;
  }

  /** Threads only go on, as `KeptOn` says. */
  ghost predicate GoOn(s: Sys, s': Sys) {
    s.clock <= s'.clock && forall t :: t in s.threads ==> t in s'.threads && KeptOn(s.threads[t], s'.threads[t])
  }

  lemma StoreStaysFresh(cfg: Config, a: App, move: Move, c: nat, since: Time)
    requires StoreFresh(cfg.limits, a.store, c, since) && Allowed(cfg, a, move)
    ensures StoreFresh(cfg.limits, Next(cfg, a, move).store, c, since) && GoOn(a.store, Next(cfg, a, move).store)
  {
    hide StoreFresh, Enabled, Apply, Allowed, Next, KeptOn;
    var steps := MoveIsSteps(cfg, a, move);
    if steps == [] {
      SameGoesOn(a.store);
    } else {
      assert steps[1..] == [];
      FreshStep(cfg.limits, a.store, steps[0], c, since);
    }
  }

  lemma SameGoesOn(s: Sys)
    ensures GoOn(s, s)
  {
  }

  // ---- Moves --------------------------------------------------------------------

  /** Moves of others leave the call as it is. */
  lemma CallStands(cfg: Config, a: App, move: Move, c: nat)
    requires c in a.calls && Allowed(cfg, a, move) && move != Advance(c)
    ensures c in Next(cfg, a, move).calls && Next(cfg, a, move).calls[c] == a.calls[c]
  {
    if move.Advance? {
      OtherCallStands(cfg, a, move.call, c);
    } else {
      hide Enabled, Apply, Denied, Built, PipelineFacts.FitsInMemory, KeyFor;
    }
  }

  lemma OtherCallStands(cfg: Config, a: App, d: nat, c: nat)
    requires c in a.calls && d != c && Allowed(cfg, a, Advance(d))
    ensures c in Next(cfg, a, Advance(d)).calls && Next(cfg, a, Advance(d)).calls[c] == a.calls[c]
  {
    hide Allowed, Continue;
    OthersStand(cfg, a, d);
  }

  lemma StandingStaysFresh(cfg: Config, a: App, s': Sys, c: nat, req: Request, since: Time)
    requires Fresh(cfg.limits, a, c, req, since) && GoOn(a.store, s')
    ensures CallFresh(cfg.limits, a.calls[c], c, s'.threads, since, s'.clock)
  {
    hide StoreFresh, Met;
    var call := a.calls[c];
    if Acted(call.phase).Some? && Met(cfg.limits, Acted(call.phase).value, since, a.store.clock) {
      MetLonger(cfg.limits, Acted(call.phase).value, since, a.store.clock, s'.clock);
    }
  }

  lemma AdvanceStaysFresh(cfg: Config, a: App, c: nat, req: Request, since: Time)
    requires AppInv(cfg, a) && Fresh(cfg.limits, a, c, req, since) && Allowed(cfg, a, Advance(c))
    ensures var a' := Next(cfg, a, Advance(c));
            c in a'.calls && CallFresh(cfg.limits, a'.calls[c], c, a'.store.threads, since, a'.store.clock)
  {
    hide AppInv, SysInv, Met, Decide, KeyFor, PastIsPast, MinRecordSize;
    StageAnswers(cfg, a, c);
    var t := Tid(c, Stage(a.calls[c].phase));
    assert ThreadFresh(cfg.limits, a.store.threads[t].pc, since, a.store.clock);
  }

  lemma MoveStaysFresh(cfg: Config, a: App, move: Move, c: nat, req: Request, since: Time)
    requires AppInv(cfg, a) && Fresh(cfg.limits, a, c, req, since) && Allowed(cfg, a, move)
    ensures Fresh(cfg.limits, Next(cfg, a, move), c, req, since)
  {
    hide AppInv, StoreFresh, Allowed, Next, CallFresh, GoOn;
    StoreStaysFresh(cfg, a, move, c, since);
    if move == Advance(c) {
      AdvanceStaysFresh(cfg, a, c, req, since);
      OthersStand(cfg, a, c);
    } else {
      CallStands(cfg, a, move, c);
      StandingStaysFresh(cfg, a, Next(cfg, a, move).store, c, req, since);
    }
  }

  lemma {:induction false} RunStaysFresh(cfg: Config, a: App, moves: seq<Move>, c: nat, req: Request, since: Time)
    requires AppInv(cfg, a) && Effects(cfg, a) && Fresh(cfg.limits, a, c, req, since) && CanRun(cfg, a, moves)
    ensures Fresh(cfg.limits, After(cfg, a, moves), c, req, since)
    decreases |moves|
  {
    hide AppInv, Effects, Fresh, Allowed, Next;
    if moves != [] {
      MoveKeeps(cfg, a, moves[0]);
      MoveStaysFresh(cfg, a, moves[0], c, req, since);
      RunStaysFresh(cfg, Next(cfg, a, moves[0]), moves[1..], c, req, since);
    }
  }

  // ---- Fresh answers --------------------------------------------------------------

  lemma EntersFresh(cfg: Config, a: App, c: nat, req: Request)
    requires AppInv(cfg, a) && PastIsPast(a.store.past, a.store.clock) && Allowed(cfg, a, Enter(c, req))
    ensures Fresh(cfg.limits, Next(cfg, a, Enter(c, req)), c, req, a.store.clock)
  {
    hide AppInv, SysInv, Allowed, Next, PastIsPast, Met;
    EnterKeeps(cfg, a, c, req);
    InvParts(cfg, Next(cfg, a, Enter(c, req)));
    EntersAnew(cfg, a, c, req);
  }

  /** A call enters without a record, and with no operation that has begun to run. */
  lemma EntersAnew(cfg: Config, a: App, c: nat, req: Request)
    requires Allowed(cfg, a, Enter(c, req))
    ensures var a' := Next(cfg, a, Enter(c, req));
            && c in a'.calls && a'.calls[c].req == req && Acted(a'.calls[c].phase) == None
            && a'.store.past == a.store.past && a'.store.clock == a.store.clock
            && forall t :: t in a'.store.threads && t.call == c ==> a'.store.threads[t].pc.Ready?
  {
    hide Denied, KeyFor;
  }

  /** However a run goes on after a call has entered: the record the call acts on or is
      answered from was live, in the very phase in which the call saw it, at some time
      since then, unless the call waited for another creator and was given the record
      by it. */
  lemma AnswersAreFreshUnlessHandedOver(cfg: Config, a: App, c: nat, req: Request, moves: seq<Move>)
    requires Reached(cfg, a) && Allowed(cfg, a, Enter(c, req)) && CanRun(cfg, Next(cfg, a, Enter(c, req)), moves)
    ensures var z := After(cfg, Next(cfg, a, Enter(c, req)), moves);
            && c in z.calls && z.calls[c].req == req
            && (Acted(z.calls[c].phase).Some? ==>
                  Met(cfg.limits, Acted(z.calls[c].phase).value, a.store.clock, z.store.clock) ||
                  HandedOver(z.store.threads, c, Acted(z.calls[c].phase).value))
  {
    hide Reached, AppInv, Effects, Allowed, Next, CanRun, After, PastIsPast, StoreFresh;
    ReachableHolds(cfg, a);
    ReachedIsReachable(cfg, a);
    NothingIsAhead(cfg.limits, a.store);
    EntersFresh(cfg, a, c, req);
    MoveKeeps(cfg, a, Enter(c, req));
    RunStaysFresh(cfg, Next(cfg, a, Enter(c, req)), moves, c, req, a.store.clock);
  }

  /** Every successful answer, in every run: it is justified by one genuine version of
      the call's own key, which the call has made itself if it reports a new mask; and
      the version was live during the call, or was handed over to it. */
  lemma EveryAnswerIsJustifiedInTime(cfg: Config, a: App, c: nat, req: Request, moves: seq<Move>, z: App)
    requires Reached(cfg, a) && Allowed(cfg, a, Enter(c, req)) && Leads(cfg, Next(cfg, a, Enter(c, req)), moves, z)
    requires c in z.calls && z.calls[c].phase.Replied? && z.calls[c].phase.final.Text?
    ensures var call := z.calls[c];
            && call.req == req && call.phase.cause.Some?
            && var rec := call.phase.cause.value;
               && Genuine(cfg, z, rec, KeyFor(req))
               && RightAnswer(req, call.phase.final.text, call.phase.final.kind, rec.content)
               && (call.phase.final.kind.NewMask? ==> z.made[rec.version].call == c)
               && (Met(cfg.limits, rec, a.store.clock, z.store.clock) || HandedOver(z.store.threads, c, rec))
  {
    hide Reached, Allowed, Next, CanRun, After, Genuine, RightAnswer, KeyFor, Met, HandedOver;
    AnswersAreFreshUnlessHandedOver(cfg, a, c, req, moves);
    ReachedOneMore(cfg, a, Enter(c, req));
    ReachedMore(cfg, Next(cfg, a, Enter(c, req)), moves, z);
    EveryAnswerIsJustified(cfg, z, c);
  }

  // ---- Records that were handed over ------------------------------------------------

  /** Once its creating operation has found a record, the call acts on no other. */
  ghost predicate Settled(call: Call, c: nat, threads: Threads) {
    Tid(c, 1) in threads && threads[Tid(c, 1)].pc.Done? && threads[Tid(c, 1)].pc.answer.Existed? ==>
      call.phase.Creating? || Acted(call.phase) == Some(threads[Tid(c, 1)].pc.answer.rec)
  }

  /** The threads a move adds are ready to run. */
  lemma NewThreadsAreReady(cfg: Config, a: App, move: Move, t: Tid)
    requires Allowed(cfg, a, move) && t in Next(cfg, a, move).store.threads
    ensures t in a.store.threads || Next(cfg, a, move).store.threads[t].pc.Ready?
  {
    hide Allowed, Next;
    var steps := MoveIsSteps(cfg, a, move);
    if steps != [] {
      assert steps[1..] == [];
      NewThreadIsReady(cfg.limits, a.store, steps[0], t);
    }
  }

  lemma NewThreadIsReady(l: Limits, s: Sys, step: Step, t: Tid)
    requires Enabled(l, s, step) && t in Apply(l, s, step).threads
    ensures t in s.threads || Apply(l, s, step).threads[t].pc.Ready?
  {
    hide Totals.Total, Removals, RecordSize, Drained, DrainEvents, Drains, StoreCore.Publish, Released, Unlinked, Begin,
      StoreCore.Get, StoreCore.MarkRestored, Expired;
  }

  lemma StaysSettled(cfg: Config, a: App, move: Move, c: nat)
    requires AppInv(cfg, a) && Effects(cfg, a) && c in a.calls && Allowed(cfg, a, move)
    requires Settled(a.calls[c], c, a.store.threads)
    ensures c in Next(cfg, a, move).calls
    ensures Settled(Next(cfg, a, move).calls[c], c, Next(cfg, a, move).store.threads)
  {
    if move == Advance(c) {
      AdvanceSettles(cfg, a, c);
    } else {
      hide AppInv, Effects, Allowed, Next, KeptOn;
      CallStands(cfg, a, move, c);
      var t, s' := Tid(c, 1), Next(cfg, a, move).store;
      if t in s'.threads {
        NewThreadsAreReady(cfg, a, move, t);
        if t in a.store.threads {
          InvParts(cfg, a);
          StoreGoesOn(cfg, a, move);
          CreatesOrIsDone(cfg, a, c);
          DoneStays(a.store.threads[t], s'.threads[t]);
        }
      }
    }
  }

  lemma DoneStays(x: Thread, y: Thread)
    requires KeptOn(x, y)
    ensures x.pc.Done? ==> y.pc == x.pc
  {
  }

  lemma CreatesOrIsDone(cfg: Config, a: App, c: nat)
    requires Effects(cfg, a) && c in a.calls && Tid(c, 1) in a.store.threads
    ensures a.calls[c].phase.Creating? || a.store.threads[Tid(c, 1)].pc.Done?
  {
    hide AllHeld, AllOwnMasks, AllEffective, AllRefused;
    assert Creation(a.calls[c], a.store.threads[Tid(c, 1)]);
  }

  lemma AdvanceSettles(cfg: Config, a: App, c: nat)
    requires AppInv(cfg, a) && Effects(cfg, a) && Allowed(cfg, a, Advance(c))
    requires Settled(a.calls[c], c, a.store.threads)
    ensures c in Next(cfg, a, Advance(c)).calls
    ensures Settled(Next(cfg, a, Advance(c)).calls[c], c, Next(cfg, a, Advance(c)).store.threads)
  {
    hide AppInv, Effects, SysInv, Decide, KeyFor;
    CallFacts(cfg, a, c);
    if Tid(c, 1) in a.store.threads {
      CreatesOrIsDone(cfg, a, c);
    }
  }

  lemma StoreGoesOn(cfg: Config, a: App, move: Move)
    requires SysInv(cfg.limits, a.store) && Allowed(cfg, a, move)
    ensures GoOn(a.store, Next(cfg, a, move).store)
  {
    hide SysInv, Enabled, Apply, Allowed, Next, KeptOn, Grows;
    var steps := MoveIsSteps(cfg, a, move);
    if steps == [] {
      SameGoesOn(a.store);
    } else {
      assert steps[1..] == [];
      StepKeeps(cfg.limits, a.store, steps[0]);
      if steps[0].Spawn? {
        SpawnKeeps(cfg.limits, a.store, steps[0]);
      } else {
        StoreMoves(cfg.limits, a.store, steps[0]);
      }
    }
  }

  lemma {:induction false} RunStaysSettled(cfg: Config, a: App, moves: seq<Move>, c: nat)
    requires AppInv(cfg, a) && Effects(cfg, a) && c in a.calls && CanRun(cfg, a, moves)
    requires Settled(a.calls[c], c, a.store.threads)
    ensures c in After(cfg, a, moves).calls
    ensures Settled(After(cfg, a, moves).calls[c], c, After(cfg, a, moves).store.threads)
    decreases |moves|
  {
    hide AppInv, Effects, Settled, Allowed, Next;
    if moves != [] {
      MoveKeeps(cfg, a, moves[0]);
      StaysSettled(cfg, a, moves[0], c);
      RunStaysSettled(cfg, Next(cfg, a, moves[0]), moves[1..], c);
    }
  }

  /** A call that waits for creator r and is then given a record by it, answers from
      just that record; and the record had expired when the wait began if and only if r
      had published it by then, had not yet finished, and the record had expired. */
  lemma HandedOverIsStaleExactly(cfg: Config, a: App, c: nat, now: Time, gone: set<Key>, r: Tid, moves: seq<Move>,
                                 rec: Record)
    requires Reached(cfg, a) && c in a.calls && Allowed(cfg, a, Inside(DoBegin(Tid(c, 1), now, gone)))
    requires At(Next(cfg, a, Inside(DoBegin(Tid(c, 1), now, gone))).store, Tid(c, 1), Waiting(r))
    requires CanRun(cfg, Next(cfg, a, Inside(DoBegin(Tid(c, 1), now, gone))), moves)
    requires At(After(cfg, Next(cfg, a, Inside(DoBegin(Tid(c, 1), now, gone))), moves).store, Tid(c, 1),
                Done(Existed(rec), Some(r)))
    ensures var z := After(cfg, Next(cfg, a, Inside(DoBegin(Tid(c, 1), now, gone))), moves);
            && c in z.calls && (z.calls[c].phase.Replied? ==> z.calls[c].phase.cause == Some(rec))
    ensures Expired(cfg.limits, rec, now) <==> HoldsExpired(cfg.limits, a.store, r, now)
  {
    hide Reached, AppInv, Effects, Allowed, Next, CanRun, After, HoldsExpired, Expired, Runs, Exec;
    var move := Inside(DoBegin(Tid(c, 1), now, gone));
    ReachableHolds(cfg, a);
    ReachedIsReachable(cfg, a);
    MoveKeeps(cfg, a, move);
    InsideIsStep(cfg, a, move.step);
    RunStaysSettled(cfg, Next(cfg, a, move), moves, c);
    var steps := RunIsSteps(cfg, Next(cfg, a, move), moves);
    WaitedAnswerIsStaleExactly(cfg.limits, a.store, Tid(c, 1), now, gone, r, steps, rec);
  }

  lemma InsideIsStep(cfg: Config, a: App, step: Step)
    requires Allowed(cfg, a, Inside(step))
    ensures Enabled(cfg.limits, a.store, step) && Next(cfg, a, Inside(step)).calls == a.calls
    ensures Next(cfg, a, Inside(step)).store == Apply(cfg.limits, a.store, step)
  {
    hide Enabled, Apply;
  }
}

/** Every refusal has its reason, and every reason its refusal. */
module AppRefusals {
  import opened Bytes
  import opened Expiry
  import Totals
  import opened StoreCore
  import opened StoreSteps
  import opened StoreProtocol
  import opened StoreHistory
  import opened StoreSafety
  import opened StoreFailures
  import opened Pipeline
  import PipelineFacts
  import opened AppSteps
  import opened AppProtocol
  import opened AppEffects
  import opened AppSafety
  import opened AppScopes
  import opened AppRuns
  import opened AppFreshness

  // ---- The invariant --------------------------------------------------------------

  ghost predicate Rejects(phase: Phase, refusal: Refusal) {
    phase.Replied? && phase.final == Rejected(refusal)
  }

  /** The lookup of call c has found nothing. */
  ghost predicate FoundNothing(threads: Threads, c: nat) {
    Tid(c, 0) in threads && threads[Tid(c, 0)].pc.Done? && threads[Tid(c, 0)].pc.answer == Looked(None)
  }

  /** The `Create` of call c has failed with this error. */
  ghost predicate FailedWith(threads: Threads, c: nat, error: Error) {
    Tid(c, 1) in threads && threads[Tid(c, 1)].pc.Done? && threads[Tid(c, 1)].pc.answer == Failed(error)
  }

  predicate IsAccessRefusal(refusal: Refusal) {
    refusal.UnknownConsumer? || refusal.Disabled? || refusal.MaskingDisabled? || refusal.RestoreForbidden?
  }

  /** How the refusals of a call that acts or has answered agree with its operations. */
  ghost predicate Agrees(cfg: Config, call: Call, c: nat, threads: Threads) {
    && (!call.phase.Getting? && Tid(c, 0) in threads ==> threads[Tid(c, 0)].pc.Done?)
    && (forall r :: IsAccessRefusal(r) && Rejects(call.phase, r) ==> Denied(cfg, call.req) == Some(r))
    && (call.phase.Marking? || call.phase.Replied? ==>
          && (Rejects(call.phase, NotFound) <==> call.req.RestoreReq? && FoundNothing(threads, c))
          && (Rejects(call.phase, Capacity) <==> FailedWith(threads, c, ErrCapacity))
          && (Rejects(call.phase, Busy) <==> FailedWith(threads, c, ErrBusy))
          && forall error :: Rejects(call.phase, CreateFailed(error)) <==>
               FailedWith(threads, c, error) && error != ErrCapacity && error != ErrBusy)
  }

  ghost predicate AllAgree(cfg: Config, calls: Calls, threads: Threads) {
    forall c :: c in calls ==> Agrees(cfg, calls[c], c, threads)
  }

  // ---- Moves ------------------------------------------------------------------------

  lemma DecisionRefusals(req: Request, c: Content)
    ensures var reply := Decide(req, c).reply;
            reply.Rejected? ==> reply.refusal.Conflict? || reply.refusal.Panics?
  {
    hide PipelineFacts.RestoredText, Sliceable;
  }

  lemma LookupAgrees(cfg: Config, a: App, c: nat)
    requires AppInv(cfg, a) && Allowed(cfg, a, Advance(c)) && a.calls[c].phase.Getting?
    ensures var a' := Next(cfg, a, Advance(c)); c in a'.calls && Agrees(cfg, a'.calls[c], c, a'.store.threads)
  {
    hide AppInv, Decide, KeyFor, Known, MinRecordSize, Denied, Serves, ThreadKnows, OwnWork, Justified;
    CallFacts(cfg, a, c);
    StageAnswers(cfg, a, c);
    forall rec: Record {
      DecisionRefusals(a.calls[c].req, rec.content);
    }
  }

  lemma CreateAgrees(cfg: Config, a: App, c: nat)
    requires AppInv(cfg, a) && Allowed(cfg, a, Advance(c)) && a.calls[c].phase.Creating?
    requires Agrees(cfg, a.calls[c], c, a.store.threads)
    ensures var a' := Next(cfg, a, Advance(c)); c in a'.calls && Agrees(cfg, a'.calls[c], c, a'.store.threads)
  {
    hide AppInv, Decide, KeyFor, Known, MinRecordSize, Denied, ThreadKnows, OwnWork, Justified;
    CallFacts(cfg, a, c);
    StageAnswers(cfg, a, c);
    forall rec: Record {
      DecisionRefusals(a.calls[c].req, rec.content);
    }
  }

  lemma MarkAgrees(cfg: Config, a: App, c: nat)
    requires AppInv(cfg, a) && Allowed(cfg, a, Advance(c)) && a.calls[c].phase.Marking?
    requires Agrees(cfg, a.calls[c], c, a.store.threads)
    ensures var a' := Next(cfg, a, Advance(c)); c in a'.calls && Agrees(cfg, a'.calls[c], c, a'.store.threads)
  {
    hide AppInv, Decide, KeyFor, Known, Denied, Serves, ThreadKnows, OwnWork, StageRuns;
    CallFacts(cfg, a, c);
    MarksAreAnswers(a.calls[c].req, a.calls[c].phase.rec.content);
  }

  /** A call that goes on. */
  lemma AdvanceAgrees(cfg: Config, a: App, c: nat)
    requires AppInv(cfg, a) && Allowed(cfg, a, Advance(c)) && Agrees(cfg, a.calls[c], c, a.store.threads)
    ensures var a' := Next(cfg, a, Advance(c)); c in a'.calls && Agrees(cfg, a'.calls[c], c, a'.store.threads)
  {
    hide AppInv, Next, Agrees;
    match a.calls[c].phase
    case Getting => LookupAgrees(cfg, a, c);
    case Creating => CreateAgrees(cfg, a, c);
    case _ => MarkAgrees(cfg, a, c);
  }

  /** The two operations of a call that a refusal may rest on, before and after. */
  ghost predicate SameOperations(threads: Threads, threads': Threads, c: nat) {
    && (Tid(c, 0) in threads' ==> Operation(threads, threads', Tid(c, 0)))
    && (Tid(c, 1) in threads' ==> Operation(threads, threads', Tid(c, 1)))
    && (Tid(c, 0) in threads ==> Tid(c, 0) in threads') && (Tid(c, 1) in threads ==> Tid(c, 1) in threads')
  }

  /** A thread that was done stays so; any other one was there or is ready to begin. */
  ghost predicate Operation(threads: Threads, threads': Threads, t: Tid)
    requires t in threads'
  {
    if t in threads then threads[t].pc.Done? ==> threads'[t].pc == threads[t].pc else threads'[t].pc.Ready?
  }

  /** The operations of a call go on while the call itself stays where it is. */
  lemma StandingAgrees(cfg: Config, call: Call, c: nat, threads: Threads, threads': Threads)
    requires Agrees(cfg, call, c, threads) && SameOperations(threads, threads', c)
    requires Tid(c, 1) in threads ==> call.phase.Creating? || threads[Tid(c, 1)].pc.Done?
    requires Tid(c, 0) in threads' ==> Tid(c, 0) in threads || call.phase.Getting?
    ensures Agrees(cfg, call, c, threads')
  {
    hide Denied;
  }

  lemma OperationGoesOn(cfg: Config, a: App, move: Move, t: Tid)
    requires Allowed(cfg, a, move) && GoOn(a.store, Next(cfg, a, move).store)
    ensures t in a.store.threads ==> t in Next(cfg, a, move).store.threads
    ensures t in Next(cfg, a, move).store.threads ==>
              Operation(a.store.threads, Next(cfg, a, move).store.threads, t)
  {
    hide Allowed, Next, KeptOn;
    if t in Next(cfg, a, move).store.threads {
      NewThreadsAreReady(cfg, a, move, t);
      if t in a.store.threads {
        DoneStays(a.store.threads[t], Next(cfg, a, move).store.threads[t]);
      }
    }
  }

  /** No move starts a lookup for a call that is there. */
  lemma NoNewLookup(cfg: Config, a: App, move: Move, c: nat)
    requires Allowed(cfg, a, move) && c in a.calls
    ensures Tid(c, 0) in Next(cfg, a, move).store.threads ==> Tid(c, 0) in a.store.threads
  {
    hide Built, PipelineFacts.FitsInMemory, Denied, KeyFor, Decide, Enabled;
    match move
    case Inside(step) => NoNewThread(cfg.limits, a.store, step);
    case Build(t, results, drainedAt, at, gone) =>
      CanFailNow(cfg, a, t);
      NoNewThread(cfg.limits, a.store, BuildStep(cfg, a, t, results, drainedAt, at, gone));
    case _ => hide Apply;
  }

  lemma NoNewThread(l: Limits, s: Sys, step: Step)
    requires Enabled(l, s, step) && !step.Spawn?
    ensures Apply(l, s, step).threads.Keys == s.threads.Keys
  {
    hide Totals.Total, Removals, RecordSize, Drained, DrainEvents, Drains, StoreCore.Publish, Released, Unlinked, Begin,
      StoreCore.Get, StoreCore.MarkRestored, Expired;
  }

  /** A call that enters. */
  lemma EnterAgrees(cfg: Config, a: App, c: nat, req: Request)
    requires Allowed(cfg, a, Enter(c, req))
    ensures var a' := Next(cfg, a, Enter(c, req)); c in a'.calls && Agrees(cfg, a'.calls[c], c, a'.store.threads)
  {
    hide KeyFor;
    DeniedIsAccess(cfg, req);
    hide Denied;
  }

  lemma DeniedIsAccess(cfg: Config, req: Request)
    ensures Denied(cfg, req).Some? ==> IsAccessRefusal(Denied(cfg, req).value)
  {
  }

  lemma CallAgrees(cfg: Config, a: App, move: Move, c: nat)
    requires AppInv(cfg, a) && Effects(cfg, a) && AllAgree(cfg, a.calls, a.store.threads) && Allowed(cfg, a, move)
    requires c in Next(cfg, a, move).calls
    ensures Agrees(cfg, Next(cfg, a, move).calls[c], c, Next(cfg, a, move).store.threads)
  {
    hide AppInv, Effects, Allowed, Next, Agrees, GoOn, Operation;
    if c !in a.calls {
      OnlyEnters(cfg, a, move, c);
      EnterAgrees(cfg, a, c, move.req);
    } else if move == Advance(c) {
      AdvanceAgrees(cfg, a, c);
    } else {
      CallStands(cfg, a, move, c);
      InvParts(cfg, a);
      StoreGoesOn(cfg, a, move);
      OperationGoesOn(cfg, a, move, Tid(c, 0));
      OperationGoesOn(cfg, a, move, Tid(c, 1));
      NoNewLookup(cfg, a, move, c);
      if Tid(c, 1) in a.store.threads {
        CreatesOrIsDone(cfg, a, c);
      }
      StandingAgrees(cfg, a.calls[c], c, a.store.threads, Next(cfg, a, move).store.threads);
    }
  }

  lemma OnlyEnters(cfg: Config, a: App, move: Move, c: nat)
    requires Allowed(cfg, a, move) && c !in a.calls && c in Next(cfg, a, move).calls
    ensures move.Enter? && move.call == c
  {
    if move.Advance? {
      hide Allowed, Next;
      OthersStand(cfg, a, move.call);
    } else {
      hide Denied, KeyFor, Enabled, Apply, Built, PipelineFacts.FitsInMemory;
    }
  }

  lemma MoveAgrees(cfg: Config, a: App, move: Move)
    requires AppInv(cfg, a) && Effects(cfg, a) && AllAgree(cfg, a.calls, a.store.threads) && Allowed(cfg, a, move)
    ensures AllAgree(cfg, Next(cfg, a, move).calls, Next(cfg, a, move).store.threads)
  {
    forall c | c in Next(cfg, a, move).calls
      ensures Agrees(cfg, Next(cfg, a, move).calls[c], c, Next(cfg, a, move).store.threads)
    {
      CallAgrees(cfg, a, move, c);
    }
    hide AppInv, Effects, Allowed, Next, Agrees;
  }

  lemma {:induction false} RunAgrees(cfg: Config, a: App, moves: seq<Move>)
    requires AppInv(cfg, a) && Effects(cfg, a) && AllAgree(cfg, a.calls, a.store.threads) && CanRun(cfg, a, moves)
    ensures var z := After(cfg, a, moves); AllAgree(cfg, z.calls, z.store.threads)
    decreases |moves|
  {
    hide AppInv, Effects, AllAgree, Allowed, Next;
    if moves != [] {
      MoveKeeps(cfg, a, moves[0]);
      MoveAgrees(cfg, a, moves[0]);
      RunAgrees(cfg, Next(cfg, a, moves[0]), moves[1..]);
    }
  }

  lemma ReachedAgrees(cfg: Config, a: App)
    requires Reached(cfg, a)
    ensures AllAgree(cfg, a.calls, a.store.threads)
  {
    hide AppInv, Effects, CanRun, After;
    var at, moves :| CanRun(cfg, Start(at), moves) && After(cfg, Start(at), moves) == a;
    StartHolds(cfg, at);
    RunAgrees(cfg, Start(at), moves);
  }

  // ---- Access -----------------------------------------------------------------------

  /** Whom the service serves: everybody who calls `Process`; otherwise a consumer that
      is configured and enabled, with masking enabled for `Mask`, and with the right to
      restore for `Restore`. */
  ghost predicate Permits(cfg: Config, req: Request) {
    || req.ProcessReq?
    || (req.consumer in cfg.consumers && cfg.consumers[req.consumer].enabled &&
        (req.MaskReq? ==> cfg.consumers[req.consumer].maskingEnabled) &&
        (req.RestoreReq? ==> cfg.consumers[req.consumer].canRestore))
  }

  lemma DeniedExactly(cfg: Config, req: Request)
    ensures Denied(cfg, req) == None <==> Permits(cfg, req)
  {
  }

  /** Only permitted calls run a store operation, make or mark a version, are still
      under way, or are answered with anything but a refusal of access. */
  lemma OnlyPermittedCallsAct(cfg: Config, a: App, c: nat)
    requires Reached(cfg, a) && c in a.calls
    requires || (exists t :: t in a.store.threads && t.call == c)
             || (exists v :: v in a.made && a.made[v].call == c)
             || (exists v :: v in a.marks && a.marks[v] == c)
             || !(exists r :: IsAccessRefusal(r) && Rejects(a.calls[c].phase, r))
    ensures Permits(cfg, a.calls[c].req)
  {
    hide Reached, Denied, Permits, IsAccessRefusal;
    DeniedExactly(cfg, a.calls[c].req);
    if Denied(cfg, a.calls[c].req).Some? {
      DeniedIsRefused(cfg, a, c);
      DeniedCallsDoNothing(cfg, a, c);
    }
  }

  lemma DeniedIsRefused(cfg: Config, a: App, c: nat)
    requires Reached(cfg, a) && c in a.calls && Denied(cfg, a.calls[c].req).Some?
    ensures exists r :: IsAccessRefusal(r) && Rejects(a.calls[c].phase, r)
  {
    hide Reached, Denied;
    DeniedCallsDoNothing(cfg, a, c);
    DeniedIsAccess(cfg, a.calls[c].req);
    assert Rejects(a.calls[c].phase, Denied(cfg, a.calls[c].req).value);
  }

  /** And a call is refused access exactly for the first condition it fails. */
  lemma AccessRefusalsAreExact(cfg: Config, a: App, c: nat)
    requires Reached(cfg, a) && c in a.calls
    ensures var req, phase, known := a.calls[c].req, a.calls[c].phase, cfg.consumers;
            && (Rejects(phase, UnknownConsumer) <==> !req.ProcessReq? && req.consumer !in known)
            && (Rejects(phase, Disabled) <==>
                  !req.ProcessReq? && req.consumer in known && !known[req.consumer].enabled)
            && (Rejects(phase, MaskingDisabled) <==>
                  req.MaskReq? && req.consumer in known && known[req.consumer].enabled &&
                  !known[req.consumer].maskingEnabled)
            && (Rejects(phase, RestoreForbidden) <==>
                  req.RestoreReq? && req.consumer in known && known[req.consumer].enabled &&
                  !known[req.consumer].canRestore)
  {
    hide Reached, AllAgree;
    ReachedAgrees(cfg, a);
    CallAgreesIn(cfg, a, c);
    if Denied(cfg, a.calls[c].req).Some? {
      DeniedCallsDoNothing(cfg, a, c);
    }
  }

  lemma CallAgreesIn(cfg: Config, a: App, c: nat)
    requires AllAgree(cfg, a.calls, a.store.threads) && c in a.calls
    ensures Agrees(cfg, a.calls[c], c, a.store.threads)
  {
    hide Agrees;
  }

  // ---- What failed in a run ---------------------------------------------------------

  ghost function MoveFailures(cfg: Config, a: App, move: Move): set<Failure>
    requires Allowed(cfg, a, move)
  {
    match move
    case Inside(step) => StepFailures(cfg.limits, a.store, step)
    case Build(t, results, drainedAt, at, gone) =>
      CanFailNow(cfg, a, t);
      StepFailures(cfg.limits, a.store, BuildStep(cfg, a, t, results, drainedAt, at, gone))
    case _ => {}
  }

  ghost function RunFailures(cfg: Config, a: App, moves: seq<Move>): set<Failure>
    requires CanRun(cfg, a, moves)
    decreases |moves|
  {
    if moves == [] then {} else MoveFailures(cfg, a, moves[0]) + RunFailures(cfg, Next(cfg, a, moves[0]), moves[1..])
  }

  /** The builds of the service fail by cancellation or by a failing recognition. */
  ghost predicate BuildsFailProperly(past: set<Failure>) {
    forall f :: f in past && f.cause.BuildFailed? ==> f.cause.error == ErrContext || f.cause.error == ERR_RECOGNITION
  }

  lemma MoveFails(cfg: Config, a: App, move: Move, past: set<Failure>)
    requires AppInv(cfg, a) && Allowed(cfg, a, move) && Recorded(a.store.threads, past) && BuildsFailProperly(past)
    ensures Recorded(Next(cfg, a, move).store.threads, past + MoveFailures(cfg, a, move))
    ensures BuildsFailProperly(past + MoveFailures(cfg, a, move))
  {
    hide AppInv, SysInv, Recorded, Enabled, Apply, Allowed, Next, StepFailures, BuildStep, BuildsFailProperly, CanBuild,
      Runs, Exec;
    InvParts(cfg, a);
    SysParts(cfg.limits, a.store);
    var steps := MoveIsSteps(cfg, a, move);
    NothingFails(past);
    if steps == [] {
      NoStep(cfg.limits, a.store);
    } else {
      assert steps == [steps[0]];
      FirstStep(cfg.limits, a.store, steps[0]);
      FailureStep(cfg.limits, a.store, steps[0], past);
      ProperFailures(cfg, a, move, steps[0], past);
    }
  }

  lemma NothingFails(past: set<Failure>)
    ensures past + {} == past
  {
  }

  lemma FirstStep(l: Limits, s: Sys, step: Step)
    requires Runs(l, s, [step])
    ensures Enabled(l, s, step) && Exec(l, s, [step]) == Apply(l, s, step)
  {
    hide Enabled, Apply;
    assert [step][1..] == [];
    if Enabled(l, s, step) {
      NoStep(l, Apply(l, s, step));
    }
  }

  lemma ProperFailures(cfg: Config, a: App, move: Move, step: Step, past: set<Failure>)
    requires Allowed(cfg, a, move) && Enabled(cfg.limits, a.store, step) && BuildsFailProperly(past)
    requires match move
             case Inside(inner) => step == inner
             case Build(t, results, drainedAt, at, gone) => step == BuildStep(cfg, a, t, results, drainedAt, at, gone)
             case _ => step.Spawn?
    ensures MoveFailures(cfg, a, move) == StepFailures(cfg.limits, a.store, step)
    ensures BuildsFailProperly(past + MoveFailures(cfg, a, move))
  {
    hide Built, PipelineFacts.FitsInMemory, Denied, LacksRoom, IsTooLarge, RecordSize, Drains;
  }

  lemma {:induction false} RunFails(cfg: Config, a: App, moves: seq<Move>, past: set<Failure>)
    requires AppInv(cfg, a) && Effects(cfg, a) && CanRun(cfg, a, moves)
    requires Recorded(a.store.threads, past) && BuildsFailProperly(past)
    ensures Recorded(After(cfg, a, moves).store.threads, past + RunFailures(cfg, a, moves))
    ensures BuildsFailProperly(past + RunFailures(cfg, a, moves))
    decreases |moves|
  {
    hide AppInv, Effects, Recorded, BuildsFailProperly, Allowed, Next, MoveFailures;
    if moves == [] {
      assert past + {} == past;
    } else {
      MoveKeeps(cfg, a, moves[0]);
      MoveFails(cfg, a, moves[0], past);
      var more, rest := MoveFailures(cfg, a, moves[0]), Next(cfg, a, moves[0]);
      RunFails(cfg, rest, moves[1..], past + more);
      assert past + more + RunFailures(cfg, rest, moves[1..]) == past + RunFailures(cfg, a, moves);
    }
  }

  // ---- Reasons ----------------------------------------------------------------------

  /** Call c was given the outcome of reservation r: its own, or the one it waited for. */
  ghost predicate GivenBy(a: App, c: nat, r: Tid) {
    var t := Tid(c, 1);
    t in a.store.threads && a.store.threads[t].pc.Done? && a.store.threads[t].pc.via == Some(r)
  }

  /** The failed `Create` of a call, and what failed for it in the run. */
  lemma FailedWithCause(cfg: Config, at: Time, moves: seq<Move>, c: nat, error: Error)
    requires CanRun(cfg, Start(at), moves) && Tid(c, 1) in After(cfg, Start(at), moves).store.threads
    requires After(cfg, Start(at), moves).store.threads[Tid(c, 1)].pc.Done?
    ensures var a, past := After(cfg, Start(at), moves), RunFailures(cfg, Start(at), moves);
            FailedWith(a.store.threads, c, error) <==>
            || (error == ErrCapacity && Failure(Tid(c, 1), NoRoom) in past)
            || (error == ErrBusy && Failure(Tid(c, 1), TimedOut) in past)
            || (error == ErrContext && Failure(Tid(c, 1), Cancelled) in past)
            || (error == ErrCapacity && exists r :: GivenBy(a, c, r) && Failure(r, TooLarge) in past)
            || (exists r :: GivenBy(a, c, r) && Failure(r, BuildFailed(error)) in past)
    ensures BuildsFailProperly(RunFailures(cfg, Start(at), moves))
  {
    hide AppInv, Effects, CanRun, After, RunFailures, BuildsFailProperly, Reachable, Runs, Exec;
    StartHolds(cfg, at);
    NothingRecorded(at);
    RunFails(cfg, Start(at), moves, {});
    var a, past := After(cfg, Start(at), moves), RunFailures(cfg, Start(at), moves);
    assert {} + past == past;
    var t := Tid(c, 1);
    assert Reached(cfg, a) by { ReachedFrom(cfg, at, moves); }
    ReachedIsReachable(cfg, a);
    var via := a.store.threads[t].pc.via;
    if via.Some? && via.value != t {
      WaiterReturnsCreatorsResult(cfg.limits, a.store, t, via.value);
      CreatorIsDone(cfg.limits, a.store, t, via.value);
    }
    assert via.Some? ==> GivenBy(a, c, via.value);
    RecordedCause(a.store, past, t, error);
  }

  lemma NothingRecorded(at: Time)
    ensures Recorded(Start(at).store.threads, {}) && BuildsFailProperly({})
  {
  }

  lemma ReachedFrom(cfg: Config, at: Time, moves: seq<Move>)
    requires CanRun(cfg, Start(at), moves)
    ensures Reached(cfg, After(cfg, Start(at), moves))
  {
    hide CanRun, After;
  }

  /** Nothing is recorded for an operation that never began. */
  lemma NoneWithoutThread(cfg: Config, at: Time, moves: seq<Move>, t: Tid)
    requires CanRun(cfg, Start(at), moves) && t !in After(cfg, Start(at), moves).store.threads
    ensures forall f :: f in RunFailures(cfg, Start(at), moves) ==> f.t != t
  {
    hide AppInv, Effects, CanRun, After, RunFailures, BuildsFailProperly, FailedBy;
    StartHolds(cfg, at);
    NothingRecorded(at);
    RunFails(cfg, Start(at), moves, {});
    assert {} + RunFailures(cfg, Start(at), moves) == RunFailures(cfg, Start(at), moves);
  }

  /** Every refusal of a call that has been answered, in every run from the start. It is
      refused as not found exactly if it restores and its lookup found nothing; for
      capacity exactly if it had no room itself, or the record it was to be given was too
      large; as busy exactly if it timed out itself; and with another error exactly if it
      was cancelled itself, or the build it depended on failed with that error. */
  lemma RefusalsHaveTheirReason(cfg: Config, at: Time, moves: seq<Move>, c: nat)
    requires CanRun(cfg, Start(at), moves)
    requires c in After(cfg, Start(at), moves).calls && After(cfg, Start(at), moves).calls[c].phase.Replied?
    ensures var a, past, t := After(cfg, Start(at), moves), RunFailures(cfg, Start(at), moves), Tid(c, 1);
            var phase := a.calls[c].phase;
            && (Rejects(phase, NotFound) <==> a.calls[c].req.RestoreReq? && FoundNothing(a.store.threads, c))
            && (Rejects(phase, Capacity) <==>
                  Failure(t, NoRoom) in past || exists r :: GivenBy(a, c, r) && Failure(r, TooLarge) in past)
            && (Rejects(phase, Busy) <==> Failure(t, TimedOut) in past)
            && forall e :: Rejects(phase, CreateFailed(e)) <==>
                 (e == ErrContext && Failure(t, Cancelled) in past) ||
                 exists r :: GivenBy(a, c, r) && Failure(r, BuildFailed(e)) in past
  {
    hide CanRun, After, RunFailures, Reached, AllAgree, AppInv, Effects;
    var a, past := After(cfg, Start(at), moves), RunFailures(cfg, Start(at), moves);
    ReachedFrom(cfg, at, moves);
    ReachedAgrees(cfg, a);
    CallAgreesIn(cfg, a, c);
    ReachableHolds(cfg, a);
    if Tid(c, 1) in a.store.threads {
      CreatesOrIsDone(cfg, a, c);
      forall e {
        FailedWithCause(cfg, at, moves, c, e);
      }
    } else {
      NoneWithoutThread(cfg, at, moves, Tid(c, 1));
    }
  }

  /** A call is answered Conflict exactly if it rests on a record and its text fits
      neither side of it: in a masking call, neither the original nor the mask; in a
      restoring one, which can only fail this way without markers, not the mask. */
  lemma ConflictsAreExact(cfg: Config, a: App, c: nat)
    requires Reached(cfg, a) && c in a.calls && a.calls[c].phase.Replied?
    ensures var req, phase := a.calls[c].req, a.calls[c].phase;
            Rejects(phase, Conflict) <==>
            && phase.cause.Some?
            && var content := phase.cause.value.content;
               req.text != content.masked &&
               if req.RestoreReq? then content.format.StarsFormat? else req.text != content.original
  {
    hide Reached, SysInv, AllServe, AllRun, AllReturned, AllMade, Admitted, AllOwnWork, AllMarked, Effects, KeyFor,
      Known, PipelineFacts.RestoredText, Sliceable;
    ReachableHolds(cfg, a);
    assert Justified(a.calls[c], a.store.past);
  }
}

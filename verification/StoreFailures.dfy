/** Why a `Create` fails: over every run, each error has its cause, and each cause its
    error. */
module StoreFailures {
  import opened Bytes
  import opened Expiry
  import opened Totals
  import opened StoreCore
  import opened StoreInvariant
  import opened StoreSteps
  import opened StoreProtocol
  import opened StoreSafety

  // ---- Causes -------------------------------------------------------------------

  /** Nothing would stay below the limits: every slot is stored or reserved, or the
      bytes do not suffice. */
  ghost predicate LacksRoom(l: Limits, stored: map<Key, Record>, reservedEntries: int, reservedBytes: int, need: int) {
    || (l.maxEntries > 0 && |stored| + reservedEntries >= l.maxEntries)
    || (l.maxBytes > 0 && Total(stored, Size) + reservedBytes + need > l.maxBytes)
  }

  /** The built record is larger than a record may be, or than the bytes left. */
  ghost predicate IsTooLarge(l: Limits, stored: map<Key, Record>, reservedBytes: int, size: int) {
    || (l.maxRecordBytes > 0 && size > l.maxRecordBytes)
    || (l.maxBytes > 0 && Total(stored, Size) + reservedBytes + size > l.maxBytes)
  }

  datatype Cause = NoRoom | TooLarge | TimedOut | Cancelled | BuildFailed(error: Error)

  datatype Failure = Failure(t: Tid, cause: Cause)

  /** The operation that fails in this step, and why. */
  ghost function StepFailures(l: Limits, s: Sys, step: Step): set<Failure>
    requires Enabled(l, s, step)
  {
    match step
    case TimeOut(t) => {Failure(t, TimedOut)}
    case Cancel(t) => {Failure(t, Cancelled)}
    case FailBuild(t, error) => {Failure(t, BuildFailed(error))}
    case DoBegin(t, now, gone) =>
      var c, op := s.core, s.threads[t].op;
      if op.key !in c.entries && op.key !in c.inflight &&
         LacksRoom(l, c.entries - gone, c.reservedEntries, c.reservedBytes, op.minSize + INFLIGHT_OVERHEAD)
      then {Failure(t, NoRoom)} else {}
    case DoPublish(t, content, drainedAt, at, gone) =>
      var c, op := s.core, s.threads[t].op;
      if IsTooLarge(l, c.entries - gone, c.reservedBytes - op.minSize - INFLIGHT_OVERHEAD, RecordSize(op.key, content))
      then {Failure(t, TooLarge)} else {}
    case _ => {}
  }

  /** All that failed in a run. */
  ghost function Failures(l: Limits, s: Sys, steps: seq<Step>): set<Failure>
    requires Runs(l, s, steps)
    decreases |steps|
  {
    if steps == [] then {}
    else StepFailures(l, s, steps[0]) + Failures(l, Apply(l, s, steps[0]), steps[1..])
  }

  // ---- What each cause leads to ---------------------------------------------------

  /** Where a thread stands that has failed for this cause. */
  ghost predicate FailedBy(pc: Pc, t: Tid, cause: Cause) {
    match cause
    case NoRoom => pc == Done(Failed(ErrCapacity), None)
    case TooLarge => pc == Finishing(Fails(ErrCapacity)) || pc == Done(Failed(ErrCapacity), Some(t))
    case TimedOut => pc == Done(Failed(ErrBusy), None)
    case Cancelled => pc == Done(Failed(ErrContext), None)
    case BuildFailed(error) => pc == Done(Failed(error), Some(t))
  }

  /** The thread has failed itself, and not as a waiter. */
  ghost predicate FailedItself(pc: Pc, t: Tid) {
    || (pc.Finishing? && pc.outcome.Fails?)
    || (pc.Done? && pc.answer.Failed? && (pc.via == None || pc.via == Some(t)))
  }

  ghost predicate HasCause(pc: Pc, t: Tid, past: set<Failure>) {
    exists f :: f in past && f.t == t && FailedBy(pc, t, f.cause)
  }

  ghost predicate Recorded(threads: Threads, past: set<Failure>) {
    && (forall f :: f in past ==> f.t in threads && FailedBy(threads[f.t].pc, f.t, f.cause))
    && (forall t :: t in threads && FailedItself(threads[t].pc, t) ==> HasCause(threads[t].pc, t, past))
  }

  /** One thread moves on; if it fails now, it does so for the new cause. */
  lemma RecordedMove(threads: Threads, past: set<Failure>, t: Tid, th: Thread, more: set<Failure>)
    requires Recorded(threads, past) && forall f :: f in more ==> f.t == t && FailedBy(th.pc, t, f.cause)
    requires t in threads ==> forall cause :: FailedBy(threads[t].pc, t, cause) ==> FailedBy(th.pc, t, cause)
    requires FailedItself(th.pc, t) ==> more != {} || (t in threads && FailedItself(threads[t].pc, t))
    ensures Recorded(threads[t := th], past + more)
  {
    hide FailedBy, FailedItself;
    var threads' := threads[t := th];
    forall u | u in threads' && FailedItself(threads'[u].pc, u) ensures HasCause(threads'[u].pc, u, past + more) {
      if u == t && more != {} {
        var f :| f in more;
        assert f in past + more;
      } else {
        assert HasCause(threads[u].pc, u, past);
        var f :| f in past && f.t == u && FailedBy(threads[u].pc, u, f.cause);
        assert f in past + more;
      }
    }
  }

  // ---- Steps ----------------------------------------------------------------------

  lemma BytesAfterDrain<R>(l: Limits, c: Core<R>, gone: set<Key>, now: Time)
    requires Inv(l, c) && Drains(l, c, gone, now)
    ensures Drained(c, gone).bytes == Total(c.entries - gone, Size)
  {
    hide Drains, Scheduled, ReservesMatch, WithinBudget, Versioned, Total;
    assert gone <= c.entries.Keys by { GoneAreStored(l, c, gone, now); }
    DrainedKeeps(l, c, gone);
  }

  lemma GoneAreStored<R>(l: Limits, c: Core<R>, gone: set<Key>, now: Time)
    requires Drains(l, c, gone, now)
    ensures gone <= c.entries.Keys
  {
  }

  /** `Create` is refused exactly when the key is free and there is no room. */
  lemma RefusedForRoom<R>(l: Limits, c: Core<R>, key: Key, reserve: int, t: R, gone: set<Key>, now: Time)
    requires Inv(l, c) && Drains(l, c, gone, now)
    ensures var out := Begin(l, c, key, reserve, t, gone, now).1;
            out.Refused? <==>
            key !in c.entries && key !in c.inflight &&
            LacksRoom(l, c.entries - gone, c.reservedEntries, c.reservedBytes, reserve)
  {
    hide Inv, Drains, Total, DrainEvents, Expired;
    BytesAfterDrain(l, c, gone, now);
  }

  lemma RejectedForSize<R>(l: Limits, c: Core<R>, key: Key, reserve: int, t: R, content: Content, gone: set<Key>,
                        drainedAt: Time, at: Time)
    requires Inv(l, c) && Drains(l, c, gone, drainedAt)
    ensures var out := StoreCore.Publish(l, c, key, t, reserve, content, gone, at).1;
            out.Rejects? <==> IsTooLarge(l, c.entries - gone, c.reservedBytes - reserve, RecordSize(key, content))
  {
    hide Inv, Drains, Total, DrainEvents, Expired, RecordSize;
    BytesAfterDrain(l, c, gone, drainedAt);
  }

  lemma FailureStep(l: Limits, s: Sys, step: Step, past: set<Failure>)
    requires Inv(l, s.core) && Protocol(s.core, s.cells, s.threads) && Enabled(l, s, step) && Recorded(s.threads, past)
    ensures Recorded(Apply(l, s, step).threads, past + StepFailures(l, s, step))
  {
    hide Inv, LinksMatch, HoldersMatch, KeysFree, Total, Removals, RecordSize, Drained, DrainEvents, Drains,
      StoreCore.Publish, Released, Unlinked, StoreCore.MarkRestored, Begin, StoreCore.Get, Expired, Recorded, LacksRoom,
      IsTooLarge, Plus;
    var s', t := Apply(l, s, step), step.t;
    if t in s.threads {
      assert ThreadOk(t, s.cells, s.threads);
    }
    if step.DoBegin? {
      RefusedForRoom(l, s.core, s.threads[t].op.key, Reserve(s.threads[t].op), t, step.gone, step.now);
    } else if step.DoPublish? {
      RejectedForSize(l, s.core, s.threads[t].op.key, Reserve(s.threads[t].op), t, step.content, step.gone,
                      step.drainedAt, step.at);
    }
    assert s'.threads == s.threads[t := s'.threads[t]];
    RecordedMove(s.threads, past, t, s'.threads[t], StepFailures(l, s, step));
  }

  lemma {:induction false} FailureRun(l: Limits, s: Sys, steps: seq<Step>, past: set<Failure>)
    requires SysInv(l, s) && Runs(l, s, steps) && Recorded(s.threads, past)
    ensures Recorded(Exec(l, s, steps).threads, past + Failures(l, s, steps))
    decreases |steps|
  {
    hide SysInv, Recorded, Enabled, Apply, StepFailures;
    if steps == [] {
      assert past + {} == past;
    } else {
      StepKeeps(l, s, steps[0]);
      SysParts(l, s);
      FailureStep(l, s, steps[0], past);
      var more := StepFailures(l, s, steps[0]);
      FailureRun(l, Apply(l, s, steps[0]), steps[1..], past + more);
      assert past + more + Failures(l, Apply(l, s, steps[0]), steps[1..]) == past + Failures(l, s, steps);
    }
  }

  lemma SysParts(l: Limits, s: Sys)
    requires SysInv(l, s)
    ensures Inv(l, s.core) && Protocol(s.core, s.cells, s.threads)
  {
    hide Inv, Protocol;
  }

  /** The error of a `Create` that has returned, and what is recorded for it. */
  lemma RecordedCause(s: Sys, past: set<Failure>, t: Tid, error: Error)
    requires Recorded(s.threads, past) && t in s.threads && s.threads[t].pc.Done?
    requires var via := s.threads[t].pc.via;
             via.Some? && via.value != t ==>
               && via.value in s.threads && s.threads[via.value].pc.Done? && s.threads[via.value].pc.via == via
               && match s.threads[t].pc.answer
                  case Existed(rec) => s.threads[via.value].pc.answer == Created(rec)
                  case Failed(e) => s.threads[via.value].pc.answer == Failed(e)
                  case _ => false
    ensures var pc := s.threads[t].pc;
            pc.answer == Failed(error) <==>
            || (error == ErrCapacity && Failure(t, NoRoom) in past)
            || (error == ErrBusy && Failure(t, TimedOut) in past)
            || (error == ErrContext && Failure(t, Cancelled) in past)
            || (pc.via.Some? && error == ErrCapacity && Failure(pc.via.value, TooLarge) in past)
            || (pc.via.Some? && Failure(pc.via.value, BuildFailed(error)) in past)
  {
  }

  /** Over every run from the start, a `Create` that has returned failed with this error
      if and only if it was refused for lack of room, timed out or was cancelled itself,
      or the creator whose outcome it got, perhaps it itself, failed to build or built
      too large a record, with just this error. */
  lemma FailuresHaveCauses(l: Limits, at: Time, steps: seq<Step>, t: Tid, error: Error)
    requires Runs(l, Init(at), steps)
    requires var s := Exec(l, Init(at), steps); t in s.threads && s.threads[t].pc.Done?
    ensures var pc, past := Exec(l, Init(at), steps).threads[t].pc, Failures(l, Init(at), steps);
            pc.answer == Failed(error) <==>
            || (error == ErrCapacity && Failure(t, NoRoom) in past)
            || (error == ErrBusy && Failure(t, TimedOut) in past)
            || (error == ErrContext && Failure(t, Cancelled) in past)
            || (pc.via.Some? && error == ErrCapacity && Failure(pc.via.value, TooLarge) in past)
            || (pc.via.Some? && Failure(pc.via.value, BuildFailed(error)) in past)
  {
    hide SysInv, Runs, Exec, Failures, Reachable;
    InitHolds(l, at);
    FailureRun(l, Init(at), steps, {});
    var s, past := Exec(l, Init(at), steps), Failures(l, Init(at), steps);
    assert {} + past == past;
    assert Reachable(l, s) by { ReachedBy(l, at, steps); }
    hide Recorded;
    var pc := s.threads[t].pc;
    if pc.via.Some? && pc.via.value != t {
      WaiterReturnsCreatorsResult(l, s, t, pc.via.value);
      CreatorIsDone(l, s, t, pc.via.value);
    }
    RecordedCause(s, past, t, error);
  }

  lemma ReachedBy(l: Limits, at: Time, steps: seq<Step>)
    requires Runs(l, Init(at), steps)
    ensures Reachable(l, Exec(l, Init(at), steps))
  {
    hide Runs, Exec;
  }

  lemma CreatorIsDone(l: Limits, s: Sys, t: Tid, r: Tid)
    requires Reachable(l, s) && t in s.threads && s.threads[t].pc.Done? && s.threads[t].pc.via == Some(r)
    ensures r in s.threads && s.threads[r].pc.Done? && s.threads[r].pc.via == Some(r)
  {
    hide Reachable, Inv, HoldersMatch, LinksMatch, KeysFree, StoreHistory.History, RestorersUnique,
      StoreObserver.Conserved;
    ReachableInv(l, s);
    assert ThreadOk(t, s.cells, s.threads);
    assert CellOk(r, s.cells, s.threads);
  }
}

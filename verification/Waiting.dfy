/** How a wait for another creator can end, over every run. */
module Waiting {
  import opened Bytes
  import opened Expiry
  import opened Totals
  import opened StoreCore
  import opened StoreSteps
  import opened StoreProtocol
  import opened StoreSafety

  /** The creator r has closed its reservation with this outcome. */
  ghost predicate ClosedWith(s: Sys, r: Tid, out: Outcome) {
    r in s.cells && s.cells[r] == Closed(out)
  }

  /** Thread t still waits for r; or it has returned r's record, or r's error, and that
      is the error r closed its reservation with; or r was cancelled by its own
      context, and t may go on as it likes. */
  ghost predicate WaitsOrEnded(s: Sys, t: Tid, r: Tid) {
    && t in s.threads
    && (s.threads[t].pc == Waiting(r) || TookOver(s, s.threads[t].pc, r) || ClosedWith(s, r, Fails(ErrContext)))
  }

  /** Done with what r closed its reservation with, its record or its persistent error. */
  ghost predicate TookOver(s: Sys, pc: Pc, r: Tid) {
    && pc.Done? && pc.via == Some(r)
    && match pc.answer
       case Existed(rec) => ClosedWith(s, r, Delivers(rec))
       case Failed(error) => ClosedWith(s, r, Fails(error)) && error != ErrContext
       case _ => false
  }

  lemma WaitStep(l: Limits, s: Sys, step: Step, t: Tid, r: Tid)
    requires Protocol(s.core, s.cells, s.threads) && Enabled(l, s, step) && step != Cancel(t) && step != TimeOut(t)
    requires WaitsOrEnded(s, t, r)
    ensures WaitsOrEnded(Apply(l, s, step), t, r)
  {
    hide Protocol, Total, Removals, RecordSize, Drained, DrainEvents, Drains, StoreCore.Publish, Released, Unlinked,
      StoreCore.MarkRestored, Begin, StoreCore.Get, Expired;
    CellsStep(l, s, step);
  }

  lemma {:induction false} WaitRun(l: Limits, s: Sys, steps: seq<Step>, t: Tid, r: Tid)
    requires SysInv(l, s) && Runs(l, s, steps) && WaitsOrEnded(s, t, r)
    requires Cancel(t) !in steps && TimeOut(t) !in steps
    ensures WaitsOrEnded(Exec(l, s, steps), t, r)
    decreases |steps|
  {
    hide Enabled, Apply, WaitsOrEnded, Inv, Protocol, StoreHistory.History, RestorersUnique, StoreObserver.Conserved;
    if steps != [] {
      StepKeeps(l, s, steps[0]);
      WaitStep(l, s, steps[0], t, r);
      WaitRun(l, Apply(l, s, steps[0]), steps[1..], t, r);
    }
  }

  /** However a run goes on, a waiter that neither is cancelled nor times out still
      waits, or has returned the very record or error of the creator it waited for, or
      that creator was cancelled by its own context. So after a persistent failure no
      waiter builds again. */
  lemma WaitersShareTheOutcome(l: Limits, s: Sys, steps: seq<Step>, t: Tid, r: Tid)
    requires Reachable(l, s) && t in s.threads && s.threads[t].pc == Waiting(r)
    requires Runs(l, s, steps) && Cancel(t) !in steps && TimeOut(t) !in steps
    ensures WaitsOrEnded(Exec(l, s, steps), t, r)
  {
    hide Reachable, SysInv, Runs, Exec;
    ReachableInv(l, s);
    WaitRun(l, s, steps, t, r);
  }
}

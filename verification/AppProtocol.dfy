/** What holds between calls, their store operations, and the records they act on,
    in every reachable state of the application. */
module AppProtocol {
  import opened Bytes
  import opened Expiry
  import Totals
  import opened StoreCore
  import opened StoreInvariant
  import opened StoreSteps
  import opened StoreProtocol
  import opened StoreHistory
  import opened StoreSafety
  import opened Pipeline
  import PipelineFacts
  import opened AppSteps

  // ---- The invariant ----------------------------------------------------------

  /** The record a call acts on, or has acted on. */
  function Acted(phase: Phase): Option<Record> {
    match phase
    case Marking(rec, _) => Some(rec)
    case Replied(_, cause) => cause
    case _ => None
  }

  /** The call has grounds to mark its record. */
  ghost predicate Marks(call: Call) {
    Acted(call.phase).Some? && Decide(call.req, Acted(call.phase).value.content).marks
  }

  /** op is the store operation of this stage of the call. */
  ghost predicate StageOp(call: Call, stage: nat, op: Op) {
    var key := KeyFor(call.req);
    if stage == 0 then op == GetOp(key)
    else if stage == 1 then !call.req.RestoreReq? && op == CreateOp(key, MinRecordSize(key, |call.req.text|))
    else stage == 2 && Marks(call) && op == MarkOp(key, Acted(call.phase).value.version)
  }

  ghost predicate Serves(calls: Calls, t: Tid, op: Op) {
    if t.call in calls then StageOp(calls[t.call], t.stage, op) else op.CleanOp?
  }

  ghost predicate AllServe(calls: Calls, threads: Threads) {
    forall t :: t in threads ==> Serves(calls, t, threads[t].op)
  }

  /** The stage a call has reached runs, and no later one has begun. */
  ghost predicate StageRuns(call: Call, c: nat, running: set<Tid>) {
    match call.phase
    case Getting => Tid(c, 0) in running && Tid(c, 1) !in running && Tid(c, 2) !in running
    case Creating => Tid(c, 1) in running && Tid(c, 2) !in running
    case Marking(_, _) => Tid(c, 2) in running
    case Replied(reply, _) =>
      && (reply.Rejected? ==> Tid(c, 2) !in running)
      && (Marks(call) && reply == Decide(call.req, Acted(call.phase).value.content).reply ==> Tid(c, 2) in running)
  }

  ghost predicate AllRun(calls: Calls, running: set<Tid>) {
    forall c :: c in calls ==> StageRuns(calls[c], c, running)
  }

  /** The mark of a call that has answered has returned. */
  ghost predicate AllReturned(calls: Calls, threads: Threads) {
    forall c :: c in calls && calls[c].phase.Replied? && Tid(c, 2) in threads ==> threads[Tid(c, 2)].pc.Done?
  }

  /** The reply is the one for this record, or the call has created the record for
      its own text. */
  ghost predicate Answers(req: Request, c: Content, reply: Reply) {
    || reply == Decide(req, c).reply
    || (!req.RestoreReq? && c.original == req.text && reply == Text(c.masked, NewMask))
  }

  /** Every answer rests on a published version of the call's own key. */
  ghost predicate Justified(call: Call, past: Past) {
    match call.phase
    case Marking(rec, reply) =>
      Known(rec, KeyFor(call.req), past) && Decide(call.req, rec.content) == Decision(reply, true)
    case Replied(reply, Some(rec)) => Known(rec, KeyFor(call.req), past) && Answers(call.req, rec.content, reply)
    case Replied(reply, None) => reply.Rejected? && reply.refusal != Conflict && reply.refusal != Panics
    case _ => true
  }

  ghost predicate AllJustified(calls: Calls, past: Past) {
    forall c :: c in calls ==> Justified(calls[c], past)
  }

  /** The call is under way, or was answered from a record. */
  predicate Acts(phase: Phase) {
    phase.Replied? ==> phase.cause.Some?
  }

  /** Only admitted calls act, or have ever run a store operation. */
  ghost predicate Admitted(cfg: Config, calls: Calls, running: set<Tid>) {
    && (forall c :: c in calls && Acts(calls[c].phase) ==> Denied(cfg, calls[c].req) == None)
    && (forall t :: t in running && t.call in calls ==> Denied(cfg, calls[t.call].req) == None)
  }

  /** The content published under v is what m's call built from m's results. */
  ghost predicate MadeBy(cfg: Config, calls: Calls, m: Making, b: Birth) {
    && m.call in calls
    && var req := calls[m.call].req;
       && !req.RestoreReq? && Denied(cfg, req) == None && b.key == KeyFor(req)
       && PipelineFacts.FitsInMemory(req.text, m.results)
       && Built(cfg.prefix, PolicyFor(cfg, req), req.text, m.results) == Some(b.rec.content)
  }

  ghost predicate AllMade(cfg: Config, calls: Calls, made: map<nat, Making>, born: map<nat, Birth>) {
    && made.Keys == born.Keys
    && forall v :: v in made ==> MadeBy(cfg, calls, made[v], born[v])
  }

  /** An operation answers in kind. */
  ghost predicate InKind(op: Op, answer: Answer) {
    match answer
    case Looked(_) => op.GetOp?
    case Marked(_) => op.MarkOp?
    case Cleaned => op.CleanOp?
    case _ => op.CreateOp?
  }

  /** The record a creating thread returns is of its own making. */
  ghost predicate OwnWork(t: Tid, th: Thread, made: map<nat, Making>) {
    && (th.pc.Done? ==> InKind(th.op, th.pc.answer))
    && match th.pc
       case Finishing(Delivers(rec)) => rec.version in made && made[rec.version].call == t.call
       case Done(Created(rec), _) => rec.version in made && made[rec.version].call == t.call
       case _ => true
  }

  ghost predicate AllOwnWork(threads: Threads, made: map<nat, Making>) {
    forall t :: t in threads ==> OwnWork(t, threads[t], made)
  }

  /** Every transition was made by a call with grounds for it. */
  ghost predicate AllMarked(calls: Calls, marks: map<nat, nat>, restoredAt: map<nat, Time>) {
    && marks.Keys == restoredAt.Keys
    && forall v :: v in marks ==>
         marks[v] in calls && Marks(calls[marks[v]]) && Acted(calls[marks[v]].phase).value.version == v
  }

  ghost predicate AppInv(cfg: Config, a: App) {
    && SysInv(cfg.limits, a.store)
    && AllServe(a.calls, a.store.threads)
    && AllRun(a.calls, a.store.threads.Keys)
    && AllReturned(a.calls, a.store.threads)
    && AllJustified(a.calls, a.store.past)
    && Admitted(cfg, a.calls, a.store.threads.Keys)
    && AllMade(cfg, a.calls, a.made, a.store.past.born)
    && AllOwnWork(a.store.threads, a.made)
    && AllMarked(a.calls, a.marks, a.store.past.restoredAt)
  }

  // ---- Calls that move on -----------------------------------------------------

  /** A call keeps its request, and the record it acts on once it has one. */
  ghost predicate SameCall(x: Call, y: Call) {
    x.req == y.req && (Acted(x.phase).Some? ==> Acted(y.phase) == Acted(x.phase))
  }

  ghost predicate CallsGrow(calls: Calls, calls': Calls) {
    forall c :: c in calls ==> c in calls' && SameCall(calls[c], calls'[c])
  }

  lemma MadeGrows(cfg: Config, calls: Calls, calls': Calls, made: map<nat, Making>, born: map<nat, Birth>)
    requires AllMade(cfg, calls, made, born) && CallsGrow(calls, calls')
    ensures AllMade(cfg, calls', made, born)
  {
    hide Built, PipelineFacts.FitsInMemory, Denied;
    forall v | v in made ensures MadeBy(cfg, calls', made[v], born[v]) {
      assert MadeBy(cfg, calls, made[v], born[v]);
    }
  }

  lemma MarkedGrows(calls: Calls, calls': Calls, marks: map<nat, nat>, restoredAt: map<nat, Time>)
    requires AllMarked(calls, marks, restoredAt) && CallsGrow(calls, calls')
    ensures AllMarked(calls', marks, restoredAt)
  {
    hide Decide;
  }

  lemma ServesGrows(calls: Calls, calls': Calls, t: Tid, op: Op)
    requires Serves(calls, t, op) && CallsGrow(calls, calls') && (t.call in calls' ==> t.call in calls)
    ensures Serves(calls', t, op)
  {
    hide Decide, KeyFor;
  }

  lemma AllServeGrows(calls: Calls, calls': Calls, threads: Threads)
    requires AllServe(calls, threads) && CallsGrow(calls, calls')
    requires forall t :: t in threads && t.call in calls' ==> t.call in calls
    ensures AllServe(calls', threads)
  {
    hide Serves;
    forall t | t in threads ensures Serves(calls', t, threads[t].op) {
      ServesGrows(calls, calls', t, threads[t].op);
    }
  }

  /** One call moves on; the store may start its next operation. */
  lemma CallMoves(cfg: Config, a: App, c: nat, call: Call)
    requires AppInv(cfg, a) && (c in a.calls ==> SameCall(a.calls[c], call))
    requires c in a.calls || forall t :: t in a.store.threads ==> t.call != c
    requires StageRuns(call, c, a.store.threads.Keys) && Justified(call, a.store.past)
    requires call.phase.Replied? && Tid(c, 2) in a.store.threads ==> a.store.threads[Tid(c, 2)].pc.Done?
    requires Acts(call.phase) ==> Denied(cfg, call.req) == None
    ensures AppInv(cfg, a.(calls := a.calls[c := call]))
  {
    hide SysInv, MadeBy, Serves, Marks, StageRuns, Justified, Denied, OwnWork;
    var calls' := a.calls[c := call];
    MadeGrows(cfg, a.calls, calls', a.made, a.store.past.born);
    MarkedGrows(a.calls, calls', a.marks, a.store.past.restoredAt);
    AllServeGrows(a.calls, calls', a.store.threads);
  }

  /** A call moves on to a new stage. */
  lemma StageStarts(cfg: Config, a: App, t: Tid, op: Op, call: Call)
    requires AppInv(cfg, a) && t !in a.store.threads
    requires t.call in a.calls ==> SameCall(a.calls[t.call], call)
    requires t.call in a.calls || forall u :: u in a.store.threads ==> u.call != t.call
    requires StageOp(call, t.stage, op) && Denied(cfg, call.req) == None && !call.phase.Replied?
    requires StageRuns(call, t.call, a.store.threads.Keys + {t}) && Justified(call, a.store.past)
    ensures AppInv(cfg, a.(store := Started(cfg.limits, a.store, t, op), calls := a.calls[t.call := call]))
  {
    hide SysInv, MadeBy, StageOp, Marks, StageRuns, Justified, Denied, Grows;
    var calls' := a.calls[t.call := call];
    var s := Started(cfg.limits, a.store, t, op);
    StoreStarts(cfg.limits, a.store, t, op);
    MadeGrows(cfg, a.calls, calls', a.made, a.store.past.born);
    MarkedGrows(a.calls, calls', a.marks, a.store.past.restoredAt);
    AllServeGrows(a.calls, calls', a.store.threads);
    assert s.threads.Keys == a.store.threads.Keys + {t};
    forall c | c in calls' ensures StageRuns(calls'[c], c, s.threads.Keys) {
      if c != t.call {
        OtherStage(a.calls[c], c, a.store.threads.Keys, t);
      }
    }
  }

  lemma OtherStage(call: Call, c: nat, running: set<Tid>, t: Tid)
    requires StageRuns(call, c, running) && t.call != c
    ensures StageRuns(call, c, running + {t})
  {
  }

  lemma StoreStarts(l: Limits, s: Sys, t: Tid, op: Op)
    requires SysInv(l, s) && t !in s.threads
    ensures var s' := Started(l, s, t, op);
            SysInv(l, s') && s'.threads == s.threads[t := Thread(op, Ready, NOTHING)] && s'.past == s.past
  {
    hide SysInv;
    StepKeeps(l, s, Spawn(t, op));
  }

  lemma EnterKeeps(cfg: Config, a: App, c: nat, req: Request)
    requires AppInv(cfg, a) && Allowed(cfg, a, Enter(c, req))
    ensures AppInv(cfg, Next(cfg, a, Enter(c, req)))
  {
    hide AppInv, Started, KeyFor;
    match Denied(cfg, req) {
      case Some(refusal) =>
        CallMoves(cfg, a, c, Call(req, Replied(Rejected(refusal), None)));
      case None =>
        StageStarts(cfg, a, Tid(c, 0), GetOp(KeyFor(req)), Call(req, Getting));
    }
  }

  // ---- Calls that continue ----------------------------------------------------

  /** What the invariant says about one call and the thread of its current stage. */
  lemma CallFacts(cfg: Config, a: App, c: nat)
    requires AppInv(cfg, a) && c in a.calls
    ensures StageRuns(a.calls[c], c, a.store.threads.Keys) && Justified(a.calls[c], a.store.past)
    ensures Acts(a.calls[c].phase) ==> Denied(cfg, a.calls[c].req) == None
    ensures var t := Tid(c, Stage(a.calls[c].phase));
            t in a.store.threads ==> ThreadKnows(a.store.threads[t], a.store.past) &&
                                     OwnWork(t, a.store.threads[t], a.made) &&
                                     Serves(a.calls, t, a.store.threads[t].op)
  {
    hide Inv, Protocol, BornOk, EntriesOk, PlainOk, RestorersUnique, StoreObserver.Conserved, Denied, AllMade,
      AllMarked,
      StageRuns, Justified, ThreadKnows, OwnWork, Serves;
  }

  /** The operation of each stage answers in kind. */
  lemma StageAnswers(cfg: Config, a: App, c: nat)
    requires AppInv(cfg, a) && Allowed(cfg, a, Advance(c))
    ensures var phase := a.calls[c].phase; var answer := a.store.threads[Tid(c, Stage(phase))].pc.answer;
            && (phase.Getting? ==> answer.Looked?)
            && (phase.Creating? ==> answer.Created? || answer.Existed? || answer.Failed?)
  {
    hide AppInv, SysInv, Decide, KeyFor, Justified, StageRuns, Known;
    CallFacts(cfg, a, c);
  }

  lemma CreatedByCall(cfg: Config, a: App, c: nat, v: nat)
    requires AppInv(cfg, a) && v in a.made && a.made[v].call == c
    ensures v in a.store.past.born && c in a.calls
    ensures a.store.past.born[v].rec.content.original == a.calls[c].req.text
  {
    hide SysInv, AllServe, AllRun, AllJustified, Admitted, AllOwnWork, AllMarked, Denied;
    assert MadeBy(cfg, a.calls, a.made[v], a.store.past.born[v]);
  }

  lemma SettleKeeps(cfg: Config, a: App, c: nat, rec: Record)
    requires AppInv(cfg, a) && c in a.calls && Tid(c, 2) !in a.store.threads
    requires !a.calls[c].phase.Replied? && !a.calls[c].phase.Marking?
    requires Known(rec, KeyFor(a.calls[c].req), a.store.past)
    ensures AppInv(cfg, Settle(cfg, a, c, rec))
  {
    hide AppInv, Known, Started, KeyFor;
    CallFacts(cfg, a, c);
    var req := a.calls[c].req;
    var d := Decide(req, rec.content);
    if d.marks {
      StageStarts(cfg, a, Tid(c, 2), MarkOp(KeyFor(req), rec.version), Call(req, Marking(rec, d.reply)));
    } else {
      CallMoves(cfg, a, c, Call(req, Replied(d.reply, Some(rec))));
    }
  }

  lemma MarkingAnswers(cfg: Config, a: App, c: nat)
    requires AppInv(cfg, a) && c in a.calls && a.calls[c].phase.Marking?
    requires Tid(c, 2) in a.store.threads && a.store.threads[Tid(c, 2)].pc.Done?
    ensures AppInv(cfg, Answered(a, c, a.calls[c].phase.reply, Some(a.calls[c].phase.rec)))
  {
    hide AppInv, Known;
    CallFacts(cfg, a, c);
    CallMoves(cfg, a, c, a.calls[c].(phase := Replied(a.calls[c].phase.reply, Some(a.calls[c].phase.rec))));
  }

  lemma RejectKeeps(cfg: Config, a: App, c: nat, refusal: Refusal)
    requires AppInv(cfg, a) && c in a.calls && Acted(a.calls[c].phase) == None && !a.calls[c].phase.Replied?
    requires refusal != Conflict && refusal != Panics
    ensures AppInv(cfg, Answered(a, c, Rejected(refusal), None))
  {
    hide AppInv;
    CallFacts(cfg, a, c);
    CallMoves(cfg, a, c, a.calls[c].(phase := Replied(Rejected(refusal), None)));
  }

  lemma DecisionsCreateNothing(req: Request, c: Content)
    ensures Decide(req, c).reply != Text(c.masked, NewMask)
  {
    hide PipelineFacts.RestoredText, Sliceable;
  }

  lemma CreatedAnswers(cfg: Config, a: App, c: nat, rec: Record)
    requires AppInv(cfg, a) && c in a.calls && a.calls[c].phase.Creating? && !a.calls[c].req.RestoreReq?
    requires Known(rec, KeyFor(a.calls[c].req), a.store.past)
    requires rec.version in a.made && a.made[rec.version].call == c
    ensures AppInv(cfg, Answered(a, c, Text(rec.content.masked, NewMask), Some(rec)))
  {
    hide AppInv, KeyFor, Decide;
    CallFacts(cfg, a, c);
    CreatedByCall(cfg, a, c, rec.version);
    DecisionsCreateNothing(a.calls[c].req, rec.content);
    CallMoves(cfg, a, c, a.calls[c].(phase := Replied(Text(rec.content.masked, NewMask), Some(rec))));
  }

  lemma CreateStarts(cfg: Config, a: App, c: nat)
    requires AppInv(cfg, a) && c in a.calls && a.calls[c].phase.Getting? && !a.calls[c].req.RestoreReq?
    requires Tid(c, 1) !in a.store.threads && Tid(c, 2) !in a.store.threads
    ensures var req := a.calls[c].req; var key := KeyFor(req);
            AppInv(cfg, a.(store := Started(cfg.limits, a.store, Tid(c, 1),
                                              CreateOp(key, MinRecordSize(key, |req.text|))),
                           calls := a.calls[c := Call(req, Creating)]))
  {
    hide AppInv, Started, KeyFor;
    CallFacts(cfg, a, c);
    var req := a.calls[c].req;
    var key := KeyFor(req);
    StageStarts(cfg, a, Tid(c, 1), CreateOp(key, MinRecordSize(key, |req.text|)), Call(req, Creating));
  }

  lemma AdvanceKeeps(cfg: Config, a: App, c: nat)
    requires AppInv(cfg, a) && Allowed(cfg, a, Advance(c))
    ensures AppInv(cfg, Next(cfg, a, Advance(c)))
  {
    hide AppInv, Started, Settle, Answered, KeyFor, Known, Decide;
    CallFacts(cfg, a, c);
    var phase := a.calls[c].phase;
    if phase.Marking? {
      MarkingAnswers(cfg, a, c);
    } else {
      match a.store.threads[Tid(c, Stage(phase))].pc.answer {
        case Looked(None) =>
          if a.calls[c].req.RestoreReq? {
            RejectKeeps(cfg, a, c, NotFound);
          } else if phase.Getting? {
            CreateStarts(cfg, a, c);
          }
        case Looked(Some(rec)) => SettleKeeps(cfg, a, c, rec);
        case Existed(rec) => SettleKeeps(cfg, a, c, rec);
        case Created(rec) => CreatedAnswers(cfg, a, c, rec);
        case Failed(error) => RejectKeeps(cfg, a, c, RefusalFor(error));
        case _ =>
      }
    }
  }

  // ---- The store moves --------------------------------------------------------

  /** A thread keeps its operation, stays as it is once it is done, and a creator that
      has published goes on only to return the outcome. */
  ghost predicate KeptOn(x: Thread, y: Thread) {
    && y.op == x.op && (x.pc.Done? ==> y.pc == x.pc)
    && (x.pc.Finishing? ==> y.pc == x.pc || (y.pc.Done? && y.pc.answer == CreatorAnswer(x.pc.outcome)))
  }

  /** What every step of the store keeps, except starting an operation. */
  lemma StoreMoves(l: Limits, s: Sys, step: Step)
    requires SysInv(l, s) && Enabled(l, s, step) && !step.Spawn?
    ensures var s' := StoreSteps.Apply(l, s, step);
            && SysInv(l, s') && Grows(s.past, s'.past) && s.clock <= s'.clock
            && s'.threads.Keys == s.threads.Keys
            && forall t :: t in s.threads ==> KeptOn(s.threads[t], s'.threads[t])
  {
    hide Inv, Protocol, History, RestorersUnique, StoreObserver.Conserved, Drained, DrainEvents, Begin, StoreCore.Get,
      StoreCore.Publish, StoreCore.MarkRestored, Drains, Released, Unlinked;
    StepKeeps(l, s, step);
    HistoryStep(l, s, step);
  }

  lemma CallsStand(cfg: Config, a: App, s: Sys)
    requires AppInv(cfg, a) && Grows(a.store.past, s.past) && s.threads.Keys == a.store.threads.Keys
    requires forall t :: t in s.threads ==> KeptOn(a.store.threads[t], s.threads[t])
    ensures AllServe(a.calls, s.threads) && AllRun(a.calls, s.threads.Keys) && AllJustified(a.calls, s.past)
    ensures AllReturned(a.calls, s.threads)
  {
    hide SysInv, AllMade, AllMarked, AllOwnWork, Admitted, Serves, StageRuns, Justified, Grows;
    forall t | t in s.threads ensures Serves(a.calls, t, s.threads[t].op) {
      assert Serves(a.calls, t, a.store.threads[t].op);
    }
    forall c | c in a.calls ensures Justified(a.calls[c], s.past) {
      JustifiedGrows(a.calls[c], a.store.past, s.past);
    }
  }

  lemma JustifiedGrows(call: Call, past: Past, past': Past)
    requires Justified(call, past) && Grows(past, past')
    ensures Justified(call, past')
  {
    hide Known, Grows, Decide, KeyFor;
    if Acted(call.phase).Some? {
      KnownGrows(Acted(call.phase).value, KeyFor(call.req), past, past');
    }
  }

  /** The records of creating threads and the history of versions do not change but
      by publishing, and transitions but by marking. */
  lemma InsideEffects(l: Limits, s: Sys, step: Step, made: map<nat, Making>)
    requires SysInv(l, s) && Enabled(l, s, step) && Internal(step) && AllOwnWork(s.threads, made)
    ensures var s' := StoreSteps.Apply(l, s, step);
            && s'.past.born == s.past.born && AllOwnWork(s'.threads, made)
            && (!step.DoMark? ==> s'.past.restoredAt == s.past.restoredAt)
  {
    hide SysInv, Drained, DrainEvents, Begin, StoreCore.Get, StoreCore.MarkRestored, Drains, Released, Unlinked,
      OwnWork;
    var s' := StoreSteps.Apply(l, s, step);
    assert OwnWork(step.t, s.threads[step.t], made);
    assert s'.threads == s.threads[step.t := s'.threads[step.t]];
    assert OwnWork(step.t, s'.threads[step.t], made) by {
      StillOwnWork(l, s, step, s', made);
    }
  }

  lemma StillOwnWork(l: Limits, s: Sys, step: Step, s': Sys, made: map<nat, Making>)
    requires SysInv(l, s) && Enabled(l, s, step) && Internal(step) && s' == StoreSteps.Apply(l, s, step)
    requires step.t in s.threads && OwnWork(step.t, s.threads[step.t], made) && step.t in s'.threads
    ensures OwnWork(step.t, s'.threads[step.t], made)
  {
    hide Inv, History, RestorersUnique, StoreObserver.Conserved, HoldersMatch, LinksMatch, KeysFree, CellsMatch,
      Drained, DrainEvents, Drains, Released, Unlinked, Totals.Total, Removals, Expired;
    if step.Wake? || step.TimeOut? {
      WaiterCreates(l, s, step.t);
    }
  }

  lemma WaiterCreates(l: Limits, s: Sys, t: Tid)
    requires SysInv(l, s) && t in s.threads && s.threads[t].pc.Waiting?
    ensures s.threads[t].op.CreateOp?
  {
    hide Inv, History, RestorersUnique, StoreObserver.Conserved, HoldersMatch, LinksMatch, KeysFree;
    assert ThreadOk(t, s.cells, s.threads);
  }

  lemma MarkEffects(cfg: Config, a: App, t: Tid, now: Time)
    requires AppInv(cfg, a) && Enabled(cfg.limits, a.store, DoMark(t, now))
    ensures var a' := Next(cfg, a, Inside(DoMark(t, now))); AllMarked(a'.calls, a'.marks, a'.store.past.restoredAt)
  {
    hide SysInv, AllMade, AllOwnWork, AllRun, AllJustified, Admitted, Marks, Expired, MayRestore;
    assert Serves(a.calls, t, a.store.threads[t].op);
  }

  lemma InsideKeeps(cfg: Config, a: App, step: Step)
    requires AppInv(cfg, a) && Allowed(cfg, a, Inside(step))
    ensures AppInv(cfg, Next(cfg, a, Inside(step)))
  {
    StoreMoves(cfg.limits, a.store, step);
    InsideEffects(cfg.limits, a.store, step, a.made);
    CallsStand(cfg, a, StoreSteps.Apply(cfg.limits, a.store, step));
    if step.DoMark? {
      MarkEffects(cfg, a, step.t, step.now);
    }
    hide SysInv, AllServe, AllRun, AllJustified, Admitted, AllMade, AllOwnWork, AllMarked, StoreSteps.Apply, Enabled;
  }

  lemma CleanKeeps(cfg: Config, a: App, t: Tid)
    requires AppInv(cfg, a) && Allowed(cfg, a, Clean(t))
    ensures AppInv(cfg, Next(cfg, a, Clean(t)))
  {
    hide SysInv, AllMade, AllMarked, StageRuns, Justified, Denied;
    StoreStarts(cfg.limits, a.store, t, CleanOp);
    var s := Started(cfg.limits, a.store, t, CleanOp);
    forall c | c in a.calls ensures StageRuns(a.calls[c], c, s.threads.Keys) {
      assert s.threads.Keys == a.store.threads.Keys + {t};
      OtherStage(a.calls[c], c, a.store.threads.Keys, t);
    }
  }

  // ---- Building ---------------------------------------------------------------

  lemma FailKeeps(cfg: Config, a: App, t: Tid, s: Sys)
    requires Enabled(cfg.limits, a.store, FailBuild(t, ERR_RECOGNITION))
    requires s == StoreSteps.Apply(cfg.limits, a.store, FailBuild(t, ERR_RECOGNITION))
    requires AppInv(cfg, a)
    ensures AppInv(cfg, a.(store := s))
  {
    hide *;
    InvParts(cfg, a);
    FailEffects(cfg.limits, a.store, t, a.made);
    StoreMoves(cfg.limits, a.store, FailBuild(t, ERR_RECOGNITION));
    StoreAdvances(cfg, a, s);
  }

  lemma CanFail(cfg: Config, a: App, t: Tid)
    requires CanBuild(cfg, a, t)
    ensures Enabled(cfg.limits, a.store, FailBuild(t, ERR_RECOGNITION))
  {
  }

  lemma InvParts(cfg: Config, a: App)
    requires AppInv(cfg, a)
    ensures SysInv(cfg.limits, a.store) && AllOwnWork(a.store.threads, a.made)
  {
    hide SysInv, AllOwnWork;
  }

  /** The store moves on, and no version is published or marked. */
  lemma StoreAdvances(cfg: Config, a: App, s: Sys)
    requires AppInv(cfg, a) && SysInv(cfg.limits, s) && Grows(a.store.past, s.past)
    requires s.threads.Keys == a.store.threads.Keys
    requires forall t :: t in s.threads ==> KeptOn(a.store.threads[t], s.threads[t])
    requires s.past.born == a.store.past.born && s.past.restoredAt == a.store.past.restoredAt
    requires AllOwnWork(s.threads, a.made)
    ensures AppInv(cfg, a.(store := s))
  {
    CallsStand(cfg, a, s);
    hide SysInv, AllServe, AllRun, AllJustified, AllMade, AllMarked, AllOwnWork, Admitted, Grows;
  }

  lemma FailEffects(l: Limits, s: Sys, t: Tid, made: map<nat, Making>)
    requires AllOwnWork(s.threads, made) && Enabled(l, s, FailBuild(t, ERR_RECOGNITION))
    ensures var s' := StoreSteps.Apply(l, s, FailBuild(t, ERR_RECOGNITION));
            s'.past == s.past && AllOwnWork(s'.threads, made)
  {
    hide Released;
    var s' := StoreSteps.Apply(l, s, FailBuild(t, ERR_RECOGNITION));
    forall u | u in s'.threads ensures OwnWork(u, s'.threads[u], made) {
      assert u != t ==> OwnWork(u, s.threads[u], made);
    }
  }

  lemma PublishKeeps(cfg: Config, a: App, t: Tid, results: seq<Finding>, drainedAt: Time, at: Time, gone: set<Key>)
    requires AppInv(cfg, a) && Allowed(cfg, a, Build(t, results, drainedAt, at, gone))
    requires BuildResult(cfg, a, t, results).Some?
    ensures AppInv(cfg, Next(cfg, a, Build(t, results, drainedAt, at, gone)))
  {
    hide Enabled, StoreSteps.Apply, SysInv, PipelineFacts.FitsInMemory, Grows, AllServe, AllRun, AllJustified, AllMade,
      AllOwnWork, AllMarked, Admitted, Built, CanBuild;
    var content := BuildResult(cfg, a, t, results).value;
    var s' := StoreSteps.Apply(cfg.limits, a.store, DoPublish(t, content, drainedAt, at, gone));
    StoreMoves(cfg.limits, a.store, DoPublish(t, content, drainedAt, at, gone));
    CallsStand(cfg, a, s');
    PublishedVersion(cfg.limits, a.store, t, content, drainedAt, at, gone);
    BuiltByCall(cfg, a, t, results);
    if s'.core.nextVer == a.store.core.nextVer {
      NoOneMore(a.store.threads, s'.threads, t, a.made);
    } else {
      MadeOneMore(cfg, a.calls, a.store.threads, s'.threads, a.made, a.store.past.born, s'.past.born, t, results,
                  s'.threads[t].pc.outcome.rec);
    }
  }

  lemma BuiltByCall(cfg: Config, a: App, t: Tid, results: seq<Finding>)
    requires AppInv(cfg, a) && CanBuild(cfg, a, t) && BuildResult(cfg, a, t, results).Some?
    requires PipelineFacts.FitsInMemory(a.calls[t.call].req.text, results)
    ensures t in a.store.threads && a.store.threads[t].op.CreateOp? && t.call in a.calls
    ensures forall rec: Record :: rec.content == BuildResult(cfg, a, t, results).value ==>
              MadeBy(cfg, a.calls, Making(t.call, results), Birth(a.store.threads[t].op.key, rec))
  {
    hide SysInv, PipelineFacts.FitsInMemory, AllRun, AllJustified, AllMade, AllOwnWork, AllMarked, Admitted, Built,
      KeyFor;
    assert Serves(a.calls, t, a.store.threads[t].op);
  }

  lemma NoOneMore(threads: Threads, threads': Threads, t: Tid, made: map<nat, Making>)
    requires AllOwnWork(threads, made) && t in threads' && threads' == threads[t := threads'[t]]
    requires threads'[t].pc.Finishing? && threads'[t].pc.outcome.Fails?
    ensures AllOwnWork(threads', made)
  {
    forall u | u in threads' ensures OwnWork(u, threads'[u], made) {
      assert u != t ==> OwnWork(u, threads[u], made);
    }
  }

  lemma MadeOneMore(cfg: Config, calls: Calls, threads: Threads, threads': Threads, made: map<nat, Making>,
                    born: map<nat, Birth>, born': map<nat, Birth>, t: Tid, results: seq<Finding>, rec: Record)
    requires AllMade(cfg, calls, made, born) && AllOwnWork(threads, made)
    requires t in threads && threads[t].op.CreateOp? && rec.version !in born
    requires born' == born[rec.version := Birth(threads[t].op.key, rec)]
    requires MadeBy(cfg, calls, Making(t.call, results), Birth(threads[t].op.key, rec))
    requires t in threads' && threads' == threads[t := threads'[t]] && threads'[t].pc == Finishing(Delivers(rec))
    ensures var made' := made[rec.version := Making(t.call, results)];
            AllMade(cfg, calls, made', born') && AllOwnWork(threads', made')
  {
    hide MadeBy;
    var made' := made[rec.version := Making(t.call, results)];
    forall u | u in threads' ensures OwnWork(u, threads'[u], made') {
      assert u != t ==> OwnWork(u, threads[u], made);
    }
  }

  /** What publishing does to the versions. */
  lemma PublishedVersion(l: Limits, s: Sys, t: Tid, content: Content, drainedAt: Time, at: Time, gone: set<Key>)
    requires SysInv(l, s) && Enabled(l, s, DoPublish(t, content, drainedAt, at, gone))
    ensures var s' := StoreSteps.Apply(l, s, DoPublish(t, content, drainedAt, at, gone)); var v := s'.core.nextVer;
            && s'.past.restoredAt == s.past.restoredAt
            && s'.threads == s.threads[t := s'.threads[t]] && s'.threads[t].pc.Finishing?
            && (if v == s.core.nextVer then s'.past.born == s.past.born && s'.threads[t].pc.outcome.Fails?
                else
                  && v !in s.past.born && s'.threads[t].pc.outcome.Delivers?
                  && s'.threads[t].pc.outcome.rec.version == v
                  && s'.threads[t].pc.outcome.rec.content == content
                  && s'.past.born == s.past.born[v := Birth(s.threads[t].op.key, s'.threads[t].pc.outcome.rec)])
  {
    hide Inv, Protocol, RestorersUnique, StoreObserver.Conserved, EntriesOk, PlainOk, ThreadsKnow, Drains, Totals.Total,
      Removals, PublishRefusal, RecordSize;
  }

  lemma BuildKeeps(cfg: Config, a: App, t: Tid, results: seq<Finding>, drainedAt: Time, at: Time, gone: set<Key>)
    requires AppInv(cfg, a) && Allowed(cfg, a, Build(t, results, drainedAt, at, gone))
    ensures AppInv(cfg, Next(cfg, a, Build(t, results, drainedAt, at, gone)))
  {
    hide AppInv, StoreSteps.Apply, Enabled, Built, PipelineFacts.FitsInMemory, Denied;
    if BuildResult(cfg, a, t, results).Some? {
      PublishKeeps(cfg, a, t, results, drainedAt, at, gone);
    } else {
      CanFail(cfg, a, t);
      FailKeeps(cfg, a, t, StoreSteps.Apply(cfg.limits, a.store, FailBuild(t, ERR_RECOGNITION)));
    }
  }
}

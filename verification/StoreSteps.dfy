/** The store under concurrency: every critical section is one atomic step of a
    thread, the observer is told later, and the clock never goes back. */
module StoreSteps {
  import opened Bytes
  import opened Expiry
  import opened Totals
  import opened StoreCore

  /** One call of the store. It makes at most one reservation that others can see,
      so its name also names that reservation. */
  datatype Tid = Tid(call: nat, stage: nat)

  datatype Op = GetOp(key: Key) | CreateOp(key: Key, minSize: nat) | MarkOp(key: Key, version: nat) | CleanOp

  datatype Answer =
    | Looked(found: Option<Record>)
    | Created(rec: Record)
    | Existed(rec: Record)
    | Failed(error: Error)
    | Marked(ok: bool)
    | Cleaned

  /** Where a thread stands. `Finishing` lies between the publishing section and
      `finishInflight`; `via` is the reservation whose outcome was returned. */
  datatype Pc =
    | Ready
    | Building
    | Finishing(outcome: Outcome)
    | Waiting(on: Tid)
    | Done(answer: Answer, via: Option<Tid>)

  /** `owed` are the events not yet delivered to the observer. */
  datatype Thread = Thread(op: Op, pc: Pc, owed: Tally)

  /** The `done` channel of a reservation, with the result behind it. */
  datatype Cell = Open | Closed(outcome: Outcome)

  datatype Birth = Birth(key: Key, rec: Record)

  /** History, which no step reads: the record published under each version, the
      time of each version's transition, the records of a map without eviction,
      and whether some transition hit a record that had already expired. */
  datatype Past = Past(born: map<nat, Birth>, restoredAt: map<nat, Time>, plain: map<Key, Record>, late: bool)

  datatype Sys = Sys(core: Core<Tid>, cells: map<Tid, Cell>, threads: map<Tid, Thread>, clock: Time,
                     told: Tally, past: Past)

  ghost function Init(at: Time): Sys {
    Sys(Core(map[], 0, 0, 0, map[], map[], 0, map[]), map[], map[], at, NOTHING, Past(map[], map[], map[], false))
  }

  datatype Step =
    | Spawn(t: Tid, op: Op)
    | DoGet(t: Tid, now: Time)
    | DoBegin(t: Tid, now: Time, gone: set<Key>)
    | Cancel(t: Tid)
    | TimeOut(t: Tid)
    | Wake(t: Tid)
    | FailBuild(t: Tid, error: Error)
    | DoPublish(t: Tid, content: Content, drainedAt: Time, at: Time, gone: set<Key>)
    | DoFinish(t: Tid)
    | DoMark(t: Tid, now: Time)
    | DoClean(t: Tid, now: Time, gone: set<Key>)
    | Deliver(t: Tid, part: Tally)

  function Reserve(op: Op): nat
    requires op.CreateOp?
  {
    op.minSize + INFLIGHT_OVERHEAD
  }

  ghost predicate At(s: Sys, t: Tid, pc: Pc) {
    t in s.threads && s.threads[t].pc == pc
  }

  ghost predicate Enabled(l: Limits, s: Sys, step: Step) {
    match step
    case Spawn(t, op) => t !in s.threads
    case DoGet(t, now) => At(s, t, Ready) && s.threads[t].op.GetOp? && s.clock <= now
    case DoBegin(t, now, gone) =>
      At(s, t, Ready) && s.threads[t].op.CreateOp? && s.clock <= now && Drains(l, s.core, gone, now)
    case Cancel(t) =>
      t in s.threads && s.threads[t].op.CreateOp? && (s.threads[t].pc.Ready? || s.threads[t].pc.Waiting?)
    case TimeOut(t) => t in s.threads && s.threads[t].pc.Waiting?
    case Wake(t) =>
      t in s.threads && s.threads[t].pc.Waiting? && s.threads[t].pc.on in s.cells && s.cells[s.threads[t].pc.on].Closed?
    case FailBuild(t, error) => At(s, t, Building) && s.threads[t].op.CreateOp?
    case DoPublish(t, content, drainedAt, at, gone) =>
      At(s, t, Building) && s.threads[t].op.CreateOp? && s.clock <= drainedAt <= at &&
        Drains(l, s.core, gone, drainedAt)
    case DoFinish(t) => t in s.threads && s.threads[t].pc.Finishing? && s.threads[t].op.CreateOp?
    case DoMark(t, now) => At(s, t, Ready) && s.threads[t].op.MarkOp? && s.clock <= now
    case DoClean(t, now, gone) =>
      At(s, t, Ready) && s.threads[t].op.CleanOp? && s.clock <= now && Drains(l, s.core, gone, now)
    case Deliver(t, part) => t in s.threads
  }

  /** Thread t moves on and owes the observer ev. */
  ghost function Moved(threads: map<Tid, Thread>, t: Tid, pc: Pc, ev: Tally): map<Tid, Thread>
    requires t in threads
  {
    threads[t := threads[t].(pc := pc, owed := Plus(threads[t].owed, ev))]
  }

  /** What the creator itself returns for an outcome. */
  function CreatorAnswer(out: Outcome): Answer {
    match out
    case Delivers(rec) => Created(rec)
    case Fails(error) => Failed(error)
  }

  /** `waitInflight` once the reservation is done: a creator cancelled by its own
      context lets the waiter try again. */
  function AfterWait(on: Tid, out: Outcome): Pc {
    match out
    case Delivers(rec) => Done(Existed(rec), Some(on))
    case Fails(error) => if error.ErrContext? then Ready else Done(Failed(error), Some(on))
  }

  function AfterBegin(out: Begun<Tid>): Pc {
    match out
    case Retry => Ready
    case Existing(rec) => Done(Existed(rec), None)
    case Wait(ref) => Waiting(ref)
    case Refused(reason) => Done(Failed(ErrCapacity), None)
    case Granted => Building
  }

  ghost function Apply(l: Limits, s: Sys, step: Step): Sys
    requires Enabled(l, s, step)
  {
    match step
    case Spawn(t, op) => s.(threads := s.threads[t := Thread(op, Ready, NOTHING)])
    case DoGet(t, now) =>
      var (core, found, ev) := StoreCore.Get(l, s.core, s.threads[t].op.key, now);
      s.(core := core, threads := Moved(s.threads, t, Done(Looked(found), None), ev), clock := now)
    case DoBegin(t, now, gone) =>
      var op := s.threads[t].op;
      var (core, out, ev) := Begin(l, s.core, op.key, Reserve(op), t, gone, now);
      s.(core := core, threads := Moved(s.threads, t, AfterBegin(out), ev), clock := now,
         cells := if out.Granted? then s.cells[t := Open] else s.cells)
    case Cancel(t) => s.(threads := Moved(s.threads, t, Done(Failed(ErrContext), None), NOTHING))
    case TimeOut(t) => s.(threads := Moved(s.threads, t, Done(Failed(ErrBusy), None), NOTHING))
    case Wake(t) =>
      var on := s.threads[t].pc.on;
      s.(threads := Moved(s.threads, t, AfterWait(on, s.cells[on].outcome), NOTHING))
    case FailBuild(t, error) => ApplyFail(s, t, error)
    case DoPublish(t, content, drainedAt, at, gone) => ApplyPublish(l, s, t, content, at, gone)
    case DoFinish(t) =>
      var out := s.threads[t].pc.outcome;
      s.(core := Unlinked(s.core, s.threads[t].op.key, t),
         threads := Moved(s.threads, t, Done(CreatorAnswer(out), Some(t)), NOTHING), cells := s.cells[t := Closed(out)])
    case DoMark(t, now) => ApplyMark(l, s, t, now)
    case DoClean(t, now, gone) =>
      s.(core := Drained(s.core, gone), clock := now,
         threads := Moved(s.threads, t, if gone == {} then Done(Cleaned, None) else Ready, DrainEvents(s.core, gone)))
    case Deliver(t, part) =>
      var th := s.threads[t];
      s.(threads := s.threads[t := th.(owed := Minus(th.owed, part))], told := Plus(s.told, part))
  }

  function Minus(a: Tally, b: Tally): Tally {
    Tally(a.addedPending - b.addedPending, a.addedReplay - b.addedReplay,
          a.removedPending - b.removedPending, a.removedReplay - b.removedReplay,
          a.ttlPending - b.ttlPending, a.ttlReplay - b.ttlReplay,
          a.bytesPending - b.bytesPending, a.bytesReplay - b.bytesReplay)
  }

  /** `failInflight`: release, record the error, close, return it. */
  ghost function ApplyFail(s: Sys, t: Tid, error: Error): Sys
    requires At(s, t, Building) && s.threads[t].op.CreateOp?
  {
    var op := s.threads[t].op;
    s.(core := Released(s.core, op.key, t, Reserve(op)),
       threads := Moved(s.threads, t, Done(Failed(error), Some(t)), NOTHING),
       cells := s.cells[t := Closed(Fails(error))])
  }

  ghost function ApplyPublish(l: Limits, s: Sys, t: Tid, content: Content, at: Time, gone: set<Key>): Sys
    requires At(s, t, Building) && s.threads[t].op.CreateOp?
  {
    var op := s.threads[t].op;
    var (core, out, ev) := StoreCore.Publish(l, s.core, op.key, t, Reserve(op), content, gone, at);
    match out
    case Rejects(reason) =>
      s.(core := core, clock := at, threads := Moved(s.threads, t, Finishing(Fails(ErrCapacity)), ev))
    case Stores(rec) =>
      s.(core := core, clock := at,
         threads := Moved(s.threads, t, Finishing(Delivers(rec)), Plus(ev, Addition(rec.size))),
         past := s.past.(born := s.past.born[rec.version := Birth(op.key, rec)],
                         plain := s.past.plain[op.key := rec]))
  }

  /** The map without eviction makes the transition only while the record lives. */
  ghost function ApplyMark(l: Limits, s: Sys, t: Tid, now: Time): Sys
    requires At(s, t, Ready) && s.threads[t].op.MarkOp?
  {
    var key, version := s.threads[t].op.key, s.threads[t].op.version;
    var (core, ok, ev) := StoreCore.MarkRestored(l, s.core, key, version, now);
    var moved := s.(core := core, clock := now, threads := Moved(s.threads, t, Done(Marked(ok), None), ev));
    if ok then
      var expired := Expired(l, s.core.entries[key], now);
      moved.(past := s.past.(restoredAt := s.past.restoredAt[version := now], late := s.past.late || expired,
                             plain := if expired then s.past.plain else s.past.plain[key := core.entries[key]]))
    else moved
  }

  // ---- Runs -------------------------------------------------------------------

  ghost predicate Runs(l: Limits, s: Sys, steps: seq<Step>)
    decreases |steps|
  {
    steps == [] || (Enabled(l, s, steps[0]) && Runs(l, Apply(l, s, steps[0]), steps[1..]))
  }

  ghost function Exec(l: Limits, s: Sys, steps: seq<Step>): Sys
    requires Runs(l, s, steps)
    decreases |steps|
  {
    if steps == [] then s else Exec(l, Apply(l, s, steps[0]), steps[1..])
  }
}

/** The reservation protocol: what holds between threads, reservations and stored
    keys in every reachable state. */
module StoreProtocol {
  import opened Bytes
  import opened Expiry
  import opened Totals
  import opened StoreCore
  import opened StoreInvariant
  import opened StoreSteps

  type Threads = map<Tid, Thread>
  type Cells = map<Tid, Cell>

  // ---- The invariant ----------------------------------------------------------

  /** The active reservations are exactly those of the threads that build. */
  ghost predicate HoldersMatch(active: map<Tid, int>, threads: Threads) {
    && (forall t :: t in active <==> t in threads && threads[t].pc.Building?)
    && (forall t :: t in active ==> threads[t].op.CreateOp? && active[t] == Reserve(threads[t].op))
  }

  /** A thread whose reservation is linked under its key: it builds, or it has
      published and not finished yet. */
  ghost predicate HoldsLink(th: Thread) {
    th.op.CreateOp? && (th.pc.Building? || (th.pc.Finishing? && th.pc.outcome.Delivers?))
  }

  ghost predicate LinksMatch(inflight: map<Key, Tid>, threads: Threads) {
    && (forall k :: k in inflight ==>
          inflight[k] in threads && HoldsLink(threads[inflight[k]]) && threads[inflight[k]].op.key == k)
    && (forall t :: t in threads && HoldsLink(threads[t]) ==>
          threads[t].op.key in inflight && inflight[threads[t].op.key] == t)
  }

  /** While a key is being built no record is stored under it. */
  ghost predicate KeysFree(entries: map<Key, Record>, threads: Threads) {
    forall t :: t in threads && threads[t].pc.Building? && threads[t].op.CreateOp? ==> threads[t].op.key !in entries
  }

  ghost predicate SameKey(threads: Threads, t: Tid, r: Tid) {
    t in threads && r in threads && threads[t].op.CreateOp? && threads[r].op.CreateOp? &&
    threads[t].op.key == threads[r].op.key
  }

  /** What thread t may rely on, by where it stands. */
  ghost predicate ThreadOk(t: Tid, cells: Cells, threads: Threads)
    requires t in threads
  {
    match threads[t].pc
    case Ready => t !in cells
    case Building => threads[t].op.CreateOp? && t in cells && cells[t] == Open
    case Finishing(out) => threads[t].op.CreateOp? && t in cells && cells[t] == Open
    case Waiting(on) => t !in cells && on in cells && SameKey(threads, t, on)
    case Done(answer, None) => t !in cells
    case Done(answer, Some(r)) =>
      && r in cells && cells[r].Closed? && SameKey(threads, t, r)
      && if r == t then answer == CreatorAnswer(cells[r].outcome)
         else t !in cells && AfterWait(r, cells[r].outcome) == Done(answer, Some(r))
  }

  /** An open reservation belongs to a thread that is still going to close it; a
      closed one holds what its creator returned. */
  ghost predicate CellOk(t: Tid, cells: Cells, threads: Threads)
    requires t in cells
  {
    && t in threads
    && match cells[t]
       case Open => threads[t].pc.Building? || threads[t].pc.Finishing?
       case Closed(out) => threads[t].pc == Done(CreatorAnswer(out), Some(t))
  }

  ghost predicate CellsMatch(cells: Cells, threads: Threads) {
    && (forall t :: t in threads ==> ThreadOk(t, cells, threads))
    && (forall t :: t in cells ==> CellOk(t, cells, threads))
  }

  ghost predicate Protocol(core: Core<Tid>, cells: Cells, threads: Threads) {
    && HoldersMatch(core.active, threads)
    && LinksMatch(core.inflight, threads)
    && KeysFree(core.entries, threads)
    && CellsMatch(cells, threads)
  }

  // ---- Moves ------------------------------------------------------------------

  /** A thread that holds no reservation and takes none moves on. */
  lemma QuietMove(core: Core<Tid>, core': Core<Tid>, cells: Cells, threads: Threads, t: Tid, pc: Pc, ev: Tally)
    requires Protocol(core, cells, threads) && t in threads
    requires threads[t].pc.Ready? || threads[t].pc.Waiting?
    requires core'.active == core.active && core'.inflight == core.inflight
    requires core'.entries.Keys <= core.entries.Keys
    requires pc.Ready? || pc.Done? || pc.Waiting?
    requires ThreadOk(t, cells, Moved(threads, t, pc, ev))
    ensures Protocol(core', cells, Moved(threads, t, pc, ev))
  {
    hide HoldersMatch, LinksMatch, KeysFree, CellsMatch, ThreadOk;
    QuietCells(cells, threads, t, pc, ev);
    QuietReservations(core, core', threads, t, pc, ev);
  }

  lemma QuietReservations(core: Core<Tid>, core': Core<Tid>, threads: Threads, t: Tid, pc: Pc, ev: Tally)
    requires HoldersMatch(core.active, threads) && LinksMatch(core.inflight, threads) && KeysFree(core.entries, threads)
    requires t in threads && (threads[t].pc.Ready? || threads[t].pc.Waiting?)
    requires core'.active == core.active && core'.inflight == core.inflight
    requires core'.entries.Keys <= core.entries.Keys
    requires pc.Ready? || pc.Done? || pc.Waiting?
    ensures var threads' := Moved(threads, t, pc, ev);
            && HoldersMatch(core'.active, threads') && LinksMatch(core'.inflight, threads')
            && KeysFree(core'.entries, threads')
  {
  }

  lemma QuietCells(cells: Cells, threads: Threads, t: Tid, pc: Pc, ev: Tally)
    requires CellsMatch(cells, threads) && t in threads
    requires threads[t].pc.Ready? || threads[t].pc.Waiting?
    requires ThreadOk(t, cells, Moved(threads, t, pc, ev))
    ensures CellsMatch(cells, Moved(threads, t, pc, ev))
  {
    var threads' := Moved(threads, t, pc, ev);
    assert ThreadOk(t, cells, threads);
    forall u | u in threads' ensures ThreadOk(u, cells, threads') {
      assert ThreadOk(u, cells, threads);
    }
    forall u | u in cells ensures CellOk(u, cells, threads') {
      assert CellOk(u, cells, threads);
    }
  }

  /** The thread becomes the creator for its key. */
  lemma GrantMove(core: Core<Tid>, core': Core<Tid>, cells: Cells, threads: Threads, t: Tid, ev: Tally)
    requires Protocol(core, cells, threads) && t in threads && threads[t].pc.Ready? && threads[t].op.CreateOp?
    requires core'.active == core.active[t := Reserve(threads[t].op)]
    requires threads[t].op.key !in core.inflight && core'.inflight == core.inflight[threads[t].op.key := t]
    requires threads[t].op.key !in core.entries && core'.entries.Keys <= core.entries.Keys
    ensures Protocol(core', cells[t := Open], Moved(threads, t, Building, ev))
  {
    hide CellsMatch, HoldersMatch, LinksMatch;
    GrantCells(cells, threads, t, ev);
    GrantReservation(core, core', threads, t, ev);
  }

  lemma GrantReservation(core: Core<Tid>, core': Core<Tid>, threads: Threads, t: Tid, ev: Tally)
    requires HoldersMatch(core.active, threads) && LinksMatch(core.inflight, threads)
    requires t in threads && threads[t].pc.Ready? && threads[t].op.CreateOp?
    requires core'.active == core.active[t := Reserve(threads[t].op)]
    requires threads[t].op.key !in core.inflight && core'.inflight == core.inflight[threads[t].op.key := t]
    ensures HoldersMatch(core'.active, Moved(threads, t, Building, ev))
    ensures LinksMatch(core'.inflight, Moved(threads, t, Building, ev))
  {
  }

  lemma GrantCells(cells: Cells, threads: Threads, t: Tid, ev: Tally)
    requires CellsMatch(cells, threads) && t in threads && threads[t].pc.Ready? && threads[t].op.CreateOp?
    ensures CellsMatch(cells[t := Open], Moved(threads, t, Building, ev))
  {
    var threads', cells' := Moved(threads, t, Building, ev), cells[t := Open];
    assert ThreadOk(t, cells, threads);
    forall u | u in threads' ensures ThreadOk(u, cells', threads') {
      assert ThreadOk(u, cells, threads);
    }
    forall u | u in cells' ensures CellOk(u, cells', threads') {
      assert u in cells ==> CellOk(u, cells, threads);
    }
  }

  /** The creator closes its reservation, from building or from finishing. */
  lemma CloseCells(cells: Cells, threads: Threads, t: Tid, out: Outcome)
    requires CellsMatch(cells, threads) && t in threads && threads[t].op.CreateOp?
    requires threads[t].pc == Building || threads[t].pc == Finishing(out)
    ensures CellsMatch(cells[t := Closed(out)], Moved(threads, t, Done(CreatorAnswer(out), Some(t)), NOTHING))
  {
    var threads', cells' := Moved(threads, t, Done(CreatorAnswer(out), Some(t)), NOTHING), cells[t := Closed(out)];
    assert ThreadOk(t, cells, threads);
    forall u | u in threads' ensures ThreadOk(u, cells', threads') {
      assert ThreadOk(u, cells, threads);
    }
    forall u | u in cells' ensures CellOk(u, cells', threads') {
      assert u in cells ==> CellOk(u, cells, threads);
    }
  }

  /** The reservation of t leaves the accounts, and its link goes. */
  lemma ReleaseMove(core: Core<Tid>, threads: Threads, threads': Threads, t: Tid)
    requires HoldersMatch(core.active, threads) && LinksMatch(core.inflight, threads) && KeysFree(core.entries, threads)
    requires t in threads && threads[t].pc.Building? && threads[t].op.CreateOp?
    requires t in threads' && threads' == threads[t := threads'[t]] && threads'[t].op == threads[t].op
    requires !threads'[t].pc.Building? && !HoldsLink(threads'[t])
    ensures var core' := Released(core, threads[t].op.key, t, Reserve(threads[t].op));
            && HoldersMatch(core'.active, threads') && LinksMatch(core'.inflight, threads')
            && KeysFree(core'.entries, threads')
  {
    assert HoldsLink(threads[t]);
  }

  lemma FailMove(core: Core<Tid>, cells: Cells, threads: Threads, t: Tid, error: Error)
    requires Protocol(core, cells, threads)
    requires t in threads && threads[t].pc.Building? && threads[t].op.CreateOp?
    ensures Protocol(Released(core, threads[t].op.key, t, Reserve(threads[t].op)), cells[t := Closed(Fails(error))],
                     Moved(threads, t, Done(Failed(error), Some(t)), NOTHING))
  {
    hide HoldersMatch, LinksMatch, KeysFree, CellsMatch, Released;
    CloseCells(cells, threads, t, Fails(error));
    ReleaseMove(core, threads, Moved(threads, t, Done(Failed(error), Some(t)), NOTHING), t);
    ReleasedEntries(core, threads[t].op.key, t, Reserve(threads[t].op));
  }

  lemma ReleasedEntries(core: Core<Tid>, key: Key, t: Tid, reserve: int)
    ensures Released(core, key, t, reserve).entries == core.entries
  {
  }

  /** From building to finishing: the cell stays open. */
  lemma FinishingCells(cells: Cells, threads: Threads, t: Tid, out: Outcome, ev: Tally)
    requires CellsMatch(cells, threads) && t in threads && threads[t].pc.Building?
    ensures CellsMatch(cells, Moved(threads, t, Finishing(out), ev))
  {
    var threads' := Moved(threads, t, Finishing(out), ev);
    assert ThreadOk(t, cells, threads);
    forall u | u in threads' ensures ThreadOk(u, cells, threads') {
      assert ThreadOk(u, cells, threads);
    }
    forall u | u in cells ensures CellOk(u, cells, threads') {
      assert CellOk(u, cells, threads);
    }
  }

  lemma RejectMove(core: Core<Tid>, d: Core<Tid>, cells: Cells, threads: Threads, t: Tid, ev: Tally)
    requires Protocol(core, cells, threads)
    requires t in threads && threads[t].pc.Building? && threads[t].op.CreateOp?
    requires d.active == core.active && d.inflight == core.inflight && d.entries.Keys <= core.entries.Keys
    ensures Protocol(Released(d, threads[t].op.key, t, Reserve(threads[t].op)), cells,
                     Moved(threads, t, Finishing(Fails(ErrCapacity)), ev))
  {
    hide HoldersMatch, LinksMatch, CellsMatch, Released;
    FinishingCells(cells, threads, t, Fails(ErrCapacity), ev);
    ReleaseMove(d, threads, Moved(threads, t, Finishing(Fails(ErrCapacity)), ev), t);
    ReleasedEntries(d, threads[t].op.key, t, Reserve(threads[t].op));
  }

  lemma StoreMove(core: Core<Tid>, core': Core<Tid>, cells: Cells, threads: Threads, t: Tid, rec: Record, ev: Tally)
    requires Protocol(core, cells, threads)
    requires t in threads && threads[t].pc.Building? && threads[t].op.CreateOp?
    requires core'.active == core.active - {t} && core'.inflight == core.inflight
    requires core'.entries.Keys <= core.entries.Keys + {threads[t].op.key}
    ensures Protocol(core', cells, Moved(threads, t, Finishing(Delivers(rec)), ev))
  {
    hide CellsMatch;
    FinishingCells(cells, threads, t, Delivers(rec), ev);
    var threads' := Moved(threads, t, Finishing(Delivers(rec)), ev);
    assert HoldsLink(threads[t]);
    forall u | u in threads' && threads'[u].pc.Building? && threads'[u].op.CreateOp?
      ensures threads'[u].op.key !in core'.entries
    {
      assert HoldsLink(threads[u]);
    }
    assert HoldersMatch(core'.active, threads');
    assert LinksMatch(core'.inflight, threads');
  }

  lemma FinishLinks(core: Core<Tid>, threads: Threads, t: Tid)
    requires LinksMatch(core.inflight, threads)
    requires t in threads && threads[t].pc.Finishing? && threads[t].op.CreateOp?
    ensures LinksMatch(Unlinked(core, threads[t].op.key, t).inflight,
                       Moved(threads, t, Done(CreatorAnswer(threads[t].pc.outcome), Some(t)), NOTHING))
  {
    var threads' := Moved(threads, t, Done(CreatorAnswer(threads[t].pc.outcome), Some(t)), NOTHING);
    var inflight' := Unlinked(core, threads[t].op.key, t).inflight;
    forall u | u in threads' && HoldsLink(threads'[u])
      ensures threads'[u].op.key in inflight' && inflight'[threads'[u].op.key] == u
    {
      assert HoldsLink(threads[u]);
    }
    assert forall k :: k in inflight' ==> k in core.inflight && inflight'[k] != t;
  }

  lemma FinishMove(core: Core<Tid>, cells: Cells, threads: Threads, t: Tid)
    requires Protocol(core, cells, threads)
    requires t in threads && threads[t].pc.Finishing? && threads[t].op.CreateOp?
    ensures var out := threads[t].pc.outcome;
            Protocol(Unlinked(core, threads[t].op.key, t), cells[t := Closed(out)],
                     Moved(threads, t, Done(CreatorAnswer(out), Some(t)), NOTHING))
  {
    hide CellsMatch, LinksMatch;
    CloseCells(cells, threads, t, threads[t].pc.outcome);
    FinishLinks(core, threads, t);
  }

  lemma SpawnMove(core: Core<Tid>, cells: Cells, threads: Threads, t: Tid, op: Op)
    requires Protocol(core, cells, threads) && t !in threads
    ensures Protocol(core, cells, threads[t := Thread(op, Ready, NOTHING)])
  {
    hide CellsMatch;
    SpawnCells(cells, threads, t, op);
  }

  lemma SpawnCells(cells: Cells, threads: Threads, t: Tid, op: Op)
    requires CellsMatch(cells, threads) && t !in threads
    ensures CellsMatch(cells, threads[t := Thread(op, Ready, NOTHING)])
  {
    var threads' := threads[t := Thread(op, Ready, NOTHING)];
    forall u | u in threads' ensures ThreadOk(u, cells, threads') {
      assert u in threads ==> ThreadOk(u, cells, threads);
      assert u in cells ==> CellOk(u, cells, threads);
    }
    forall u | u in cells ensures CellOk(u, cells, threads') {
      assert CellOk(u, cells, threads);
    }
  }

  lemma DeliverMove(core: Core<Tid>, cells: Cells, threads: Threads, t: Tid, owed: Tally)
    requires Protocol(core, cells, threads) && t in threads
    ensures Protocol(core, cells, threads[t := threads[t].(owed := owed)])
  {
    hide CellsMatch;
    DeliverCells(cells, threads, t, owed);
  }

  lemma DeliverCells(cells: Cells, threads: Threads, t: Tid, owed: Tally)
    requires CellsMatch(cells, threads) && t in threads
    ensures CellsMatch(cells, threads[t := threads[t].(owed := owed)])
  {
    var threads' := threads[t := threads[t].(owed := owed)];
    forall u | u in threads' ensures ThreadOk(u, cells, threads') {
      assert ThreadOk(u, cells, threads);
    }
    forall u | u in cells ensures CellOk(u, cells, threads') {
      assert CellOk(u, cells, threads);
    }
  }

  // ---- Every step -------------------------------------------------------------

  lemma GetProtocol(l: Limits, s: Sys, t: Tid, now: Time)
    requires Protocol(s.core, s.cells, s.threads) && Enabled(l, s, DoGet(t, now))
    ensures var s' := Apply(l, s, DoGet(t, now)); Protocol(s'.core, s'.cells, s'.threads)
  {
    hide Protocol, LinksMatch, HoldersMatch, KeysFree;
    var (core, found, ev) := StoreCore.Get(l, s.core, s.threads[t].op.key, now);
    assert ThreadOk(t, s.cells, s.threads) by { ThreadIsOk(s, t); }
    QuietMove(s.core, core, s.cells, s.threads, t, Done(Looked(found), None), ev);
  }

  lemma ThreadIsOk(s: Sys, t: Tid)
    requires Protocol(s.core, s.cells, s.threads) && t in s.threads
    ensures ThreadOk(t, s.cells, s.threads)
  {
  }

  /** The reservation found under a key is open and made for that key. */
  lemma LinkIsLive(s: Sys, key: Key)
    requires Protocol(s.core, s.cells, s.threads) && key in s.core.inflight
    ensures var r := s.core.inflight[key];
            && r in s.threads && HoldsLink(s.threads[r]) && s.threads[r].op.key == key
            && r in s.cells && s.cells[r] == Open
  {
    var r := s.core.inflight[key];
    assert ThreadOk(r, s.cells, s.threads);
  }

  lemma BeginProtocol(l: Limits, s: Sys, t: Tid, now: Time, gone: set<Key>)
    requires Protocol(s.core, s.cells, s.threads) && Enabled(l, s, DoBegin(t, now, gone))
    ensures var s' := Apply(l, s, DoBegin(t, now, gone)); Protocol(s'.core, s'.cells, s'.threads)
  {
    hide Protocol, LinksMatch, HoldersMatch, KeysFree, CellsMatch, Drains, Total, Removals;
    var op := s.threads[t].op;
    var (core, out, ev) := Begin(l, s.core, op.key, Reserve(op), t, gone, now);
    ThreadIsOk(s, t);
    BeginEffect(l, s.core, op.key, Reserve(op), t, gone, now);
    if out.Granted? {
      GrantMove(s.core, core, s.cells, s.threads, t, ev);
    } else {
      if out.Wait? {
        LinkIsLive(s, op.key);
      }
      QuietMove(s.core, core, s.cells, s.threads, t, AfterBegin(out), ev);
    }
  }

  /** What the first section of `Create` changes in the reservations. */
  lemma BeginEffect<R>(l: Limits, c: Core<R>, key: Key, reserve: int, ref: R, gone: set<Key>, now: Time)
    ensures var (c', out, ev) := Begin(l, c, key, reserve, ref, gone, now);
            && c'.entries.Keys <= c.entries.Keys
            && (out.Granted? ==> key !in c.entries && key !in c.inflight &&
                                 c'.active == c.active[ref := reserve] && c'.inflight == c.inflight[key := ref])
            && (!out.Granted? ==> c'.active == c.active && c'.inflight == c.inflight)
            && (out.Wait? ==> key in c.inflight && out.ref == c.inflight[key])
  {
    hide Total, Removals, Expired, Drained, DrainEvents, ReserveRefusal;
    DrainLeaves(c, gone);
  }

  lemma PublishProtocol(l: Limits, s: Sys, t: Tid, content: Content, drainedAt: Time, at: Time, gone: set<Key>)
    requires Protocol(s.core, s.cells, s.threads) && Enabled(l, s, DoPublish(t, content, drainedAt, at, gone))
    ensures var s' := Apply(l, s, DoPublish(t, content, drainedAt, at, gone)); Protocol(s'.core, s'.cells, s'.threads)
  {
    hide Protocol, LinksMatch, HoldersMatch, KeysFree, CellsMatch, Drains, Drained, DrainEvents, Released;
    var op := s.threads[t].op;
    var (core, out, ev) := StoreCore.Publish(l, s.core, op.key, t, Reserve(op), content, gone, at);
    DrainLeaves(s.core, gone);
    match out {
      case Rejects(reason) => RejectMove(s.core, Drained(s.core, gone), s.cells, s.threads, t, ev);
      case Stores(rec) => StoreMove(s.core, core, s.cells, s.threads, t, rec, Plus(ev, Addition(rec.size)));
    }
  }

  lemma DrainLeaves<R>(c: Core<R>, gone: set<Key>)
    ensures var d := Drained(c, gone);
            d.active == c.active && d.inflight == c.inflight && d.entries == c.entries - gone && d.nextVer == c.nextVer
  {
  }

  lemma MarkProtocol(l: Limits, s: Sys, t: Tid, now: Time)
    requires Protocol(s.core, s.cells, s.threads) && Enabled(l, s, DoMark(t, now))
    ensures var s' := Apply(l, s, DoMark(t, now)); Protocol(s'.core, s'.cells, s'.threads)
  {
    hide Protocol, LinksMatch, HoldersMatch, KeysFree, CellsMatch;
    var op := s.threads[t].op;
    var (core, ok, ev) := StoreCore.MarkRestored(l, s.core, op.key, op.version, now);
    ThreadIsOk(s, t);
    QuietMove(s.core, core, s.cells, s.threads, t, Done(Marked(ok), None), ev);
  }

  lemma CleanProtocol(l: Limits, s: Sys, t: Tid, now: Time, gone: set<Key>)
    requires Protocol(s.core, s.cells, s.threads) && Enabled(l, s, DoClean(t, now, gone))
    ensures var s' := Apply(l, s, DoClean(t, now, gone)); Protocol(s'.core, s'.cells, s'.threads)
  {
    hide Protocol, LinksMatch, HoldersMatch, KeysFree, CellsMatch, Drains, Drained, DrainEvents;
    DrainLeaves(s.core, gone);
    ThreadIsOk(s, t);
    QuietMove(s.core, Drained(s.core, gone), s.cells, s.threads, t, if gone == {} then Done(Cleaned, None) else Ready,
              DrainEvents(s.core, gone));
  }

  lemma LocalProtocol(s: Sys, t: Tid, pc: Pc)
    requires Protocol(s.core, s.cells, s.threads) && t in s.threads
    requires s.threads[t].pc.Ready? || s.threads[t].pc.Waiting?
    requires pc.Done? ==> pc.via == None
    requires pc.Ready? || pc.Done?
    ensures Protocol(s.core, s.cells, Moved(s.threads, t, pc, NOTHING))
  {
    hide Protocol, LinksMatch, HoldersMatch, KeysFree, CellsMatch;
    ThreadIsOk(s, t);
    QuietMove(s.core, s.core, s.cells, s.threads, t, pc, NOTHING);
  }

  lemma WakeProtocol(l: Limits, s: Sys, t: Tid)
    requires Protocol(s.core, s.cells, s.threads) && Enabled(l, s, Wake(t))
    ensures var s' := Apply(l, s, Wake(t)); Protocol(s'.core, s'.cells, s'.threads)
  {
    hide Protocol, LinksMatch, HoldersMatch, KeysFree, CellsMatch;
    ThreadIsOk(s, t);
    var on := s.threads[t].pc.on;
    QuietMove(s.core, s.core, s.cells, s.threads, t, AfterWait(on, s.cells[on].outcome), NOTHING);
  }

  /** No step breaks the protocol. */
  lemma ProtocolStep(l: Limits, s: Sys, step: Step)
    requires Protocol(s.core, s.cells, s.threads) && Enabled(l, s, step)
    ensures var s' := Apply(l, s, step); Protocol(s'.core, s'.cells, s'.threads)
  {
    hide Protocol, ApplyPublish, ApplyMark, Released, Unlinked, Drained, DrainEvents, Begin, StoreCore.Get, Drains;
    match step
    case Spawn(t, op) => SpawnMove(s.core, s.cells, s.threads, t, op);
    case DoGet(t, now) => GetProtocol(l, s, t, now);
    case DoBegin(t, now, gone) => BeginProtocol(l, s, t, now, gone);
    case Cancel(t) => LocalProtocol(s, t, Done(Failed(ErrContext), None));
    case TimeOut(t) => LocalProtocol(s, t, Done(Failed(ErrBusy), None));
    case Wake(t) => WakeProtocol(l, s, t);
    case FailBuild(t, error) => FailMove(s.core, s.cells, s.threads, t, error);
    case DoPublish(t, content, drainedAt, at, gone) => PublishProtocol(l, s, t, content, drainedAt, at, gone);
    case DoFinish(t) => FinishMove(s.core, s.cells, s.threads, t);
    case DoMark(t, now) => MarkProtocol(l, s, t, now);
    case DoClean(t, now, gone) => CleanProtocol(l, s, t, now, gone);
    case Deliver(t, part) => DeliverMove(s.core, s.cells, s.threads, t, Minus(s.threads[t].owed, part));
  }

  /** No step breaks the store's own invariant. */
  lemma InvStep(l: Limits, s: Sys, step: Step)
    requires Inv(l, s.core) && Protocol(s.core, s.cells, s.threads) && Enabled(l, s, step)
    ensures Inv(l, Apply(l, s, step).core)
  {
    hide Inv, Released, Unlinked, Drained, DrainEvents, Begin, StoreCore.Get, StoreCore.MarkRestored, StoreCore.Publish,
      LinksMatch, CellsMatch;
    match step
    case DoGet(t, now) => GetKeeps(l, s.core, s.threads[t].op.key, now);
    case DoBegin(t, now, gone) => BeginKeeps(l, s.core, s.threads[t].op.key, Reserve(s.threads[t].op), t, gone, now);
    case FailBuild(t, error) => ReleasedKeeps(l, s.core, s.threads[t].op.key, t, Reserve(s.threads[t].op));
    case DoPublish(t, content, drainedAt, at, gone) =>
      PublishKeeps(l, s.core, s.threads[t].op.key, t, Reserve(s.threads[t].op), content, gone, at);
    case DoFinish(t) => UnlinkedKeeps(l, s.core, s.threads[t].op.key, t);
    case DoMark(t, now) => MarkRestoredKeeps(l, s.core, s.threads[t].op.key, s.threads[t].op.version, now);
    case DoClean(t, now, gone) => DrainedKeeps(l, s.core, gone);
    case _ =>
  }
}

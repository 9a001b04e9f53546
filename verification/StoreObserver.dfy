/** What the observer has been told, together with what threads still owe it,
    always accounts for every stored record. */
module StoreObserver {
  import opened Bytes
  import opened Expiry
  import opened Totals
  import opened StoreCore
  import opened StoreInvariant
  import opened DrainLemmas
  import opened StoreSteps
  import opened StoreProtocol

  function OwedAddedPending(th: Thread): int { th.owed.addedPending }
  function OwedAddedReplay(th: Thread): int { th.owed.addedReplay }
  function OwedRemovedPending(th: Thread): int { th.owed.removedPending }
  function OwedRemovedReplay(th: Thread): int { th.owed.removedReplay }
  function OwedTtlPending(th: Thread): int { th.owed.ttlPending }
  function OwedTtlReplay(th: Thread): int { th.owed.ttlReplay }
  function OwedBytesPending(th: Thread): int { th.owed.bytesPending }
  function OwedBytesReplay(th: Thread): int { th.owed.bytesReplay }

  /** The events all threads still owe. */
  ghost function Owed(threads: Threads): Tally {
    Tally(Total(threads, OwedAddedPending), Total(threads, OwedAddedReplay),
          Total(threads, OwedRemovedPending), Total(threads, OwedRemovedReplay),
          Total(threads, OwedTtlPending), Total(threads, OwedTtlReplay),
          Total(threads, OwedBytesPending), Total(threads, OwedBytesReplay))
  }

  /** The tally accounts for the stored records: per phase, added minus removed is
      their number and the byte deltas are their size; a record leaves the pending
      phase by expiry or by a transition, and the replay phase by expiry. */
  ghost predicate Balances(t: Tally, entries: map<Key, Record>) {
    && t.addedPending - t.removedPending == Total(entries, PendingCount)
    && t.addedReplay - t.removedReplay == Total(entries, ReplayCount)
    && t.bytesPending == Total(entries, PendingSize)
    && t.bytesReplay == Total(entries, ReplaySize)
    && t.removedPending == t.ttlPending + t.addedReplay
    && t.removedReplay == t.ttlReplay
  }

  ghost predicate Conserved(s: Sys) {
    Balances(Plus(s.told, Owed(s.threads)), s.core.entries)
  }

  /** The events ev account for the change from e to e'. */
  ghost predicate Explains(ev: Tally, e: map<Key, Record>, e': map<Key, Record>) {
    forall t :: Balances(t, e) ==> Balances(Plus(t, ev), e')
  }

  lemma OwedReplaced(threads: Threads, t: Tid, th: Thread)
    ensures Owed(threads[t := th]) ==
            Plus(Minus(Owed(threads), if t in threads then threads[t].owed else NOTHING), th.owed)
  {
    hide Total;
    TotalUpdate(threads, OwedAddedPending, t, th);
    TotalUpdate(threads, OwedAddedReplay, t, th);
    TotalUpdate(threads, OwedRemovedPending, t, th);
    TotalUpdate(threads, OwedRemovedReplay, t, th);
    TotalUpdate(threads, OwedTtlPending, t, th);
    TotalUpdate(threads, OwedTtlReplay, t, th);
    TotalUpdate(threads, OwedBytesPending, t, th);
    TotalUpdate(threads, OwedBytesReplay, t, th);
  }

  /** A step of thread t with events that explain it conserves the account. */
  lemma ExplainedMove(s: Sys, s': Sys, t: Tid, pc: Pc, ev: Tally)
    requires Conserved(s) && t in s.threads && s'.told == s.told
    requires s'.threads == Moved(s.threads, t, pc, ev) && Explains(ev, s.core.entries, s'.core.entries)
    ensures Conserved(s')
  {
    hide Owed, Balances;
    var th := s.threads[t];
    OwedReplaced(s.threads, t, th.(pc := pc, owed := Plus(th.owed, ev)));
    assert Plus(s'.told, Owed(s'.threads)) == Plus(Plus(s.told, Owed(s.threads)), ev);
  }

  lemma NothingExplains(e: map<Key, Record>)
    ensures Explains(NOTHING, e, e)
  {
    hide Total;
  }

  lemma EvictionExplained(e: map<Key, Record>, key: Key)
    requires key in e
    ensures Explains(Removal(e[key]), e, e - {key})
  {
    hide Total;
    TotalWithout(e, PendingCount, key);
    TotalWithout(e, ReplayCount, key);
    TotalWithout(e, PendingSize, key);
    TotalWithout(e, ReplaySize, key);
  }

  lemma DrainExplained<R>(c: Core<R>, gone: set<Key>)
    ensures Explains(DrainEvents(c, gone), c.entries, c.entries - gone)
  {
    hide Total;
    TotalSplit(c.entries, PendingCount, gone);
    TotalSplit(c.entries, ReplayCount, gone);
    TotalSplit(c.entries, PendingSize, gone);
    TotalSplit(c.entries, ReplaySize, gone);
  }

  lemma AdditionExplained(e: map<Key, Record>, key: Key, rec: Record)
    requires key !in e && !InReplay(rec)
    ensures Explains(Addition(rec.size), e, e[key := rec])
  {
    hide Total;
    TotalUpdate(e, PendingCount, key, rec);
    TotalUpdate(e, ReplayCount, key, rec);
    TotalUpdate(e, PendingSize, key, rec);
    TotalUpdate(e, ReplaySize, key, rec);
  }

  lemma TransitionExplained(e: map<Key, Record>, key: Key, now: Time)
    requires key in e && !InReplay(e[key])
    ensures Explains(Transition(e[key].size), e, e[key := Restored(e[key], now)])
  {
    hide Total;
    var rec := Restored(e[key], now);
    TotalUpdate(e, PendingCount, key, rec);
    TotalUpdate(e, ReplayCount, key, rec);
    TotalUpdate(e, PendingSize, key, rec);
    TotalUpdate(e, ReplaySize, key, rec);
  }

  lemma Explained(a: Tally, b: Tally, e: map<Key, Record>, m: map<Key, Record>, e': map<Key, Record>)
    requires Explains(a, e, m) && Explains(b, m, e')
    ensures Explains(Plus(a, b), e, e')
  {
    hide Balances, Plus;
    forall t | Balances(t, e) ensures Balances(Plus(t, Plus(a, b)), e') {
      PlusAssociates(t, a, b);
      assert Balances(Plus(t, a), m);
    }
  }

  lemma PlusAssociates(t: Tally, a: Tally, b: Tally)
    ensures Plus(t, Plus(a, b)) == Plus(Plus(t, a), b)
  {
  }

  // ---- Every step -------------------------------------------------------------

  lemma GetConserves(l: Limits, s: Sys, t: Tid, now: Time)
    requires Conserved(s) && Enabled(l, s, DoGet(t, now))
    ensures Conserved(Apply(l, s, DoGet(t, now)))
  {
    hide Conserved, Explains, Expired;
    var key := s.threads[t].op.key;
    var (core, found, ev) := StoreCore.Get(l, s.core, key, now);
    NothingExplains(s.core.entries);
    if key in s.core.entries {
      EvictionExplained(s.core.entries, key);
    }
    ExplainedMove(s, Apply(l, s, DoGet(t, now)), t, Done(Looked(found), None), ev);
  }

  lemma BeginExplained<R>(l: Limits, c: Core<R>, key: Key, reserve: int, ref: R, gone: set<Key>, now: Time)
    ensures var (c', out, ev) := Begin(l, c, key, reserve, ref, gone, now); Explains(ev, c.entries, c'.entries)
  {
    hide Explains, Expired, Removals, Total;
    NothingExplains(c.entries);
    DrainExplained(c, gone);
    if key in c.entries {
      EvictionExplained(c.entries, key);
    }
  }

  lemma PublishExplained<R>(l: Limits, c: Core<R>, key: Key, ref: R, reserve: int, content: Content, gone: set<Key>,
                            at: Time)
    requires key !in c.entries
    ensures var (c', out, ev) := StoreCore.Publish(l, c, key, ref, reserve, content, gone, at);
            Explains(if out.Stores? then Plus(ev, Addition(out.rec.size)) else ev, c.entries, c'.entries)
  {
    hide Explains, Removals, Total, RecordSize, PublishRefusal, Plus, Addition;
    var (c', out, ev) := StoreCore.Publish(l, c, key, ref, reserve, content, gone, at);
    DrainExplained(c, gone);
    if out.Stores? {
      AdditionExplained(c.entries - gone, key, out.rec);
      Explained(ev, Addition(out.rec.size), c.entries, c.entries - gone, c'.entries);
    }
  }

  lemma BeginConserves(l: Limits, s: Sys, t: Tid, now: Time, gone: set<Key>)
    requires Conserved(s) && Enabled(l, s, DoBegin(t, now, gone))
    ensures Conserved(Apply(l, s, DoBegin(t, now, gone)))
  {
    hide Conserved, Explains, Begin, Drains;
    var op := s.threads[t].op;
    var (core, out, ev) := Begin(l, s.core, op.key, Reserve(op), t, gone, now);
    BeginExplained(l, s.core, op.key, Reserve(op), t, gone, now);
    ExplainedMove(s, Apply(l, s, DoBegin(t, now, gone)), t, AfterBegin(out), ev);
  }

  lemma PublishConserves(l: Limits, s: Sys, t: Tid, content: Content, drainedAt: Time, at: Time, gone: set<Key>)
    requires Conserved(s) && KeysFree(s.core.entries, s.threads)
    requires Enabled(l, s, DoPublish(t, content, drainedAt, at, gone))
    ensures Conserved(Apply(l, s, DoPublish(t, content, drainedAt, at, gone)))
  {
    hide Conserved, Explains, Drains, StoreCore.Publish;
    var op := s.threads[t].op;
    var (core, out, ev) := StoreCore.Publish(l, s.core, op.key, t, Reserve(op), content, gone, at);
    PublishExplained(l, s.core, op.key, t, Reserve(op), content, gone, at);
    var s' := Apply(l, s, DoPublish(t, content, drainedAt, at, gone));
    match out {
      case Rejects(reason) => ExplainedMove(s, s', t, Finishing(Fails(ErrCapacity)), ev);
      case Stores(rec) => ExplainedMove(s, s', t, Finishing(Delivers(rec)), Plus(ev, Addition(rec.size)));
    }
  }

  lemma MarkConserves(l: Limits, s: Sys, t: Tid, now: Time)
    requires Conserved(s) && Enabled(l, s, DoMark(t, now))
    ensures Conserved(Apply(l, s, DoMark(t, now)))
  {
    hide Conserved, Explains, Expired;
    var op := s.threads[t].op;
    var (core, ok, ev) := StoreCore.MarkRestored(l, s.core, op.key, op.version, now);
    NothingExplains(s.core.entries);
    if ok {
      TransitionExplained(s.core.entries, op.key, now);
    }
    ExplainedMove(s, Apply(l, s, DoMark(t, now)), t, Done(Marked(ok), None), ev);
  }

  lemma CleanConserves(l: Limits, s: Sys, t: Tid, now: Time, gone: set<Key>)
    requires Conserved(s) && Enabled(l, s, DoClean(t, now, gone))
    ensures Conserved(Apply(l, s, DoClean(t, now, gone)))
  {
    hide Conserved, Explains, Drains, DrainEvents;
    DrainExplained(s.core, gone);
    ExplainedMove(s, Apply(l, s, DoClean(t, now, gone)), t, if gone == {} then Done(Cleaned, None) else Ready,
                  DrainEvents(s.core, gone));
  }

  /** Delivering any part of what is owed moves it from owed to told. */
  lemma DeliverConserves(l: Limits, s: Sys, t: Tid, part: Tally)
    requires Conserved(s) && Enabled(l, s, Deliver(t, part))
    ensures Conserved(Apply(l, s, Deliver(t, part)))
  {
    hide Owed, Balances;
    var th := s.threads[t];
    OwedReplaced(s.threads, t, th.(owed := Minus(th.owed, part)));
    var s' := Apply(l, s, Deliver(t, part));
    assert Plus(s'.told, Owed(s'.threads)) == Plus(s.told, Owed(s.threads));
  }

  lemma LocalConserves(s: Sys, s': Sys, t: Tid, pc: Pc)
    requires Conserved(s) && t in s.threads && s'.told == s.told && s'.core.entries == s.core.entries
    requires s'.threads == Moved(s.threads, t, pc, NOTHING)
    ensures Conserved(s')
  {
    hide Conserved, Explains;
    NothingExplains(s.core.entries);
    ExplainedMove(s, s', t, pc, NOTHING);
  }

  lemma SpawnConserves(l: Limits, s: Sys, t: Tid, op: Op)
    requires Conserved(s) && Enabled(l, s, Spawn(t, op))
    ensures Conserved(Apply(l, s, Spawn(t, op)))
  {
    hide Owed, Balances;
    OwedReplaced(s.threads, t, Thread(op, Ready, NOTHING));
    assert Owed(s.threads[t := Thread(op, Ready, NOTHING)]) == Owed(s.threads);
  }

  lemma ConservedStep(l: Limits, s: Sys, step: Step)
    requires Conserved(s) && KeysFree(s.core.entries, s.threads) && Enabled(l, s, step)
    ensures Conserved(Apply(l, s, step))
  {
    hide Conserved, ApplyPublish, ApplyMark, Drained, DrainEvents, Begin, StoreCore.Get, Drains, Plus;
    var s' := Apply(l, s, step);
    match step
    case Spawn(t, op) => SpawnConserves(l, s, t, op);
    case DoGet(t, now) => GetConserves(l, s, t, now);
    case DoBegin(t, now, gone) => BeginConserves(l, s, t, now, gone);
    case Cancel(t) => LocalConserves(s, s', t, Done(Failed(ErrContext), None));
    case TimeOut(t) => LocalConserves(s, s', t, Done(Failed(ErrBusy), None));
    case Wake(t) => LocalConserves(s, s', t, AfterWait(s.threads[t].pc.on, s.cells[s.threads[t].pc.on].outcome));
    case FailBuild(t, error) => LocalConserves(s, s', t, Done(Failed(error), Some(t)));
    case DoPublish(t, content, drainedAt, at, gone) => PublishConserves(l, s, t, content, drainedAt, at, gone);
    case DoFinish(t) => LocalConserves(s, s', t, Done(CreatorAnswer(s.threads[t].pc.outcome), Some(t)));
    case DoMark(t, now) => MarkConserves(l, s, t, now);
    case DoClean(t, now, gone) => CleanConserves(l, s, t, now, gone);
    case Deliver(t, part) => DeliverConserves(l, s, t, part);
  }

  /** With everything delivered, what the observer was told is exact. */
  lemma ObserverIsExactWhenQuiet(s: Sys)
    requires Conserved(s) && forall t :: t in s.threads ==> s.threads[t].owed == NOTHING
    ensures Balances(s.told, s.core.entries)
  {
    hide Total;
    OwesNothing(s.threads, OwedAddedPending);
    OwesNothing(s.threads, OwedAddedReplay);
    OwesNothing(s.threads, OwedRemovedPending);
    OwesNothing(s.threads, OwedRemovedReplay);
    OwesNothing(s.threads, OwedTtlPending);
    OwesNothing(s.threads, OwedTtlReplay);
    OwesNothing(s.threads, OwedBytesPending);
    OwesNothing(s.threads, OwedBytesReplay);
  }

  lemma {:induction false} OwesNothing(threads: Threads, f: Thread -> int)
    requires forall t :: t in threads ==> f(threads[t]) == 0
    ensures Total(threads, f) == 0
    decreases |threads|
  {
    if t :| t in threads {
      TotalWithout(threads, f, t);
      OwesNothing(threads - {t}, f);
    }
  }
}

/** What holds in every reachable state of the store, whatever the interleaving of
    creators, waiters, readers, restores and cleanup. */
module StoreSafety {
  import opened Bytes
  import opened Expiry
  import opened Totals
  import opened StoreCore
  import opened StoreInvariant
  import opened StoreSteps
  import opened StoreProtocol
  import opened StoreHistory
  import opened StoreObserver

  // ---- One transition per version ---------------------------------------------

  /** The thread made the transition of this version. */
  ghost predicate Restorer(th: Thread, version: nat) {
    th.op.MarkOp? && th.op.version == version && th.pc == Done(Marked(true), None)
  }

  /** Some thread has made the transition of this version, and named its key. */
  ghost predicate HasRestorer(threads: Threads, past: Past, v: nat) {
    v in past.born && exists t :: t in threads && Restorer(threads[t], v) && threads[t].op.key == past.born[v].key
  }

  ghost predicate RestorersUnique(threads: Threads, past: Past) {
    && (forall t, v :: t in threads && Restorer(threads[t], v) ==> v in past.restoredAt)
    && (forall t, u, v :: t in threads && u in threads && Restorer(threads[t], v) && Restorer(threads[u], v) ==> t == u)
    && (forall v :: v in past.restoredAt ==> HasRestorer(threads, past, v))
  }

  /** Thread t becomes th, which is a restorer only if, and of what, it was before. */
  lemma OtherMove(threads: Threads, past: Past, past': Past, t: Tid, th: Thread)
    requires RestorersUnique(threads, past) && past.restoredAt == past'.restoredAt && Grows(past, past')
    requires forall v :: Restorer(th, v) <==> t in threads && Restorer(threads[t], v)
    requires t in threads ==> th.op == threads[t].op
    ensures RestorersUnique(threads[t := th], past')
  {
    var threads' := threads[t := th];
    forall u, v | u in threads' && Restorer(threads'[u], v) ensures u in threads && Restorer(threads[u], v) {
    }
    forall v | v in past'.restoredAt ensures HasRestorer(threads', past', v) {
      assert HasRestorer(threads, past, v);
      var u :| u in threads && Restorer(threads[u], v) && threads[u].op.key == past.born[v].key;
      assert u in threads' && Restorer(threads'[u], v);
    }
  }

  lemma RestorerStep(l: Limits, s: Sys, step: Step)
    requires History(l, s) && Protocol(s.core, s.cells, s.threads) && RestorersUnique(s.threads, s.past)
    requires Enabled(l, s, step)
    ensures RestorersUnique(Apply(l, s, step).threads, Apply(l, s, step).past)
  {
    hide RestorersUnique, History, Protocol, Drained, DrainEvents, Begin, StoreCore.Get, Grows,
      StoreCore.Publish, Drains, Released, Unlinked;
    var s' := Apply(l, s, step);
    HistoryStep(l, s, step);
    if step.DoMark? {
      RestorerMark(l, s, step.t, step.now);
    } else {
      assert s'.threads == s.threads[step.t := s'.threads[step.t]];
      OtherMove(s.threads, s.past, s'.past, step.t, s'.threads[step.t]);
    }
  }

  lemma RestorerMark(l: Limits, s: Sys, t: Tid, now: Time)
    requires History(l, s) && RestorersUnique(s.threads, s.past) && Enabled(l, s, DoMark(t, now))
    ensures var s' := Apply(l, s, DoMark(t, now)); RestorersUnique(s'.threads, s'.past)
  {
    hide BornOk, PlainOk, LiveOk, ThreadsKnow, EntriesOk, Expired, HasRestorer;
    var op := s.threads[t].op;
    var s' := Apply(l, s, DoMark(t, now));
    var marked := s'.threads[t].pc == Done(Marked(true), None);
    if marked {
      MarkedEntries(l, s.core.entries, s.past, op.key, now);
      EntryIsKnown(s, op.key);
    }
    forall v | v in s'.past.restoredAt ensures HasRestorer(s'.threads, s'.past, v) {
      if v in s.past.restoredAt {
        RestorerStays(s, s', t, v);
      } else {
        NewRestorer(s', t, v);
      }
    }
  }

  lemma RestorerStays(s: Sys, s': Sys, t: Tid, v: nat)
    requires HasRestorer(s.threads, s.past, v) && s'.past.born == s.past.born
    requires t in s.threads && !s.threads[t].pc.Done? && t in s'.threads && s'.threads == s.threads[t := s'.threads[t]]
    ensures HasRestorer(s'.threads, s'.past, v)
  {
    var u :| u in s.threads && Restorer(s.threads[u], v) && s.threads[u].op.key == s.past.born[v].key;
    assert u in s'.threads && Restorer(s'.threads[u], v);
  }

  lemma NewRestorer(s: Sys, t: Tid, v: nat)
    requires t in s.threads && Restorer(s.threads[t], v) && v in s.past.born &&
             s.past.born[v].key == s.threads[t].op.key
    ensures HasRestorer(s.threads, s.past, v)
  {
  }

  // ---- The invariant of the whole system --------------------------------------

  ghost predicate SysInv(l: Limits, s: Sys) {
    && Inv(l, s.core)
    && Protocol(s.core, s.cells, s.threads)
    && History(l, s)
    && RestorersUnique(s.threads, s.past)
    && Conserved(s)
  }

  lemma InitHolds(l: Limits, at: Time)
    ensures SysInv(l, Init(at))
  {
    hide Inv, Protocol, Conserved, RestorersUnique;
    EmptyStore<Tid>(l);
    NoThreads(Init(at));
  }

  lemma EmptyStore<R>(l: Limits)
    ensures Inv<R>(l, Core(map[], 0, 0, 0, map[], map[], 0, map[]))
  {
    hide RecordSize, Deadline;
  }

  lemma NoThreads(s: Sys)
    requires s.threads == map[] && s.cells == map[] && s.told == NOTHING
    requires s.core.entries == map[] && s.core.active == map[] && s.core.inflight == map[]
    requires s.past.restoredAt == map[]
    ensures Protocol(s.core, s.cells, s.threads) && RestorersUnique(s.threads, s.past) && Conserved(s)
  {
    hide Total;
    ObserverStarts(s);
  }

  lemma ObserverStarts(s: Sys)
    requires s.threads == map[] && s.told == NOTHING && s.core.entries == map[]
    ensures Conserved(s)
  {
    assert Owed(s.threads) == NOTHING;
    assert Balances(NOTHING, s.core.entries);
  }

  /** A closed reservation stays as it is. */
  ghost predicate ClosedStays(cells: Cells, cells': Cells) {
    forall t :: t in cells && cells[t].Closed? ==> t in cells' && cells'[t] == cells[t]
  }

  lemma StepKeeps(l: Limits, s: Sys, step: Step)
    requires SysInv(l, s) && Enabled(l, s, step)
    ensures SysInv(l, Apply(l, s, step))
    ensures Grows(s.past, Apply(l, s, step).past) && ClosedStays(s.cells, Apply(l, s, step).cells)
    ensures s.clock <= Apply(l, s, step).clock
  {
    hide Inv, History, Conserved, RestorersUnique, Enabled, Grows;
    ProtocolStep(l, s, step);
    InvStep(l, s, step);
    HistoryStep(l, s, step);
    RestorerStep(l, s, step);
    ConservedStep(l, s, step);
    CellsStep(l, s, step);
  }

  /** A thread closes only its own reservation, and finds it open. */
  lemma CellsStep(l: Limits, s: Sys, step: Step)
    requires Protocol(s.core, s.cells, s.threads) && Enabled(l, s, step)
    ensures ClosedStays(s.cells, Apply(l, s, step).cells)
    ensures s.clock <= Apply(l, s, step).clock
    ensures step.FailBuild? || step.DoFinish? ==>
              step.t in s.cells && s.cells[step.t] == Open && Apply(l, s, step).cells[step.t].Closed?
  {
    hide LinksMatch, HoldersMatch, KeysFree, Drained, DrainEvents, StoreCore.Get, StoreCore.MarkRestored,
      StoreCore.Publish, Drains, Released, Unlinked;
    if step.t in s.threads {
      assert ThreadOk(step.t, s.cells, s.threads);
    }
  }

  lemma {:induction false} RunKeeps(l: Limits, s: Sys, steps: seq<Step>)
    requires SysInv(l, s) && Runs(l, s, steps)
    ensures var s' := Exec(l, s, steps);
            && SysInv(l, s') && Grows(s.past, s'.past) && ClosedStays(s.cells, s'.cells) && s.clock <= s'.clock
    decreases |steps|
  {
    hide SysInv, Enabled, Apply;
    if steps != [] {
      StepKeeps(l, s, steps[0]);
      RunKeeps(l, Apply(l, s, steps[0]), steps[1..]);
    }
  }

  ghost predicate Reachable(l: Limits, s: Sys) {
    exists at, steps :: Runs(l, Init(at), steps) && s == Exec(l, Init(at), steps)
  }

  lemma ReachableInv(l: Limits, s: Sys)
    requires Reachable(l, s)
    ensures SysInv(l, s)
  {
    hide SysInv, Runs, Exec;
    var at, steps :| Runs(l, Init(at), steps) && s == Exec(l, Init(at), steps);
    InitHolds(l, at);
    RunKeeps(l, Init(at), steps);
  }

  // ---- Main results -----------------------------------------------------------

  ghost function Builders(threads: Threads): set<Tid> {
    set t | t in threads && threads[t].pc.Building?
  }

  /** The accounts are exact in every reachable state: stored bytes, one
      reservation of the right amount for every building thread and for no other,
      and one shared budget that is never exceeded. */
  lemma AccountsAreExact(l: Limits, s: Sys)
    requires Reachable(l, s)
    ensures s.core.bytes == Total(s.core.entries, Size)
    ensures s.core.active.Keys == Builders(s.threads)
    ensures forall t :: t in Builders(s.threads) ==>
              s.threads[t].op.CreateOp? && s.core.active[t] == s.threads[t].op.minSize + INFLIGHT_OVERHEAD
    ensures s.core.reservedBytes == Total(s.core.active, Itself)
    ensures s.core.reservedEntries == |Builders(s.threads)|
    ensures l.maxEntries > 0 ==> |s.core.entries| + s.core.reservedEntries <= l.maxEntries
    ensures l.maxBytes > 0 ==> s.core.bytes + s.core.reservedBytes <= l.maxBytes
    ensures Builders(s.threads) == {} ==> s.core.reservedBytes == 0 && s.core.reservedEntries == 0
  {
    hide History, RestorersUnique, Conserved, LinksMatch, CellsMatch, KeysFree, Total, Scheduled, Versioned, Reachable;
    ReachableInv(l, s);
    assert s.core.active.Keys == Builders(s.threads);
    if Builders(s.threads) == {} {
      assert forall t :: t in s.core.active ==> t in s.core.active.Keys;
      TotalOfNothing(s.core.active, Itself);
    }
  }

  /** At most one thread builds a key, and meanwhile no record is stored under it. */
  lemma OneBuilderPerKey(l: Limits, s: Sys, t: Tid, u: Tid)
    requires Reachable(l, s) && t in Builders(s.threads) && u in Builders(s.threads)
    ensures s.threads[t].op.CreateOp? && s.threads[u].op.CreateOp?
    ensures s.threads[t].op.key == s.threads[u].op.key ==> t == u
    ensures s.threads[t].op.key !in s.core.entries
  {
    hide History, RestorersUnique, Conserved, CellsMatch, Inv, Reachable;
    ReachableInv(l, s);
    assert t in s.core.active && u in s.core.active;
    assert HoldsLink(s.threads[t]) && HoldsLink(s.threads[u]);
  }

  /** No waiter is ever stranded: its creator is still going to close the
      reservation, or the reservation is closed and the waiter can wake. */
  lemma NoLostWakeup(l: Limits, s: Sys, t: Tid)
    requires Reachable(l, s) && t in s.threads && s.threads[t].pc.Waiting?
    ensures var r := s.threads[t].pc.on;
            && r in s.threads && SameKey(s.threads, t, r)
            && (s.threads[r].pc.Building? || s.threads[r].pc.Finishing? || Enabled(l, s, Wake(t)))
  {
    hide History, RestorersUnique, Conserved, HoldersMatch, LinksMatch, KeysFree, Inv, Reachable;
    ReachableInv(l, s);
    assert ThreadOk(t, s.cells, s.threads);
    assert CellOk(s.threads[t].pc.on, s.cells, s.threads);
  }

  /** A woken waiter returns precisely what the creator of its key returned: the
      same record, or the same error, which is then not a context error. */
  lemma WaiterReturnsCreatorsResult(l: Limits, s: Sys, t: Tid, r: Tid)
    requires Reachable(l, s) && t in s.threads && t != r
    requires s.threads[t].pc.Done? && s.threads[t].pc.via == Some(r)
    ensures SameKey(s.threads, t, r) && s.threads[r].pc.Done?
    ensures match s.threads[t].pc.answer
            case Existed(rec) => s.threads[r].pc.answer == Created(rec)
            case Failed(error) => s.threads[r].pc.answer == Failed(error) && !error.ErrContext?
            case _ => false
  {
    hide History, RestorersUnique, Conserved, HoldersMatch, LinksMatch, KeysFree, Inv, Reachable;
    ReachableInv(l, s);
    assert ThreadOk(t, s.cells, s.threads);
    assert CellOk(r, s.cells, s.threads);
  }

  /** Versions are 1 to nextVer, one record each; every stored record is the record
      published under its version and key, in one of its two phases. */
  lemma StoredRecordsArePublished(l: Limits, s: Sys, k: Key)
    requires Reachable(l, s) && k in s.core.entries
    ensures var rec := s.core.entries[k]; var v := rec.version;
            && 1 <= v <= s.core.nextVer && v in s.past.born && s.past.born[v].key == k
            && rec.content == s.past.born[v].rec.content && rec.createdAt == s.past.born[v].rec.createdAt
            && Deadline(l, rec) == (if v in s.past.restoredAt then s.past.restoredAt[v] + l.replayTtl
                                    else s.past.born[v].rec.createdAt + l.ttl)
    ensures forall j :: j in s.core.entries && s.core.entries[j].version == s.core.entries[k].version ==> j == k
  {
    hide RestorersUnique, Conserved, Protocol, Accounted, Scheduled, ReservesMatch, WithinBudget, Reachable, PlainOk,
      ThreadsKnow, RecordSize;
    ReachableInv(l, s);
    assert Known(s.core.entries[k], k, s.past);
  }

  /** The past of a version is settled: along any run its record keeps its content
      and creation time, and once it has made its transition, the time of it. So a
      record has at most two deadlines, however often its restore is repeated. */
  lemma VersionsAreSettled(l: Limits, s: Sys, steps: seq<Step>, v: nat)
    requires Reachable(l, s) && Runs(l, s, steps) && v in s.past.born
    ensures var p := Exec(l, s, steps).past;
            && v in p.born && p.born[v] == s.past.born[v]
            && (v in s.past.restoredAt ==> v in p.restoredAt && p.restoredAt[v] == s.past.restoredAt[v])
  {
    hide SysInv, Reachable, Runs, Exec;
    ReachableInv(l, s);
    RunKeeps(l, s, steps);
  }

  /** At most one call ever makes the transition of a version. */
  lemma OneTransitionPerVersion(l: Limits, s: Sys, t: Tid, u: Tid, v: nat)
    requires Reachable(l, s) && t in s.threads && u in s.threads
    requires Restorer(s.threads[t], v) && Restorer(s.threads[u], v)
    ensures t == u
  {
    hide Inv, Protocol, History, Conserved, Reachable;
    ReachableInv(l, s);
  }

  /** Over any run, the transition of a version was made by exactly one call, which
      named that version and the key it was published under; so a call that read a
      record earlier never alters a later record of the same key. */
  lemma TransitionsNameTheirVersion(l: Limits, s: Sys, v: nat) returns (t: Tid)
    requires Reachable(l, s) && v in s.past.restoredAt
    ensures t in s.threads && v in s.past.born && s.threads[t].op == MarkOp(s.past.born[v].key, v)
    ensures forall u :: u in s.threads && Restorer(s.threads[u], v) <==> u == t
  {
    hide Inv, Protocol, History, Conserved, Reachable;
    ReachableInv(l, s);
    assert HasRestorer(s.threads, s.past, v);
    t :| t in s.threads && Restorer(s.threads[t], v) && s.threads[t].op.key == s.past.born[v].key;
  }

  lemma {:induction false} MarksNeedReplay(l: Limits, s: Sys, steps: seq<Step>)
    requires Runs(l, s, steps) && (s.past.restoredAt != map[] ==> l.replayTtl > 0)
    ensures Exec(l, s, steps).past.restoredAt != map[] ==> l.replayTtl > 0
    decreases |steps|
  {
    hide Enabled, Apply;
    if steps != [] {
      StepNeedsReplay(l, s, steps[0]);
      MarksNeedReplay(l, Apply(l, s, steps[0]), steps[1..]);
    }
  }

  lemma StepNeedsReplay(l: Limits, s: Sys, step: Step)
    requires Enabled(l, s, step) && (s.past.restoredAt != map[] ==> l.replayTtl > 0)
    ensures Apply(l, s, step).past.restoredAt != map[] ==> l.replayTtl > 0
  {
    hide Total, Removals, RecordSize, Drained, DrainEvents, Drains, StoreCore.Publish, Released, Unlinked, Begin,
      StoreCore.Get, Expired;
  }

  /** Without a replay lifetime no version ever makes a transition, and no record in
      replay is ever found. */
  lemma NoReplayNoTransition(l: Limits, s: Sys, k: Key, at: Time, rec: Record)
    requires Reachable(l, s) && l.replayTtl <= 0 && s.clock <= at
    ensures s.past.restoredAt == map[]
    ensures StoreCore.Get(l, s.core, k, at).1 == Some(rec) ==> !InReplay(rec)
  {
    hide Runs, Exec, StoreCore.Get;
    var from, steps :| Runs(l, Init(from), steps) && s == Exec(l, Init(from), steps);
    MarksNeedReplay(l, Init(from), steps);
    LifetimesAreExact(l, s, k, rec, at);
  }

  /** A `MarkRestored` step leaves every other version, stored or not, as it was, and
      every stored record of another version with its deadline. */
  lemma MarkTouchesOnlyItsVersion(l: Limits, s: Sys, t: Tid, now: Time, v: nat)
    requires Reachable(l, s) && Enabled(l, s, DoMark(t, now)) && v in s.past.born && v != s.threads[t].op.version
    ensures var s' := Apply(l, s, DoMark(t, now)); var k := s.past.born[v].key;
            && v in s'.past.born && Current(s'.past, v) == Current(s.past, v)
            && (k in s.core.entries && s.core.entries[k].version == v ==>
                  k in s'.core.entries && s'.core.entries[k] == s.core.entries[k] &&
                  (k in s.core.deadlines ==> k in s'.core.deadlines && s'.core.deadlines[k] == s.core.deadlines[k]))
  {
    hide Inv, Protocol, RestorersUnique, Conserved, Reachable, BornOk, EntriesOk, PlainOk, LiveOk, ThreadsKnow, Expired;
    ReachableInv(l, s);
  }

  // ---- Cleaning -------------------------------------------------------------------

  /** A cleanup ends only when nothing stored has expired any more. */
  lemma CleanupEndsClean(l: Limits, s: Sys, t: Tid, now: Time, gone: set<Key>)
    requires Enabled(l, s, DoClean(t, now, gone))
    ensures var s' := Apply(l, s, DoClean(t, now, gone));
            s'.threads[t].pc.Done? <==> forall k :: k in s.core.entries ==> !Expired(l, s.core.entries[k], now)
    ensures var s' := Apply(l, s, DoClean(t, now, gone));
            s'.threads[t].pc.Done? ==> s'.core.entries == s.core.entries
  {
    hide Total, Removals, DrainEvents, Expired;
    if gone == {} {
      assert s.core.entries - gone == s.core.entries;
    } else {
      var k :| k in gone;
      assert k in s.core.entries;
    }
  }

  // ---- Lookups ----------------------------------------------------------------

  /** A read finds exactly the live version of its key: the record in its present
      phase, as long as its deadline lies ahead, and nothing else. This holds in all
      runs, late transitions included. */
  lemma GetFindsTheLiveVersion(l: Limits, s: Sys, k: Key, rec: Record, at: Time)
    requires Reachable(l, s) && s.clock <= at
    ensures StoreCore.Get(l, s.core, k, at).1 == Some(rec) <==>
            && rec.version in s.past.born && s.past.born[rec.version].key == k
            && rec == Current(s.past, rec.version) && !Expired(l, rec, at)
  {
    hide Inv, Protocol, RestorersUnique, Conserved, Reachable, PlainOk, ThreadsKnow, Expired;
    ReachableInv(l, s);
    ExpiredStays(l, rec, s.clock, at);
    if k in s.core.entries {
      assert Known(s.core.entries[k], k, s.past);
    }
  }

  /** Said without deadlines: under a key a read finds just the version published there
      that has not been marked and is younger than the lifetime, or was marked more
      recently than the replay lifetime; without a lifetime, whatever is there. */
  lemma LifetimesAreExact(l: Limits, s: Sys, k: Key, rec: Record, at: Time)
    requires Reachable(l, s) && s.clock <= at
    ensures var past, v := s.past, rec.version;
            StoreCore.Get(l, s.core, k, at).1 == Some(rec) <==>
            && v in past.born && past.born[v].key == k
            && rec == past.born[v].rec.(firstRestoreAt := rec.firstRestoreAt)
            && (rec.firstRestoreAt == if v in past.restoredAt then Some(past.restoredAt[v]) else None)
            && (l.ttl <= 0 ||
                at < if v in past.restoredAt then past.restoredAt[v] + l.replayTtl
                     else past.born[v].rec.createdAt + l.ttl)
  {
    hide Reachable, StoreCore.Get;
    GetFindsTheLiveVersion(l, s, k, rec, at);
    if rec.version in s.past.born {
      BirthsArePending(l, s, rec.version);
    }
  }

  lemma BirthsArePending(l: Limits, s: Sys, v: nat)
    requires Reachable(l, s) && v in s.past.born
    ensures s.past.born[v].rec.firstRestoreAt == None && s.past.born[v].rec.version == v
  {
    hide Inv, Protocol, RestorersUnique, Conserved, Reachable, PlainOk, ThreadsKnow, EntriesOk, LiveOk;
    ReachableInv(l, s);
  }

  lemma ExpiredStays(l: Limits, rec: Record, now: Time, at: Time)
    requires now <= at
    ensures Expired(l, rec, now) ==> Expired(l, rec, at)
  {
  }

  /** Two versions of one key are never live together. */
  lemma OneLiveVersionPerKey(l: Limits, s: Sys, u: nat, v: nat)
    requires Reachable(l, s) && u in s.past.born && v in s.past.born && s.past.born[u].key == s.past.born[v].key
    requires !Expired(l, Current(s.past, u), s.clock) && !Expired(l, Current(s.past, v), s.clock)
    ensures u == v
  {
    hide Inv, Protocol, RestorersUnique, Conserved, Reachable, PlainOk, ThreadsKnow, Expired, EntriesOk;
    ReachableInv(l, s);
  }

  /** With nothing undelivered the observer's counters are exact per phase. */
  lemma ObserverIsExact(l: Limits, s: Sys)
    requires Reachable(l, s) && forall t :: t in s.threads ==> s.threads[t].owed == NOTHING
    ensures Balances(s.told, s.core.entries)
  {
    hide Inv, Protocol, History, RestorersUnique, Balances, Reachable;
    ReachableInv(l, s);
    ObserverIsExactWhenQuiet(s);
  }
}

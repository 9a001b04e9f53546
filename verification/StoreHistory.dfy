/** What the store remembers across a run: every record seen anywhere is one
    published version, in one of its two phases; and the store agrees with a map
    that knows deadlines but neither a queue nor eviction. */
module StoreHistory {
  import opened Bytes
  import opened Expiry
  import opened Totals
  import opened StoreCore
  import opened StoreInvariant
  import opened StoreSteps
  import opened StoreProtocol

  // ---- The invariant ----------------------------------------------------------

  /** rec is a published version, untouched but for the time of its transition. */
  ghost predicate Lived(rec: Record, past: Past) {
    && rec.version in past.born
    && rec.(firstRestoreAt := None) == past.born[rec.version].rec
    && (rec.firstRestoreAt.Some? ==>
          rec.version in past.restoredAt && past.restoredAt[rec.version] == rec.firstRestoreAt.value)
  }

  ghost predicate Known(rec: Record, key: Key, past: Past) {
    Lived(rec, past) && past.born[rec.version].key == key
  }

  /** The versions handed out are 1 to nextVer, each to one record. */
  ghost predicate BornOk(nextVer: nat, past: Past) {
    && (forall v: nat :: v in past.born <==> 1 <= v <= nextVer)
    && (forall v :: v in past.born ==> past.born[v].rec.version == v && past.born[v].rec.firstRestoreAt == None)
    && past.restoredAt.Keys <= past.born.Keys
  }

  /** A stored record is known, and in replay exactly after its transition. */
  ghost predicate EntriesOk(entries: map<Key, Record>, past: Past) {
    forall k :: k in entries ==>
      Known(entries[k], k, past) && (entries[k].version in past.restoredAt ==> InReplay(entries[k]))
  }

  /** The record a thread holds or has returned, if any. */
  function RecordOf(pc: Pc): Option<Record> {
    match pc
    case Finishing(Delivers(rec)) => Some(rec)
    case Done(Looked(found), _) => found
    case Done(Created(rec), _) => Some(rec)
    case Done(Existed(rec), _) => Some(rec)
    case _ => None
  }

  ghost predicate ThreadKnows(th: Thread, past: Past) {
    RecordOf(th.pc).Some? ==>
      (th.op.GetOp? || th.op.CreateOp?) && Known(RecordOf(th.pc).value, th.op.key, past)
  }

  ghost predicate ThreadsKnow(threads: Threads, past: Past) {
    forall t :: t in threads ==> ThreadKnows(threads[t], past)
  }

  /** Unless some transition hit an expired record, the map without eviction
      holds every stored record, and beyond these only expired ones. */
  ghost predicate PlainOk(l: Limits, entries: map<Key, Record>, past: Past, clock: Time) {
    !past.late ==>
      && (forall k :: k in entries ==> k in past.plain && past.plain[k] == entries[k])
      && (forall k :: k in past.plain && k !in entries ==> Expired(l, past.plain[k], clock))
  }

  /** The record of a version in its present phase. */
  ghost function Current(past: Past, v: nat): Record
    requires v in past.born
  {
    if v in past.restoredAt then Restored(past.born[v].rec, past.restoredAt[v]) else past.born[v].rec
  }

  /** A version that has not expired is stored: no step loses a live record, not even
      in runs in which some transition hit an expired one. */
  ghost predicate LiveOk(l: Limits, entries: map<Key, Record>, past: Past, clock: Time) {
    forall v :: v in past.born && !Expired(l, Current(past, v), clock) ==>
      past.born[v].key in entries && entries[past.born[v].key] == Current(past, v)
  }

  ghost predicate History(l: Limits, s: Sys) {
    && BornOk(s.core.nextVer, s.past)
    && EntriesOk(s.core.entries, s.past)
    && LiveOk(l, s.core.entries, s.past, s.clock)
    && ThreadsKnow(s.threads, s.past)
    && PlainOk(l, s.core.entries, s.past, s.clock)
  }

  // ---- Growth -----------------------------------------------------------------

  /** History only grows: no version is given out twice or makes two transitions. */
  ghost predicate Grows(p: Past, p': Past) {
    && (forall v :: v in p.born ==> v in p'.born && p'.born[v] == p.born[v])
    && (forall v :: v in p.restoredAt ==> v in p'.restoredAt && p'.restoredAt[v] == p.restoredAt[v])
    && (p.late ==> p'.late)
  }

  lemma KnownGrows(rec: Record, key: Key, p: Past, p': Past)
    requires Known(rec, key, p) && Grows(p, p')
    ensures Known(rec, key, p')
  {
  }

  lemma ThreadsKnowGrows(threads: Threads, p: Past, p': Past)
    requires ThreadsKnow(threads, p) && Grows(p, p')
    ensures ThreadsKnow(threads, p')
  {
    forall t | t in threads ensures ThreadKnows(threads[t], p') {
      assert ThreadKnows(threads[t], p);
    }
  }

  /** One thread moves to a place whose record is known. */
  lemma ThreadMoves(threads: Threads, past: Past, t: Tid, pc: Pc, ev: Tally)
    requires ThreadsKnow(threads, past) && t in threads && ThreadKnows(threads[t].(pc := pc), past)
    ensures ThreadsKnow(Moved(threads, t, pc, ev), past)
  {
    var threads' := Moved(threads, t, pc, ev);
    forall u | u in threads' ensures ThreadKnows(threads'[u], past) {
      assert u in threads ==> ThreadKnows(threads[u], past);
    }
  }

  // ---- Removing expired records -----------------------------------------------

  /** Only expired records go: history and the plain map are unaffected. */
  lemma RemovalHistory(l: Limits, entries: map<Key, Record>, gone: set<Key>, past: Past, clock: Time, now: Time)
    requires EntriesOk(entries, past) && PlainOk(l, entries, past, clock) && LiveOk(l, entries, past, clock)
    requires clock <= now && forall k :: k in gone && k in entries ==> Expired(l, entries[k], now)
    ensures EntriesOk(entries - gone, past) && PlainOk(l, entries - gone, past, now)
    ensures LiveOk(l, entries - gone, past, now)
  {
    hide Known, Deadline, LiveOk;
    RemovalLive(l, entries, gone, past, clock, now);
  }

  lemma RemovalLive(l: Limits, entries: map<Key, Record>, gone: set<Key>, past: Past, clock: Time, now: Time)
    requires LiveOk(l, entries, past, clock) && clock <= now
    requires forall k :: k in gone && k in entries ==> Expired(l, entries[k], now)
    ensures LiveOk(l, entries - gone, past, now)
  {
    hide Current, Deadline;
  }

  lemma GetHistory(l: Limits, s: Sys, t: Tid, now: Time)
    requires History(l, s) && Enabled(l, s, DoGet(t, now))
    ensures History(l, Apply(l, s, DoGet(t, now)))
  {
    hide BornOk, EntriesOk, PlainOk, LiveOk, ThreadsKnow, Known, Expired;
    var key := s.threads[t].op.key;
    var (core, found, ev) := StoreCore.Get(l, s.core, key, now);
    RemovalHistory(l, s.core.entries, {}, s.past, s.clock, now);
    assert s.core.entries - {} == s.core.entries;
    if key in s.core.entries {
      EntryIsKnown(s, key);
      if Expired(l, s.core.entries[key], now) {
        RemovalHistory(l, s.core.entries, {key}, s.past, s.clock, now);
      }
    }
    ThreadMoves(s.threads, s.past, t, Done(Looked(found), None), ev);
  }

  lemma EntryIsKnown(s: Sys, key: Key)
    requires EntriesOk(s.core.entries, s.past) && key in s.core.entries
    ensures Known(s.core.entries[key], key, s.past)
  {
  }

  /** What the first section of `Create` does to the records, and which record it
      may hand out. */
  lemma BeginRecords<R>(l: Limits, c: Core<R>, key: Key, reserve: int, ref: R, gone: set<Key>, now: Time)
    ensures var (c', out, ev) := Begin(l, c, key, reserve, ref, gone, now);
            && c'.nextVer == c.nextVer
            && (c'.entries == c.entries || c'.entries == c.entries - gone ||
                (key in c.entries && Expired(l, c.entries[key], now) && c'.entries == c.entries - {key}))
            && (out.Existing? ==> key in c.entries && out.rec == c.entries[key])
  {
    hide Total, Removals, Expired, Drained, DrainEvents, ReserveRefusal;
    DrainLeaves(c, gone);
  }

  lemma BeginHistory(l: Limits, s: Sys, t: Tid, now: Time, gone: set<Key>)
    requires History(l, s) && Enabled(l, s, DoBegin(t, now, gone))
    ensures History(l, Apply(l, s, DoBegin(t, now, gone)))
  {
    hide BornOk, EntriesOk, PlainOk, LiveOk, ThreadsKnow, Known, Begin, Expired;
    var op := s.threads[t].op;
    var (core, out, ev) := Begin(l, s.core, op.key, Reserve(op), t, gone, now);
    BeginRecords(l, s.core, op.key, Reserve(op), t, gone, now);
    RemovalHistory(l, s.core.entries, {}, s.past, s.clock, now);
    assert s.core.entries - {} == s.core.entries;
    RemovalHistory(l, s.core.entries, gone, s.past, s.clock, now);
    if op.key in s.core.entries {
      EntryIsKnown(s, op.key);
      if Expired(l, s.core.entries[op.key], now) {
        RemovalHistory(l, s.core.entries, {op.key}, s.past, s.clock, now);
      }
    }
    ThreadMoves(s.threads, s.past, t, AfterBegin(out), ev);
  }

  lemma CleanHistory(l: Limits, s: Sys, t: Tid, now: Time, gone: set<Key>)
    requires History(l, s) && Enabled(l, s, DoClean(t, now, gone))
    ensures History(l, Apply(l, s, DoClean(t, now, gone)))
  {
    hide BornOk, EntriesOk, PlainOk, LiveOk, ThreadsKnow, Known, Total, Removals, Expired;
    RemovalHistory(l, s.core.entries, gone, s.past, s.clock, now);
    ThreadMoves(s.threads, s.past, t, if gone == {} then Done(Cleaned, None) else Ready, DrainEvents(s.core, gone));
  }

  // ---- Publishing -------------------------------------------------------------

  lemma PublishedHistory(l: Limits, entries: map<Key, Record>, nextVer: nat, past: Past, clock: Time, key: Key,
                         rec: Record)
    requires BornOk(nextVer, past) && EntriesOk(entries, past) && PlainOk(l, entries, past, clock)
    requires LiveOk(l, entries, past, clock)
    requires rec.version == nextVer + 1 && rec.firstRestoreAt == None && key !in entries
    ensures var past' := past.(born := past.born[rec.version := Birth(key, rec)], plain := past.plain[key := rec]);
            && BornOk(nextVer + 1, past') && EntriesOk(entries[key := rec], past')
            && PlainOk(l, entries[key := rec], past', clock) && LiveOk(l, entries[key := rec], past', clock)
            && Grows(past, past') && Known(rec, key, past')
  {
    hide Expired, EntriesOk, LiveOk;
    PublishedEntries(entries, nextVer, past, key, rec);
    PublishedLive(l, entries, nextVer, past, clock, key, rec);
  }

  lemma PublishedLive(l: Limits, entries: map<Key, Record>, nextVer: nat, past: Past, clock: Time, key: Key,
                      rec: Record)
    requires BornOk(nextVer, past) && LiveOk(l, entries, past, clock) && rec.version == nextVer + 1 && key !in entries
    ensures var past' := past.(born := past.born[rec.version := Birth(key, rec)], plain := past.plain[key := rec]);
            LiveOk(l, entries[key := rec], past', clock)
  {
    hide Expired;
    var past' := past.(born := past.born[rec.version := Birth(key, rec)], plain := past.plain[key := rec]);
    forall v | v in past'.born && !Expired(l, Current(past', v), clock)
      ensures past'.born[v].key in entries[key := rec] && entries[key := rec][past'.born[v].key] == Current(past', v)
    {
      assert v != rec.version ==> v in past.born && Current(past', v) == Current(past, v);
    }
  }

  lemma PublishedEntries(entries: map<Key, Record>, nextVer: nat, past: Past, key: Key, rec: Record)
    requires BornOk(nextVer, past) && EntriesOk(entries, past)
    requires rec.version == nextVer + 1 && rec.firstRestoreAt == None && key !in entries
    ensures var past' := past.(born := past.born[rec.version := Birth(key, rec)], plain := past.plain[key := rec]);
            EntriesOk(entries[key := rec], past') && Known(rec, key, past')
  {
    var past' := past.(born := past.born[rec.version := Birth(key, rec)], plain := past.plain[key := rec]);
    var entries' := entries[key := rec];
    assert Known(rec, key, past') && rec.version !in past.restoredAt;
    forall k | k in entries'
      ensures Known(entries'[k], k, past') && (entries'[k].version in past'.restoredAt ==> InReplay(entries'[k]))
    {
      assert k in entries ==> Known(entries[k], k, past);
    }
  }

  lemma PublishHistory(l: Limits, s: Sys, t: Tid, content: Content, drainedAt: Time, at: Time, gone: set<Key>)
    requires History(l, s) && Protocol(s.core, s.cells, s.threads)
    requires Enabled(l, s, DoPublish(t, content, drainedAt, at, gone))
    ensures History(l, Apply(l, s, DoPublish(t, content, drainedAt, at, gone)))
    ensures Grows(s.past, Apply(l, s, DoPublish(t, content, drainedAt, at, gone)).past)
  {
    hide BornOk, EntriesOk, PlainOk, LiveOk, ThreadsKnow, Known, Total, Removals, RecordSize, PublishRefusal,
      LinksMatch, CellsMatch, HoldersMatch;
    var op := s.threads[t].op;
    var (core, out, ev) := StoreCore.Publish(l, s.core, op.key, t, Reserve(op), content, gone, at);
    ExpiredLater(l, s.core, gone, drainedAt, at);
    RemovalHistory(l, s.core.entries, gone, s.past, s.clock, at);
    match out {
      case Rejects(reason) =>
        ThreadMoves(s.threads, s.past, t, Finishing(Fails(ErrCapacity)), ev);
      case Stores(rec) =>
        var past' := s.past.(born := s.past.born[rec.version := Birth(op.key, rec)],
                             plain := s.past.plain[op.key := rec]);
        PublishedHistory(l, s.core.entries - gone, s.core.nextVer, s.past, at, op.key, rec);
        ThreadsKnowGrows(s.threads, s.past, past');
        ThreadMoves(s.threads, past', t, Finishing(Delivers(rec)), Plus(ev, Addition(rec.size)));
    }
  }

  lemma ExpiredLater<R>(l: Limits, c: Core<R>, gone: set<Key>, drainedAt: Time, at: Time)
    requires Drains(l, c, gone, drainedAt) && drainedAt <= at
    ensures forall k :: k in gone && k in c.entries ==> Expired(l, c.entries[k], at)
  {
  }

  // ---- Transitions ------------------------------------------------------------

  /** The past after a transition of the record under the key. */
  ghost function MarkedPast(l: Limits, past: Past, rec: Record, key: Key, now: Time): Past {
    var expired := Expired(l, rec, now);
    past.(restoredAt := past.restoredAt[rec.version := now], late := past.late || expired,
          plain := if expired then past.plain else past.plain[key := Restored(rec, now)])
  }

  lemma MarkedEntries(l: Limits, entries: map<Key, Record>, past: Past, key: Key, now: Time)
    requires EntriesOk(entries, past) && key in entries && !InReplay(entries[key])
    ensures var past' := MarkedPast(l, past, entries[key], key, now);
            && EntriesOk(entries[key := Restored(entries[key], now)], past') && Grows(past, past')
            && entries[key].version in past.born && entries[key].version !in past.restoredAt
  {
    hide Expired;
    var past' := MarkedPast(l, past, entries[key], key, now);
    var entries' := entries[key := Restored(entries[key], now)];
    assert Known(entries[key], key, past);
    forall k | k in entries'
      ensures Known(entries'[k], k, past') && (entries'[k].version in past'.restoredAt ==> InReplay(entries'[k]))
    {
      assert Known(entries[k], k, past);
    }
  }

  lemma MarkedPlain(l: Limits, entries: map<Key, Record>, past: Past, clock: Time, key: Key, now: Time)
    requires PlainOk(l, entries, past, clock) && clock <= now && key in entries
    ensures PlainOk(l, entries[key := Restored(entries[key], now)], MarkedPast(l, past, entries[key], key, now), now)
  {
    hide Deadline;
  }

  lemma MarkedLive(l: Limits, entries: map<Key, Record>, nextVer: nat, past: Past, clock: Time, key: Key, now: Time)
    requires BornOk(nextVer, past) && EntriesOk(entries, past) && LiveOk(l, entries, past, clock) && clock <= now
    requires key in entries && !InReplay(entries[key])
    ensures LiveOk(l, entries[key := Restored(entries[key], now)], MarkedPast(l, past, entries[key], key, now), now)
  {
    hide Deadline;
    var past', rec := MarkedPast(l, past, entries[key], key, now), entries[key];
    assert Known(rec, key, past);
    forall v | v in past'.born && !Expired(l, Current(past', v), now)
      ensures past'.born[v].key in entries[key := Restored(rec, now)]
      ensures entries[key := Restored(rec, now)][past'.born[v].key] == Current(past', v)
    {
      if v != rec.version {
        assert Current(past', v) == Current(past, v) && Current(past, v).version == v;
      }
    }
  }

  lemma MarkHistory(l: Limits, s: Sys, t: Tid, now: Time)
    requires History(l, s) && Enabled(l, s, DoMark(t, now))
    ensures History(l, Apply(l, s, DoMark(t, now))) && Grows(s.past, Apply(l, s, DoMark(t, now)).past)
  {
    hide EntriesOk, PlainOk, LiveOk, ThreadsKnow, Expired;
    var key, version := s.threads[t].op.key, s.threads[t].op.version;
    var (core, ok, ev) := StoreCore.MarkRestored(l, s.core, key, version, now);
    if ok {
      MarkedEntries(l, s.core.entries, s.past, key, now);
      MarkedPlain(l, s.core.entries, s.past, s.clock, key, now);
      MarkedLive(l, s.core.entries, s.core.nextVer, s.past, s.clock, key, now);
      var past' := MarkedPast(l, s.past, s.core.entries[key], key, now);
      ThreadsKnowGrows(s.threads, s.past, past');
      ThreadMoves(s.threads, past', t, Done(Marked(ok), None), ev);
    } else {
      RemovalHistory(l, s.core.entries, {}, s.past, s.clock, now);
      assert s.core.entries - {} == s.core.entries;
      ThreadMoves(s.threads, s.past, t, Done(Marked(ok), None), ev);
    }
  }

  // ---- Every step -------------------------------------------------------------

  /** What a waiter takes over is the record its creator returned. */
  lemma WakeHistory(l: Limits, s: Sys, t: Tid)
    requires History(l, s) && Protocol(s.core, s.cells, s.threads) && Enabled(l, s, Wake(t))
    ensures History(l, Apply(l, s, Wake(t)))
  {
    hide BornOk, EntriesOk, PlainOk, LiveOk, ThreadsKnow, Known, LinksMatch, HoldersMatch, KeysFree;
    var on := s.threads[t].pc.on;
    assert ThreadOk(t, s.cells, s.threads) && CellOk(on, s.cells, s.threads);
    ThreadIsKnown(s, on);
    ThreadMoves(s.threads, s.past, t, AfterWait(on, s.cells[on].outcome), NOTHING);
  }

  lemma ThreadIsKnown(s: Sys, t: Tid)
    requires ThreadsKnow(s.threads, s.past) && t in s.threads
    ensures ThreadKnows(s.threads[t], s.past)
  {
  }

  /** A step that touches neither records nor history: thread t ends up with the
      record it had, or with none. */
  lemma LocalHistory(l: Limits, s: Sys, t: Tid, pc: Pc)
    requires History(l, s) && t in s.threads
    requires RecordOf(pc).Some? ==> RecordOf(pc) == RecordOf(s.threads[t].pc)
    ensures ThreadsKnow(Moved(s.threads, t, pc, NOTHING), s.past)
  {
    hide BornOk, EntriesOk, PlainOk, LiveOk, ThreadsKnow, Known;
    ThreadIsKnown(s, t);
    ThreadMoves(s.threads, s.past, t, pc, NOTHING);
  }

  lemma ReplaceThread(threads: Threads, past: Past, t: Tid, th: Thread)
    requires ThreadsKnow(threads, past) && ThreadKnows(th, past)
    ensures ThreadsKnow(threads[t := th], past)
  {
    var threads' := threads[t := th];
    forall u | u in threads' ensures ThreadKnows(threads'[u], past) {
      assert u in threads ==> ThreadKnows(threads[u], past);
    }
  }

  lemma HistoryStep(l: Limits, s: Sys, step: Step)
    requires History(l, s) && Protocol(s.core, s.cells, s.threads) && Enabled(l, s, step)
    ensures History(l, Apply(l, s, step)) && Grows(s.past, Apply(l, s, step).past)
  {
    hide BornOk, EntriesOk, PlainOk, LiveOk, ThreadsKnow, Known, Protocol, ApplyPublish, ApplyMark, Drained,
      DrainEvents, Begin,
      StoreCore.Get, Drains;
    match step
    case Spawn(t, op) => ReplaceThread(s.threads, s.past, t, Thread(op, Ready, NOTHING));
    case DoGet(t, now) => GetHistory(l, s, t, now);
    case DoBegin(t, now, gone) => BeginHistory(l, s, t, now, gone);
    case Cancel(t) => LocalHistory(l, s, t, Done(Failed(ErrContext), None));
    case TimeOut(t) => LocalHistory(l, s, t, Done(Failed(ErrBusy), None));
    case Wake(t) => WakeHistory(l, s, t);
    case FailBuild(t, error) => LocalHistory(l, s, t, Done(Failed(error), Some(t)));
    case DoPublish(t, content, drainedAt, at, gone) => PublishHistory(l, s, t, content, drainedAt, at, gone);
    case DoFinish(t) => LocalHistory(l, s, t, Done(CreatorAnswer(s.threads[t].pc.outcome), Some(t)));
    case DoMark(t, now) => MarkHistory(l, s, t, now);
    case DoClean(t, now, gone) => CleanHistory(l, s, t, now, gone);
    case Deliver(t, part) =>
      ThreadIsKnown(s, t);
      ReplaceThread(s.threads, s.past, t, s.threads[t].(owed := Minus(s.threads[t].owed, part)));
  }
}

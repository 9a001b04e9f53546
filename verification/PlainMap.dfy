/** Reading the store is reading a plain map of timestamped records, without queue or
    eviction, except for records that expired before their transition. What `Create`
    hands out from a reservation is another matter (see `Handouts`). */
module PlainMap {
  import opened Bytes
  import opened Expiry
  import opened Totals
  import opened StoreCore
  import opened StoreSteps
  import opened StoreProtocol
  import opened StoreHistory
  import opened StoreSafety
  import opened DrainLemmas

  /** The key has a record that is not past its deadline at this time. */
  ghost predicate Live(l: Limits, m: map<Key, Record>, k: Key, at: Time) {
    k in m && !Expired(l, m[k], at)
  }

  ghost function Lookup(l: Limits, m: map<Key, Record>, k: Key, at: Time): Option<Record> {
    if Live(l, m, k, at) then Some(m[k]) else None
  }

  /** `MarkRestored` on the plain map: an expired record is as good as absent. */
  ghost function PlainMark(l: Limits, m: map<Key, Record>, key: Key, version: nat, now: Time): map<Key, Record> {
    if Live(l, m, key, now) && m[key].version == version && !InReplay(m[key]) && l.replayTtl > 0
    then m[key := Restored(m[key], now)]
    else m
  }

  /** Unless a transition hit an expired record, `Get` on the store finds, now and at
      any later time, what a lookup in the plain map does; eviction and draining never
      show in it. */
  lemma ReadsLikePlainMap(l: Limits, s: Sys, k: Key, at: Time)
    requires Reachable(l, s) && !s.past.late && s.clock <= at
    ensures StoreCore.Get(l, s.core, k, at).1 == Lookup(l, s.past.plain, k, at)
  {
    hide Inv, Protocol, RestorersUnique, StoreObserver.Conserved, BornOk, EntriesOk, ThreadsKnow, Reachable;
    ReachableInv(l, s);
  }

  /** The plain map changes by publishing and by its own `MarkRestored` only, and knows
      nothing of reservations: a record is in it from the moment it is published. */
  lemma PlainMapSteps(l: Limits, s: Sys, step: Step)
    requires Reachable(l, s) && Enabled(l, s, step) && !Apply(l, s, step).past.late
    ensures var m, m', th := s.past.plain, Apply(l, s, step).past.plain, s.threads;
            match step
            case DoMark(t, now) => m' == PlainMark(l, m, th[t].op.key, th[t].op.version, now)
            case DoPublish(t, content, drainedAt, at, gone) =>
              (match Apply(l, s, step).threads[t].pc
               case Finishing(Delivers(rec)) =>
                 m' == m[th[t].op.key := rec] && rec.content == content && rec.createdAt == at && !InReplay(rec)
               case _ => m' == m)
            case _ => m' == m
  {
    hide Inv, Protocol, RestorersUnique, StoreObserver.Conserved, BornOk, ThreadsKnow, Reachable, Drains,
      Drained, DrainEvents, PublishRefusal, RecordSize, Begin, StoreCore.Get;
    ReachableInv(l, s);
    if step.DoMark? {
      PlainMarkStep(l, s, step.t, step.now);
    } else if step.DoPublish? {
      var op := s.threads[step.t].op;
      var (core, out, ev) := StoreCore.Publish(l, s.core, op.key, step.t, Reserve(op), step.content, step.gone,
        step.at);
    }
  }

  lemma PlainMarkStep(l: Limits, s: Sys, t: Tid, now: Time)
    requires PlainOk(l, s.core.entries, s.past, s.clock) && Enabled(l, s, DoMark(t, now))
    requires !Apply(l, s, DoMark(t, now)).past.late
    ensures Apply(l, s, DoMark(t, now)).past.plain ==
            PlainMark(l, s.past.plain, s.threads[t].op.key, s.threads[t].op.version, now)
  {
  }

  /** The exact condition: a transition keeps the lookups in both in agreement at all
      later times if and only if the record it hits, if any, is not expired. */
  lemma TransitionAgreesExactly(l: Limits, s: Sys, t: Tid, now: Time)
    requires Reachable(l, s) && !s.past.late && Enabled(l, s, DoMark(t, now))
    ensures var s', op := Apply(l, s, DoMark(t, now)), s.threads[t].op;
            (forall k, at :: now <= at ==> Lookup(l, s'.core.entries, k, at) == Lookup(l, s'.past.plain, k, at))
            <==> !(MayRestore(l, s.core, op.key, op.version) && Expired(l, s.core.entries[op.key], now))
  {
    hide Inv, Protocol, RestorersUnique, StoreObserver.Conserved, BornOk, EntriesOk, ThreadsKnow, Reachable;
    ReachableInv(l, s);
    var s', op := Apply(l, s, DoMark(t, now)), s.threads[t].op;
    if MayRestore(l, s.core, op.key, op.version) && Expired(l, s.core.entries[op.key], now) {
      assert Lookup(l, s'.core.entries, op.key, now) != Lookup(l, s'.past.plain, op.key, now);
    } else {
      MarkKeepsPlain(l, s, t, now);
      forall k, at | now <= at ensures Lookup(l, s'.core.entries, k, at) == Lookup(l, s'.past.plain, k, at) {
      }
    }
  }

  lemma MarkKeepsPlain(l: Limits, s: Sys, t: Tid, now: Time)
    requires PlainOk(l, s.core.entries, s.past, s.clock) && !s.past.late && Enabled(l, s, DoMark(t, now))
    requires var op := s.threads[t].op;
             !(MayRestore(l, s.core, op.key, op.version) && Expired(l, s.core.entries[op.key], now))
    ensures var s' := Apply(l, s, DoMark(t, now)); PlainOk(l, s'.core.entries, s'.past, now) && !s'.past.late
  {
  }

  // ---- A late transition happens --------------------------------------------------

  /** The limits let this one record in. */
  ghost predicate LetsIn(l: Limits, key: Key, content: Content) {
    var size := RecordSize(key, content);
    && (l.maxRecordBytes > 0 ==> size <= l.maxRecordBytes)
    && (l.maxBytes > 0 ==>
          size <= l.maxBytes && MinRecordSize(key, |content.original|) + INFLIGHT_OVERHEAD <= l.maxBytes)
  }

  lemma {:induction false} RunOneMore(l: Limits, s: Sys, steps: seq<Step>, step: Step)
    requires Runs(l, s, steps) && Enabled(l, Exec(l, s, steps), step)
    ensures Runs(l, s, steps + [step]) && Exec(l, s, steps + [step]) == Apply(l, Exec(l, s, steps), step)
    decreases |steps|
  {
    hide Enabled, Apply;
    var more := steps + [step];
    if steps == [] {
      assert more[0] == step && more[1..] == [];
    } else {
      RunOneMore(l, Apply(l, s, steps[0]), steps[1..], step);
      assert more[0] == steps[0] && more[1..] == steps[1..] + [step];
    }
  }

  lemma ReachOneMore(l: Limits, s: Sys, step: Step)
    requires Reachable(l, s) && Enabled(l, s, step)
    ensures Reachable(l, Apply(l, s, step))
  {
    hide Runs, Exec, Enabled, Apply;
    var at, steps :| Runs(l, Init(at), steps) && s == Exec(l, Init(at), steps);
    RunOneMore(l, Init(at), steps, step);
  }

  /** The store and the plain map hold just this record, published at time 0. */
  ghost predicate HoldsOne(s: Sys, key: Key, content: Content) {
    && s.core.entries.Keys == {key} && s.past.plain == s.core.entries && !s.past.late && s.clock == 0
    && s.core.entries[key].content == content && s.core.entries[key].version == 1
    && s.core.entries[key].createdAt == 0 && s.core.entries[key].firstRestoreAt == None
    && s.threads.Keys == {Tid(0, 0)}
  }

  /** The store is empty, and one call builds this record under its reservation. */
  ghost predicate BuildsOne(s: Sys, key: Key, content: Content) {
    var op := CreateOp(key, MinRecordSize(key, |content.original|));
    && s.threads == map[Tid(0, 0) := Thread(op, Building, NOTHING)] && s.clock == 0
    && s.core.entries == map[] && s.core.bytes == 0 && s.core.reservedBytes == Reserve(op) && s.core.nextVer == 0
    && s.past == Past(map[], map[], map[], false)
  }

  lemma EmptyStoreGrants(l: Limits, c: Core<Tid>, key: Key, reserve: nat, t: Tid)
    requires c.entries == map[] && c.inflight == map[] && c.bytes == c.reservedBytes == c.reservedEntries == 0
    requires l.maxBytes > 0 ==> reserve <= l.maxBytes
    ensures Begin(l, c, key, reserve, t, {}, 0) == (Reserved(c, key, t, reserve), Granted, NOTHING)
  {
    hide Drained, DrainEvents;
    DrainedNothing(c);
  }

  lemma BuildsNow(threads: Threads, t: Tid)
    requires t in threads && threads[t].owed == NOTHING
    ensures Moved(threads, t, Building, NOTHING)[t] == Thread(threads[t].op, Building, NOTHING)
  {
  }

  lemma MovedKeys(threads: Threads, t: Tid, pc: Pc, ev: Tally)
    requires t in threads
    ensures Moved(threads, t, pc, ev).Keys == threads.Keys
  {
  }

  lemma BeginApplied(l: Limits, s: Sys, t: Tid, now: Time, gone: set<Key>)
    requires Enabled(l, s, DoBegin(t, now, gone))
    ensures var s', op := Apply(l, s, DoBegin(t, now, gone)), s.threads[t].op;
            var (core, out, ev) := Begin(l, s.core, op.key, Reserve(op), t, gone, now);
            && s'.core == core && s'.clock == now && s'.past == s.past
            && s'.threads == Moved(s.threads, t, AfterBegin(out), ev)
            && (!out.Granted? ==> s'.cells == s.cells)
  {
    hide Begin, Drains, Reserve, Moved;
  }

  /** In an empty store a creator is let in. */
  lemma IsGranted(l: Limits, s: Sys, t: Tid)
    requires s.core.entries == map[] && s.core.inflight == map[] && s.clock == 0
    requires s.core.bytes == s.core.reservedBytes == s.core.reservedEntries == 0
    requires At(s, t, Ready) && s.threads[t].op.CreateOp? && s.threads[t].owed == NOTHING
    requires l.maxBytes > 0 ==> Reserve(s.threads[t].op) <= l.maxBytes
    ensures Enabled(l, s, DoBegin(t, 0, {}))
    ensures var s', op := Apply(l, s, DoBegin(t, 0, {})), s.threads[t].op;
            && s'.clock == 0 && s'.past == s.past && s'.threads == Moved(s.threads, t, Building, NOTHING)
            && s'.core == Reserved(s.core, op.key, t, Reserve(op))
  {
    hide Begin, Drains, Reserved, Reserve, Apply, Moved;
    NoBatch(l, s.core, 0);
    BeginApplied(l, s, t, 0, {});
    EmptyStoreGrants(l, s.core, s.threads[t].op.key, Reserve(s.threads[t].op), t);
  }

  lemma OneBuilder(l: Limits, key: Key, content: Content) returns (s: Sys)
    requires LetsIn(l, key, content)
    ensures Reachable(l, s) && BuildsOne(s, key, content)
  {
    hide Reachable, Begin, RecordSize, Drains, MinRecordSize;
    var t, op := Tid(0, 0), CreateOp(key, MinRecordSize(key, |content.original|));
    s := Started(l);
    ReachOneMore(l, s, Spawn(t, op));
    s := Apply(l, s, Spawn(t, op));
    NoBatch(l, s.core, 0);
    EmptyStoreGrants(l, s.core, key, Reserve(op), t);
    ReachOneMore(l, s, DoBegin(t, 0, {}));
    s := Apply(l, s, DoBegin(t, 0, {}));
  }

  lemma EmptyStorePublishes(l: Limits, c: Core<Tid>, key: Key, t: Tid, content: Content)
    requires LetsIn(l, key, content) && c.entries == map[] && c.bytes == 0 && c.nextVer == 0
    requires c.reservedBytes == MinRecordSize(key, |content.original|) + INFLIGHT_OVERHEAD
    ensures var (c', out, ev) := StoreCore.Publish(l, c, key, t, c.reservedBytes, content, {}, 0);
            && out == Stores(Record(content, 0, None, 1, RecordSize(key, content)))
            && c'.entries == map[key := out.rec] && ev == NOTHING
  {
    hide RecordSize, Drained, DrainEvents;
    DrainedNothing(c);
  }

  lemma OnePublished(l: Limits, s: Sys, key: Key, content: Content)
    requires LetsIn(l, key, content) && BuildsOne(s, key, content)
    ensures Enabled(l, s, DoPublish(Tid(0, 0), content, 0, 0, {}))
    ensures var s' := Apply(l, s, DoPublish(Tid(0, 0), content, 0, 0, {}));
            && HoldsOne(s', key, content) && s'.threads[Tid(0, 0)].pc == Finishing(Delivers(s'.core.entries[key]))
            && s'.threads[Tid(0, 0)].op.CreateOp? && s'.threads[Tid(0, 0)].op.key == key
  {
    hide StoreCore.Publish, Drains, RecordSize, LetsIn, MinRecordSize;
    NoBatch(l, s.core, 0);
    EmptyStorePublishes(l, s.core, key, Tid(0, 0), content);
  }

  /** One call creates the record. */
  lemma OneRecord(l: Limits, key: Key, content: Content) returns (s: Sys)
    requires LetsIn(l, key, content)
    ensures Reachable(l, s) && HoldsOne(s, key, content)
  {
    hide Reachable, LetsIn, ApplyPublish, BuildsOne;
    s := OneBuilder(l, key, content);
    OnePublished(l, s, key, content);
    ReachOneMore(l, s, DoPublish(Tid(0, 0), content, 0, 0, {}));
    s := Apply(l, s, DoPublish(Tid(0, 0), content, 0, 0, {}));
    ReachOneMore(l, s, DoFinish(Tid(0, 0)));
    s := Apply(l, s, DoFinish(Tid(0, 0)));
  }

  lemma Started(l: Limits) returns (s: Sys)
    ensures Reachable(l, s) && s == Init(0)
  {
    s := Init(0);
    assert Runs(l, Init(0), []) && s == Exec(l, Init(0), []);
  }

  lemma NoBatch(l: Limits, c: Core<Tid>, now: Time)
    requires c.entries == map[]
    ensures Drains(l, c, {}, now)
  {
  }

  /** A call has read the one record just before its deadline. */
  ghost predicate ReadLive(l: Limits, s: Sys, key: Key) {
    && s.core.entries.Keys == {key} && s.past.plain == s.core.entries && !s.past.late && s.clock == l.ttl - 1
    && s.core.entries[key].version == 1 && s.core.entries[key].createdAt == 0
    && s.core.entries[key].firstRestoreAt == None
    && At(s, Tid(1, 0), Done(Looked(Some(s.core.entries[key])), None)) && Tid(1, 1) !in s.threads
  }

  lemma OneRead(l: Limits, key: Key, content: Content) returns (s: Sys)
    requires l.ttl > 0 && LetsIn(l, key, content)
    ensures Reachable(l, s) && ReadLive(l, s, key)
  {
    hide Reachable, Removals, Total, RecordSize, LetsIn;
    s := OneRecord(l, key, content);
    ReachOneMore(l, s, Spawn(Tid(1, 0), GetOp(key)));
    s := Apply(l, s, Spawn(Tid(1, 0), GetOp(key)));
    ReachOneMore(l, s, DoGet(Tid(1, 0), l.ttl - 1));
    s := Apply(l, s, DoGet(Tid(1, 0), l.ttl - 1));
  }

  lemma LateMark(l: Limits, s: Sys, key: Key)
    requires l.ttl > 0 && l.replayTtl > 0 && ReadLive(l, s, key)
    ensures var s1 := Apply(l, s, Spawn(Tid(1, 1), MarkOp(key, 1)));
            && Enabled(l, s1, DoMark(Tid(1, 1), l.ttl))
            && var s2 := Apply(l, s1, DoMark(Tid(1, 1), l.ttl));
               s2.past.late && Lookup(l, s2.core.entries, key, l.ttl).Some? &&
               Lookup(l, s2.past.plain, key, l.ttl) == None
  {
    hide Total, Removals;
  }

  /** Under any limits with both lifetimes that let one record in, a run exists in
      which a call reads the record while it is live and marks it at its deadline: from
      then on the store hands out a record that the plain map knows to have expired. */
  lemma LateTransitionHappens(l: Limits, key: Key, content: Content) returns (s: Sys, s': Sys)
    requires l.ttl > 0 && l.replayTtl > 0 && LetsIn(l, key, content)
    ensures Reachable(l, s) && !s.past.late && Enabled(l, s, DoMark(Tid(1, 1), l.ttl))
    ensures Tid(1, 0) in s.threads && key in s.core.entries
    ensures s.threads[Tid(1, 0)].pc == Done(Looked(Some(s.core.entries[key])), None)
    ensures s' == Apply(l, s, DoMark(Tid(1, 1), l.ttl)) && Reachable(l, s') && s'.past.late
    ensures Lookup(l, s'.core.entries, key, l.ttl).Some? && Lookup(l, s'.past.plain, key, l.ttl) == None
  {
    hide Reachable, LetsIn, ApplyMark, Lookup;
    var read := OneRead(l, key, content);
    LateMark(l, read, key);
    ReachOneMore(l, read, Spawn(Tid(1, 1), MarkOp(key, 1)));
    s := Apply(l, read, Spawn(Tid(1, 1), MarkOp(key, 1)));
    ReachOneMore(l, s, DoMark(Tid(1, 1), l.ttl));
    s' := Apply(l, s, DoMark(Tid(1, 1), l.ttl));
  }
}

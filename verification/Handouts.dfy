/** Which records are handed out: those a call reads or publishes itself are live;
    one that it gets from the creator it waited for may have expired before. */
module Handouts {
  import opened Bytes
  import opened Expiry
  import opened Totals
  import opened StoreCore
  import opened StoreSteps
  import opened StoreProtocol
  import opened StoreHistory
  import opened StoreSafety
  import opened DrainLemmas
  import opened PlainMap

  // ---- Records of one's own -----------------------------------------------------

  /** A thread gets a record only while that record is live, or by waking from a wait
      for its creator. */
  lemma OwnHandoutsAreLive(l: Limits, s: Sys, step: Step, t: Tid, rec: Record)
    requires Enabled(l, s, step) && t in Apply(l, s, step).threads
    requires RecordOf(Apply(l, s, step).threads[t].pc) == Some(rec)
    requires t in s.threads ==> RecordOf(s.threads[t].pc) != Some(rec)
    ensures t == step.t
    ensures if step.Wake? then
              s.cells[s.threads[t].pc.on] == Closed(Delivers(rec)) &&
              Apply(l, s, step).threads[t].pc == Done(Existed(rec), Some(s.threads[t].pc.on))
            else !Expired(l, rec, Apply(l, s, step).clock)
  {
    hide Total, Removals, RecordSize, Drained, DrainEvents, Drains, ReserveRefusal, PublishRefusal, Released, Unlinked,
      MayRestore;
  }

  // ---- Records of the creator one waited for --------------------------------------

  /** What a creator may still hand out: the given outcome, if it was settled before,
      and else a record it publishes from now on. */
  ghost predicate May(out: Outcome, settled: Option<Outcome>, since: Time) {
    if settled.Some? then out == settled.value
    else out.Delivers? ==> since <= out.rec.createdAt && !InReplay(out.rec)
  }

  ghost predicate Yields(pc: Pc, settled: Option<Outcome>, since: Time) {
    match pc
    case Building => settled == None
    case Finishing(out) => May(out, settled, since)
    case Done(answer, _) => answer.Created? ==> May(Delivers(answer.rec), settled, since)
    case _ => false
  }

  lemma YieldStep(l: Limits, s: Sys, step: Step, r: Tid, settled: Option<Outcome>, since: Time)
    requires Enabled(l, s, step) && r in s.threads && Yields(s.threads[r].pc, settled, since) && since <= s.clock
    ensures var s' := Apply(l, s, step);
            r in s'.threads && Yields(s'.threads[r].pc, settled, since) && since <= s'.clock
  {
    hide Total, Removals, RecordSize, Drained, DrainEvents, Drains, ReserveRefusal, PublishRefusal, Released, Unlinked,
      MayRestore, Begin, StoreCore.Get, Expired;
  }

  lemma {:induction false} YieldRun(l: Limits, s: Sys, steps: seq<Step>, r: Tid, settled: Option<Outcome>, since: Time)
    requires Runs(l, s, steps) && r in s.threads && Yields(s.threads[r].pc, settled, since) && since <= s.clock
    ensures var s' := Exec(l, s, steps); r in s'.threads && Yields(s'.threads[r].pc, settled, since)
    decreases |steps|
  {
    hide Enabled, Apply, Yields;
    if steps != [] {
      YieldStep(l, s, steps[0], r, settled, since);
      YieldRun(l, Apply(l, s, steps[0]), steps[1..], r, settled, since);
    }
  }

  /** The creator has published a record and not yet finished, and the record has
      expired by now. */
  ghost predicate HoldsExpired(l: Limits, s: Sys, r: Tid, now: Time) {
    && r in s.threads && s.threads[r].pc.Finishing? && s.threads[r].pc.outcome.Delivers?
    && Expired(l, s.threads[r].pc.outcome.rec, now)
  }

  /** What a wait begins with: another thread holds the reservation of the key. */
  lemma WaitsForHolder(l: Limits, s: Sys, t: Tid, now: Time, gone: set<Key>, r: Tid)
    requires Protocol(s.core, s.cells, s.threads) && Enabled(l, s, DoBegin(t, now, gone))
    requires Apply(l, s, DoBegin(t, now, gone)).threads[t].pc == Waiting(r)
    ensures r in s.threads && r != t && HoldsLink(s.threads[r])
    ensures var s' := Apply(l, s, DoBegin(t, now, gone));
            r in s'.threads && s'.threads[r] == s.threads[r] && s'.clock == now
  {
    hide Protocol, Begin, LinksMatch, HoldersMatch, KeysFree, CellsMatch;
    var op := s.threads[t].op;
    BeginEffect(l, s.core, op.key, Reserve(op), t, gone, now);
    LinkIsLive(s, op.key);
  }

  /** The exact condition: a `Create` that waits is answered with a record that had
      already expired when it began to wait if and only if the creator had published
      that record by then, still stood before `finishInflight`, and the record had
      expired. Whatever a creator publishes later is answered in time. */
  lemma WaitedAnswerIsStaleExactly(l: Limits, s: Sys, t: Tid, now: Time, gone: set<Key>, r: Tid, steps: seq<Step>,
                                   rec: Record)
    requires Reachable(l, s) && Enabled(l, s, DoBegin(t, now, gone))
    requires Apply(l, s, DoBegin(t, now, gone)).threads[t].pc == Waiting(r)
    requires Runs(l, Apply(l, s, DoBegin(t, now, gone)), steps)
    requires var s' := Exec(l, Apply(l, s, DoBegin(t, now, gone)), steps);
             t in s'.threads && s'.threads[t].pc == Done(Existed(rec), Some(r))
    ensures Expired(l, rec, now) <==> HoldsExpired(l, s, r, now)
  {
    hide Reachable, SysInv, Runs, Exec, Enabled, Apply;
    ReachableInv(l, s);
    ProtocolHolds(l, s);
    WaitsForHolder(l, s, t, now, gone, r);
    ReachOneMore(l, s, DoBegin(t, now, gone));
    var s1 := Apply(l, s, DoBegin(t, now, gone));
    var pc := s.threads[r].pc;
    var settled := if pc.Finishing? then Some(pc.outcome) else None;
    YieldRun(l, s1, steps, r, settled, now);
    ReachMore(l, s1, steps);
    WaiterReturnsCreatorsResult(l, Exec(l, s1, steps), t, r);
  }

  lemma ProtocolHolds(l: Limits, s: Sys)
    requires SysInv(l, s)
    ensures Protocol(s.core, s.cells, s.threads)
  {
    hide Protocol;
  }

  lemma {:induction false} ReachMore(l: Limits, s: Sys, steps: seq<Step>)
    requires Reachable(l, s) && Runs(l, s, steps)
    ensures Reachable(l, Exec(l, s, steps))
    decreases |steps|
  {
    hide Reachable, Enabled, Apply;
    if steps != [] {
      ReachOneMore(l, s, steps[0]);
      ReachMore(l, Apply(l, s, steps[0]), steps[1..]);
    }
  }

  // ---- It happens -------------------------------------------------------------------

  /** The record of creator r has been evicted at its deadline, before r has finished. */
  ghost predicate Orphaned(l: Limits, s: Sys, key: Key, r: Tid, rec: Record) {
    && s.core.entries == map[] && s.past.plain == map[key := rec] && !s.past.late && s.clock == l.ttl
    && rec.createdAt == 0 && rec.firstRestoreAt == None
    && r in s.threads && s.threads[r].op.CreateOp? && s.threads[r].op.key == key
    && s.threads[r].pc == Finishing(Delivers(rec)) && Tid(1, 1) !in s.threads
  }

  lemma OneOrphaned(l: Limits, key: Key, content: Content) returns (s: Sys, rec: Record)
    requires l.ttl > 0 && LetsIn(l, key, content)
    ensures Reachable(l, s) && Orphaned(l, s, key, Tid(0, 0), rec) && rec.content == content
  {
    hide Reachable, LetsIn, ApplyPublish, BuildsOne, Removals, Total;
    s := OneBuilder(l, key, content);
    OnePublished(l, s, key, content);
    ReachOneMore(l, s, DoPublish(Tid(0, 0), content, 0, 0, {}));
    s := Apply(l, s, DoPublish(Tid(0, 0), content, 0, 0, {}));
    rec := s.core.entries[key];
    ReachOneMore(l, s, Spawn(Tid(1, 0), GetOp(key)));
    s := Apply(l, s, Spawn(Tid(1, 0), GetOp(key)));
    ReachOneMore(l, s, DoGet(Tid(1, 0), l.ttl));
    s := Apply(l, s, DoGet(Tid(1, 0), l.ttl));
  }

  /** The link of a creator that has published stays until it finishes. */
  lemma OrphanIsLinked(l: Limits, s: Sys, key: Key, r: Tid, rec: Record)
    requires Reachable(l, s) && Orphaned(l, s, key, r, rec)
    ensures key in s.core.inflight && s.core.inflight[key] == r
  {
    hide Reachable, Inv, HoldersMatch, KeysFree, CellsMatch, History, RestorersUnique, StoreObserver.Conserved;
    ReachableInv(l, s);
    assert HoldsLink(s.threads[r]);
  }

  /** Under any limits that let one record in, a run without any late transition exists
      in which a call waits at the record's deadline and is answered with that record:
      it had expired before the call began to wait, it is stored no more, and the plain
      map has nothing under the key. */
  lemma StaleAnswerHappens(l: Limits, key: Key, content: Content, minSize: nat)
    returns (s: Sys, rec: Record, s': Sys)
    requires l.ttl > 0 && LetsIn(l, key, content)
    ensures var t, r := Tid(1, 1), Tid(0, 0);
            && Reachable(l, s) && Enabled(l, s, DoBegin(t, l.ttl, {}))
            && s.threads[t] == Thread(CreateOp(key, minSize), Ready, NOTHING)
            && At(Apply(l, s, DoBegin(t, l.ttl, {})), t, Waiting(r))
            && Runs(l, Apply(l, s, DoBegin(t, l.ttl, {})), [DoFinish(r), Wake(t)])
            && s' == Exec(l, Apply(l, s, DoBegin(t, l.ttl, {})), [DoFinish(r), Wake(t)])
            && At(s', t, Done(Existed(rec), Some(r))) && rec.content == content && Expired(l, rec, l.ttl)
            && key !in s'.core.entries && !s'.past.late && Lookup(l, s'.past.plain, key, l.ttl) == None
  {
    hide Reachable, LetsIn, Drained, DrainEvents, ReserveRefusal, Drains;
    var t, r := Tid(1, 1), Tid(0, 0);
    s, rec := OneOrphaned(l, key, content);
    ReachOneMore(l, s, Spawn(t, CreateOp(key, minSize)));
    OrphanIsLinked(l, s, key, r, rec);
    s := Apply(l, s, Spawn(t, CreateOp(key, minSize)));
    NoBatch(l, s.core, l.ttl);
    var s1 := Apply(l, s, DoBegin(t, l.ttl, {}));
    var s2 := Apply(l, s1, DoFinish(r));
    s' := Apply(l, s2, Wake(t));
    TwoSteps(l, s1, DoFinish(r), Wake(t));
  }

  lemma TwoSteps(l: Limits, s: Sys, x: Step, y: Step)
    requires Enabled(l, s, x) && Enabled(l, Apply(l, s, x), y)
    ensures Runs(l, s, [x, y]) && Exec(l, s, [x, y]) == Apply(l, Apply(l, s, x), y)
  {
    hide Enabled, Apply;
    var s1 := Apply(l, s, x);
    assert [x, y][1..] == [y] && [y][1..] == [];
    assert Runs(l, Apply(l, s1, y), []) && Exec(l, Apply(l, s1, y), []) == Apply(l, s1, y);
    assert Runs(l, s1, [y]) && Exec(l, s1, [y]) == Apply(l, s1, y);
  }
}

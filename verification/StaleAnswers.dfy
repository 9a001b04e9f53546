/** A run of two equal `Process` calls in which the second one is answered with a mask
    that can no longer be restored. */
module StaleAnswers {
  import opened Bytes
  import opened Expiry
  import opened Totals
  import opened StoreCore
  import opened StoreSteps
  import opened StoreProtocol
  import opened StoreHistory
  import opened StoreSafety
  import opened PlainMap
  import opened Handouts
  import opened Pipeline
  import opened PipelineFacts
  import opened AppSteps
  import opened AppProtocol
  import opened AppRuns

  // ---- A call that finds nothing ---------------------------------------------------

  /** Call c has found nothing and is about to create. */
  ghost predicate AboutToCreate(a: App, a': App, c: nat, req: Request) {
    var key := KeyFor(req);
    && a'.calls == a.calls[c := Call(req, Creating)]
    && a'.store.threads.Keys == a.store.threads.Keys + {Tid(c, 0), Tid(c, 1)}
    && a'.store.threads[Tid(c, 1)] == Thread(CreateOp(key, MinRecordSize(key, |req.text|)), Ready, NOTHING)
    && (forall t :: t in a.store.threads ==> t in a'.store.threads && a'.store.threads[t] == a.store.threads[t])
    && a'.store.core.entries == a.store.core.entries - {key}
    && a'.store.cells == a.store.cells && a'.store.past == a.store.past
  }

  /** The record of this key, if there is one, has expired. */
  ghost predicate NoneLive(l: Limits, c: Core<Tid>, key: Key, now: Time) {
    key in c.entries ==> Expired(l, c.entries[key], now)
  }

  lemma Enters(cfg: Config, a: App, c: nat, req: Request)
    requires Allowed(cfg, a, Enter(c, req)) && Denied(cfg, req) == None
    ensures var th := Thread(GetOp(KeyFor(req)), Ready, NOTHING);
            Next(cfg, a, Enter(c, req)) ==
            a.(store := a.store.(threads := a.store.threads[Tid(c, 0) := th]),
               calls := a.calls[c := Call(req, Getting)])
  {
    hide KeyFor, Denied;
  }

  lemma FindsNothing(cfg: Config, a: App, c: nat, key: Key, now: Time)
    requires At(a.store, Tid(c, 0), Ready) && a.store.threads[Tid(c, 0)].op == GetOp(key) && a.store.clock <= now
    requires NoneLive(cfg.limits, a.store.core, key, now)
    ensures Allowed(cfg, a, Inside(DoGet(Tid(c, 0), now)))
    ensures var t, s, a' := Tid(c, 0), a.store, Next(cfg, a, Inside(DoGet(Tid(c, 0), now)));
            && a'.calls == a.calls && At(a'.store, t, Done(Looked(None), None))
            && a'.store.threads == s.threads[t := a'.store.threads[t]]
            && a'.store.core == (if key in s.core.entries then Evict(s.core, key) else s.core)
            && a'.store.clock == now && a'.store.cells == s.cells && a'.store.past == s.past
  {
    hide Removals, Total, Expired;
  }

  lemma StartsToCreate(cfg: Config, a: App, c: nat)
    requires c in a.calls && a.calls[c].phase.Getting? && !a.calls[c].req.RestoreReq?
    requires At(a.store, Tid(c, 0), Done(Looked(None), None))
    requires Tid(c, 1) !in a.store.threads && Tid(c, 2) !in a.store.threads
    ensures Allowed(cfg, a, Advance(c))
    ensures var req := a.calls[c].req; var key := KeyFor(req);
            var th := Thread(CreateOp(key, MinRecordSize(key, |req.text|)), Ready, NOTHING);
            Next(cfg, a, Advance(c)) ==
            a.(store := a.store.(threads := a.store.threads[Tid(c, 1) := th]),
               calls := a.calls[c := Call(req, Creating)])
  {
    hide KeyFor, MinRecordSize;
  }

  lemma LooksUp(cfg: Config, a: App, c: nat, req: Request, now: Time) returns (moves: seq<Move>, z: App)
    requires Allowed(cfg, a, Enter(c, req)) && Denied(cfg, req) == None && !req.RestoreReq?
    requires a.store.clock <= now && NoneLive(cfg.limits, a.store.core, KeyFor(req), now)
    ensures Leads(cfg, Next(cfg, a, Enter(c, req)), moves, z) && AboutToCreate(a, z, c, req) && z.store.clock == now
    ensures var core, key := a.store.core, KeyFor(req);
            z.store.core == if key in core.entries then Evict(core, key) else core
  {
    hide Leads, KeyFor, Denied, Next, MinRecordSize, NoneLive;
    Enters(cfg, a, c, req);
    var b := Next(cfg, a, Enter(c, req));
    LeadsNowhere(cfg, b);
    FindsNothing(cfg, b, c, KeyFor(req), now);
    var look := Inside(DoGet(Tid(c, 0), now));
    LeadsOn(cfg, b, [], b, look);
    z := Next(cfg, b, look);
    StartsToCreate(cfg, z, c);
    LeadsOn(cfg, b, [] + [look], z, Advance(c));
    z := Next(cfg, z, Advance(c));
    moves := [look, Advance(c)];
    assert moves == [] + [look] + [Advance(c)];
  }

  // ---- The first call publishes ------------------------------------------------------

  /** Call 0 has published rec and not finished; no other call has entered. */
  ghost predicate Published0(a: App, req: Request, rec: Record) {
    && a.calls == map[0 := Call(req, Creating)] && a.store.clock == 0
    && a.store.threads.Keys == {Tid(0, 0), Tid(0, 1)}
    && a.store.threads[Tid(0, 1)].op.CreateOp? && a.store.threads[Tid(0, 1)].op.key == KeyFor(req)
    && a.store.threads[Tid(0, 1)].pc == Finishing(Delivers(rec))
    && a.store.core.entries == map[KeyFor(req) := rec] && !a.store.past.late
    && rec.createdAt == 0 && rec.firstRestoreAt == None && rec.version == 1
  }

  /** The store is empty, and call 0 builds. */
  ghost predicate Builds0(a: App, req: Request) {
    var key := KeyFor(req);
    && a.calls == map[0 := Call(req, Creating)] && a.store.clock == 0
    && a.store.threads.Keys == {Tid(0, 0), Tid(0, 1)}
    && a.store.threads[Tid(0, 1)] == Thread(CreateOp(key, MinRecordSize(key, |req.text|)), Building, NOTHING)
    && a.store.core.entries == map[] && a.store.core.bytes == 0 && a.store.core.nextVer == 0
    && a.store.core.reservedBytes == MinRecordSize(key, |req.text|) + INFLIGHT_OVERHEAD && !a.store.past.late
  }

  lemma StartIsReached(cfg: Config)
    ensures Reached(cfg, Start(0))
  {
    assert CanRun(cfg, Start(0), []) && After(cfg, Start(0), []) == Start(0);
  }

  lemma StepInside(cfg: Config, a: App, step: Step)
    requires Internal(step) && Enabled(cfg.limits, a.store, step)
    ensures Allowed(cfg, a, Inside(step)) && Next(cfg, a, Inside(step)).calls == a.calls
    ensures Next(cfg, a, Inside(step)).store == Apply(cfg.limits, a.store, step)
  {
    hide Enabled, Apply;
  }

  lemma FirstBuilds(cfg: Config, req: Request, content: Content) returns (a: App)
    requires Denied(cfg, req) == None && !req.RestoreReq? && content.original == req.text
    requires LetsIn(cfg.limits, KeyFor(req), content)
    ensures Reached(cfg, a) && Builds0(a, req)
  {
    hide Reached, Leads, KeyFor, Denied, RecordSize, MinRecordSize, Allowed, Next, Enabled, Apply, Moved;
    StartIsReached(cfg);
    FirstMayEnter(cfg, req);
    ReachedOneMore(cfg, Start(0), Enter(0, req));
    var moves, z := LooksUp(cfg, Start(0), 0, req, 0);
    ReachedMore(cfg, Next(cfg, Start(0), Enter(0, req)), moves, z);
    a := z;
    IsGranted(cfg.limits, a.store, Tid(0, 1));
    BuildsNow(a.store.threads, Tid(0, 1));
    MovedKeys(a.store.threads, Tid(0, 1), Building, NOTHING);
    StepInside(cfg, a, DoBegin(Tid(0, 1), 0, {}));
    ReachedOneMore(cfg, a, Inside(DoBegin(Tid(0, 1), 0, {})));
    a := Next(cfg, a, Inside(DoBegin(Tid(0, 1), 0, {})));
  }

  lemma FirstMayEnter(cfg: Config, req: Request)
    ensures Allowed(cfg, Start(0), Enter(0, req))
  {
  }

  /** The build of call 0 is published, with whatever content the results lead to. */
  lemma FirstPublishes(cfg: Config, a: App, req: Request, results: seq<Finding>, content: Content)
    returns (a': App, rec: Record)
    requires Reached(cfg, a) && Builds0(a, req) && Denied(cfg, req) == None && FitsInMemory(req.text, results)
    requires Built(cfg.prefix, PolicyFor(cfg, req), req.text, results) == Some(content)
    requires content.original == req.text && LetsIn(cfg.limits, KeyFor(req), content)
    ensures Reached(cfg, a') && Published0(a', req, rec) && rec.content == content
  {
    hide Reached, KeyFor, Denied, RecordSize, MinRecordSize, Built, FitsInMemory, Drains, StoreCore.Publish;
    var t := Tid(0, 1);
    NoBatch(cfg.limits, a.store.core, 0);
    EmptyStorePublishes(cfg.limits, a.store.core, KeyFor(req), t, content);
    var move := Build(t, results, 0, 0, {});
    ReachedOneMore(cfg, a, move);
    a' := Next(cfg, a, move);
    rec := a'.store.core.entries[KeyFor(req)];
  }

  // ---- The record expires before the call is finished --------------------------------

  /** Cleanup has removed rec, which call 0 has published without finishing since. */
  ghost predicate Orphaned0(l: Limits, a: App, req: Request, rec: Record) {
    && a.calls == map[0 := Call(req, Creating)] && a.store.clock == l.ttl
    && a.store.threads.Keys == {Tid(0, 0), Tid(0, 1), Tid(2, 0)}
    && a.store.threads[Tid(0, 1)].op.CreateOp? && a.store.threads[Tid(0, 1)].op.key == KeyFor(req)
    && a.store.threads[Tid(0, 1)].pc == Finishing(Delivers(rec))
    && a.store.core.entries == map[] && !a.store.past.late && Expired(l, rec, a.store.clock)
  }

  lemma OneRecordDrains(l: Limits, c: Core<Tid>, key: Key, now: Time)
    requires c.entries.Keys == {key} && Expired(l, c.entries[key], now)
    ensures Drains(l, c, {key}, now) && Drained(c, {key}).entries == map[]
  {
    hide Total, Deadline;
    var rest := Drained(c, {key}).entries;
    assert rest.Keys == {};
  }

  lemma Cleans(l: Limits, s: Sys, t: Tid, key: Key, now: Time)
    requires At(s, t, Ready) && s.threads[t].op.CleanOp? && s.clock <= now
    requires s.core.entries.Keys == {key} && Expired(l, s.core.entries[key], now)
    ensures Enabled(l, s, DoClean(t, now, {key}))
    ensures var s' := Apply(l, s, DoClean(t, now, {key}));
            && s'.core.entries == map[] && s'.clock == now && s'.past == s.past && s'.threads.Keys == s.threads.Keys
            && forall u :: u in s.threads && u != t ==> s'.threads[u] == s.threads[u]
  {
    hide Drains, Drained, DrainEvents, Expired;
    OneRecordDrains(l, s.core, key, now);
  }

  lemma RecordExpires(cfg: Config, a: App, req: Request, rec: Record) returns (z: App)
    requires Reached(cfg, a) && Published0(a, req, rec) && cfg.limits.ttl > 0
    ensures Reached(cfg, z) && Orphaned0(cfg.limits, z, req, rec)
  {
    hide Reached, KeyFor, Enabled, Apply;
    var t, now := Tid(2, 0), cfg.limits.ttl;
    ReachedOneMore(cfg, a, Clean(t));
    z := Next(cfg, a, Clean(t));
    CleanStarts(cfg, a, t);
    Cleans(cfg.limits, z.store, t, KeyFor(req), now);
    StepInside(cfg, z, DoClean(t, now, {KeyFor(req)}));
    ReachedOneMore(cfg, z, Inside(DoClean(t, now, {KeyFor(req)})));
    z := Next(cfg, z, Inside(DoClean(t, now, {KeyFor(req)})));
  }

  lemma CleanStarts(cfg: Config, a: App, t: Tid)
    requires Allowed(cfg, a, Clean(t))
    ensures Next(cfg, a, Clean(t)) ==
            a.(store := a.store.(threads := a.store.threads[t := Thread(CleanOp, Ready, NOTHING)]))
  {
  }

  // ---- The second call ----------------------------------------------------------------

  /** Call 1 waits for the creating operation of call 0. */
  ghost predicate Waits1(a: App, req: Request, rec: Record) {
    && a.calls == map[0 := Call(req, Creating), 1 := Call(req, Creating)]
    && Tid(0, 1) in a.store.threads && a.store.threads[Tid(0, 1)].op.CreateOp?
    && a.store.threads[Tid(0, 1)].pc == Finishing(Delivers(rec))
    && At(a.store, Tid(1, 1), Waiting(Tid(0, 1))) && Tid(1, 2) !in a.store.threads
    && a.store.core.entries == map[] && !a.store.past.late
  }

  /** A creator that has published and not finished is still linked. */
  lemma IsLinked(cfg: Config, a: App, r: Tid, key: Key)
    requires Reached(cfg, a) && r in a.store.threads && HoldsLink(a.store.threads[r])
    requires a.store.threads[r].op.key == key
    ensures key in a.store.core.inflight && a.store.core.inflight[key] == r
  {
    hide Reached, Inv, HoldersMatch, KeysFree, CellsMatch, History, RestorersUnique, StoreObserver.Conserved, Reachable;
    ReachedIsReachable(cfg, a);
    ReachableInv(cfg.limits, a.store);
  }

  /** Under a linked key without a record, `Create` waits. */
  lemma BeginsToWait(l: Limits, s: Sys, t: Tid, r: Tid, now: Time)
    requires At(s, t, Ready) && s.threads[t].op.CreateOp? && s.clock <= now && s.core.entries == map[]
    requires s.threads[t].op.key in s.core.inflight && s.core.inflight[s.threads[t].op.key] == r
    ensures Enabled(l, s, DoBegin(t, now, {}))
    ensures var s' := Apply(l, s, DoBegin(t, now, {}));
            && At(s', t, Waiting(r)) && s'.core == s.core && s'.clock == now && s'.past == s.past
            && s'.threads == s.threads[t := s'.threads[t]]
  {
    hide Drains, Drained, DrainEvents, ReserveRefusal;
    NoBatch(l, s.core, now);
  }

  lemma SecondWaits(cfg: Config, a: App, req: Request, rec: Record) returns (moves: seq<Move>, z: App)
    requires Reached(cfg, a) && Orphaned0(cfg.limits, a, req, rec) && Denied(cfg, req) == None && !req.RestoreReq?
    ensures Allowed(cfg, a, Enter(1, req)) && Leads(cfg, Next(cfg, a, Enter(1, req)), moves, z)
    ensures Waits1(z, req, rec) && z.store.clock == cfg.limits.ttl
  {
    hide Reached, Leads, KeyFor, Denied, MinRecordSize, Next, Enabled, Apply, Expired;
    var b, now := Next(cfg, a, Enter(1, req)), cfg.limits.ttl;
    ReachedOneMore(cfg, a, Enter(1, req));
    moves, z := LooksUp(cfg, a, 1, req, now);
    ReachedMore(cfg, b, moves, z);
    IsLinked(cfg, z, Tid(0, 1), KeyFor(req));
    var wait := DoBegin(Tid(1, 1), now, {});
    BeginsToWait(cfg.limits, z.store, Tid(1, 1), Tid(0, 1), now);
    StepInside(cfg, z, wait);
    LeadsOn(cfg, b, moves, z, Inside(wait));
    moves, z := moves + [Inside(wait)], Next(cfg, z, Inside(wait));
  }

  lemma FinishesThenWakes(l: Limits, s: Sys, r: Tid, t: Tid, rec: Record)
    requires r in s.threads && s.threads[r].op.CreateOp? && s.threads[r].pc == Finishing(Delivers(rec))
    requires At(s, t, Waiting(r))
    ensures Enabled(l, s, DoFinish(r)) && Enabled(l, Apply(l, s, DoFinish(r)), Wake(t))
    ensures var s' := Apply(l, Apply(l, s, DoFinish(r)), Wake(t));
            && At(s', t, Done(Existed(rec), Some(r))) && s'.core.entries == s.core.entries && s'.clock == s.clock
            && s'.past == s.past && s'.threads.Keys == s.threads.Keys
  {
  }

  lemma RepeatsMask(cfg: Config, a: App, c: nat, req: Request, rec: Record)
    requires c in a.calls && a.calls[c] == Call(req, Creating) && !req.RestoreReq? && rec.content.original == req.text
    requires Tid(c, 1) in a.store.threads && a.store.threads[Tid(c, 1)].pc.Done?
    requires a.store.threads[Tid(c, 1)].pc.answer == Existed(rec) && Tid(c, 2) !in a.store.threads
    ensures Allowed(cfg, a, Advance(c))
    ensures Next(cfg, a, Advance(c)) ==
            a.(calls := a.calls[c := Call(req, Replied(Text(rec.content.masked, Repeat), Some(rec)))])
  {
    hide KeyFor;
  }

  /** The second call, entering after the deadline, is answered with the mask. */
  lemma SecondIsAnswered(cfg: Config, a: App, b: App, moves: seq<Move>, req: Request, rec: Record)
    returns (more: seq<Move>, z: App)
    requires Leads(cfg, b, moves, a) && Waits1(a, req, rec)
    requires !req.RestoreReq? && rec.content.original == req.text
    ensures Leads(cfg, b, more, z) && z.store.clock == a.store.clock && z.store.core.entries == map[]
    ensures 1 in z.calls && z.calls[1] == Call(req, Replied(Text(rec.content.masked, Repeat), Some(rec)))
    ensures !z.store.past.late
  {
    hide Leads, KeyFor, Next, Enabled, Apply;
    var r, t := Tid(0, 1), Tid(1, 1);
    FinishesThenWakes(cfg.limits, a.store, r, t, rec);
    StepInside(cfg, a, DoFinish(r));
    LeadsOn(cfg, b, moves, a, Inside(DoFinish(r)));
    z := Next(cfg, a, Inside(DoFinish(r)));
    StepInside(cfg, z, Wake(t));
    LeadsOn(cfg, b, moves + [Inside(DoFinish(r))], z, Inside(Wake(t)));
    z := Next(cfg, z, Inside(Wake(t)));
    RepeatsMask(cfg, z, 1, req, rec);
    more := moves + [Inside(DoFinish(r))] + [Inside(Wake(t))] + [Advance(1)];
    LeadsOn(cfg, b, moves + [Inside(DoFinish(r))] + [Inside(Wake(t))], z, Advance(1));
    z := Next(cfg, z, Advance(1));
  }

  /** For every text that can be masked, and limits with a lifetime that let its record
      in: two equal calls, and a run in which the record of the first call expires and is
      evicted before the second call even enters, which is then answered with its mask.
      Nothing is stored any more, so nobody can restore that mask; and no transition hit
      an expired record. */
  lemma StaleMaskIsAnswered(cfg: Config, req: Request, results: seq<Finding>, content: Content)
    returns (a: App, moves: seq<Move>, z: App, rec: Record)
    requires Denied(cfg, req) == None && !req.RestoreReq? && FitsInMemory(req.text, results)
    requires Built(cfg.prefix, PolicyFor(cfg, req), req.text, results) == Some(content)
    requires cfg.limits.ttl > 0 && LetsIn(cfg.limits, KeyFor(req), content)
    ensures Reached(cfg, a) && Allowed(cfg, a, Enter(1, req)) && Leads(cfg, Next(cfg, a, Enter(1, req)), moves, z)
    ensures Expired(cfg.limits, rec, a.store.clock) && a.store.core.entries == map[]
    ensures 1 in z.calls && z.calls[1] == Call(req, Replied(Text(content.masked, Repeat), Some(rec)))
    ensures z.store.core.entries == map[] && !z.store.past.late && z.store.clock == a.store.clock
  {
    hide Reached, Leads, KeyFor, Denied, LetsIn, Built, FitsInMemory, Allowed, Next, Expired;
    BuiltKeepsText(cfg, req, results);
    var a0 := FirstBuilds(cfg, req, content);
    var a1, r := FirstPublishes(cfg, a0, req, results, content);
    rec := r;
    a := RecordExpires(cfg, a1, req, rec);
    moves, z := SecondWaits(cfg, a, req, rec);
    moves, z := SecondIsAnswered(cfg, z, Next(cfg, a, Enter(1, req)), moves, req, rec);
  }

  lemma BuiltKeepsText(cfg: Config, req: Request, results: seq<Finding>)
    requires Denied(cfg, req) == None
    ensures var c := Built(cfg.prefix, PolicyFor(cfg, req), req.text, results);
            c.Some? ==> c.value.original == req.text
  {
    hide Gathered, Masking.Assemble, TableFor, Reduced;
  }
}

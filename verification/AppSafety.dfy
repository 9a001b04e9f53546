/** What `Process`, `Mask` and `Restore` guarantee over every interleaved run. */
module AppSafety {
  import opened Bytes
  import opened Expiry
  import opened Markers
  import opened StoreCore
  import opened StoreSteps
  import opened StoreProtocol
  import opened StoreHistory
  import opened StoreSafety
  import opened Pipeline
  import opened PipelineFacts
  import opened AppSteps
  import opened AppProtocol
  import opened AppEffects

  // ---- Every run --------------------------------------------------------------

  lemma StartHolds(cfg: Config, at: Time)
    ensures AppInv(cfg, Start(at)) && Effects(cfg, Start(at))
  {
    hide SysInv;
    InitHolds(cfg.limits, at);
  }

  lemma MoveKeeps(cfg: Config, a: App, move: Move)
    requires AppInv(cfg, a) && Effects(cfg, a) && Allowed(cfg, a, move)
    ensures AppInv(cfg, Next(cfg, a, move)) && Effects(cfg, Next(cfg, a, move))
  {
    hide AppInv, Effects, Allowed, Next;
    EffectsKeep(cfg, a, move);
    match move
    case Enter(c, req) => EnterKeeps(cfg, a, c, req);
    case Inside(step) => InsideKeeps(cfg, a, step);
    case Build(t, results, drainedAt, at, gone) => BuildKeeps(cfg, a, t, results, drainedAt, at, gone);
    case Clean(t) => CleanKeeps(cfg, a, t);
    case Advance(c) => AdvanceKeeps(cfg, a, c);
  }

  lemma {:induction false} RunKeeps(cfg: Config, a: App, moves: seq<Move>)
    requires AppInv(cfg, a) && Effects(cfg, a) && CanRun(cfg, a, moves)
    ensures AppInv(cfg, After(cfg, a, moves)) && Effects(cfg, After(cfg, a, moves))
    decreases |moves|
  {
    hide AppInv, Effects, Allowed, Next;
    if moves != [] {
      MoveKeeps(cfg, a, moves[0]);
      RunKeeps(cfg, Next(cfg, a, moves[0]), moves[1..]);
    }
  }

  lemma ReachableHolds(cfg: Config, a: App)
    requires Reached(cfg, a)
    ensures AppInv(cfg, a) && Effects(cfg, a)
  {
    hide AppInv, Effects, CanRun, After;
    var at, moves :| CanRun(cfg, Start(at), moves) && After(cfg, Start(at), moves) == a;
    StartHolds(cfg, at);
    RunKeeps(cfg, Start(at), moves);
  }

  // ---- Answers ----------------------------------------------------------------

  /** The successful answers to req that a content allows. */
  ghost predicate RightAnswer(req: Request, text: Bytes, kind: Kind, c: Content) {
    match req
    case ProcessReq(_, payload) =>
      if kind.Restoration? then payload == c.masked && text == c.original
      else payload == c.original && text == c.masked
    case MaskReq(_, _, payload) =>
      && text == c.masked && !kind.Restoration?
      && (payload == c.original || (kind.Repeat? && payload == c.masked))
    case RestoreReq(_, _, masked) =>
      && kind.Restoration?
      && if c.format.StarsFormat? then masked == c.masked && text == c.original
         else Sliceable(c.original, c.table) && text == RestoredText(c, masked)
  }

  /** rec is the record of version v, published under this key, which some admitted
      call with the key built from its own text. */
  ghost predicate Genuine(cfg: Config, a: App, rec: Record, key: Key) {
    && rec.version in a.store.past.born && a.store.past.born[rec.version].key == key
    && a.store.past.born[rec.version].rec.content == rec.content
    && rec.version in a.made && a.made[rec.version].call in a.calls
    && (var m := a.made[rec.version]; var req := a.calls[m.call].req;
        && Denied(cfg, req) == None && KeyFor(req) == key && FitsInMemory(req.text, m.results)
        && Built(cfg.prefix, PolicyFor(cfg, req), req.text, m.results) == Some(rec.content))
  }

  lemma KnownIsGenuine(cfg: Config, a: App, rec: Record, key: Key)
    requires AppInv(cfg, a) && Known(rec, key, a.store.past)
    ensures Genuine(cfg, a, rec, key)
  {
    hide SysInv, AllServe, AllRun, AllJustified, Admitted, AllOwnWork, AllMarked, FitsInMemory, Built, Denied, KeyFor;
    assert MadeBy(cfg, a.calls, a.made[rec.version], a.store.past.born[rec.version]);
  }

  /** Every successful answer is justified by one version of the call's own key, which
      the call has made itself if it reports a new mask. */
  lemma EveryAnswerIsJustified(cfg: Config, a: App, c: nat)
    requires Reached(cfg, a) && c in a.calls && a.calls[c].phase.Replied? && a.calls[c].phase.final.Text?
    ensures var call := a.calls[c];
            && call.phase.cause.Some?
            && Genuine(cfg, a, call.phase.cause.value, KeyFor(call.req))
            && RightAnswer(call.req, call.phase.final.text, call.phase.final.kind, call.phase.cause.value.content)
            && (call.phase.final.kind.NewMask? ==> a.made[call.phase.cause.value.version].call == c)
  {
    hide AllCreations, AllHeld, AllEffective, AllRefused, Reached, SysInv, AllServe, AllRun, Admitted, AllMade,
      AllOwnWork, AllMarked, KeyFor, Known, Genuine, RestoredText, Sliceable;
    ReachableHolds(cfg, a);
    assert Justified(a.calls[c], a.store.past) && OwnMask(a.calls[c], c, a.made);
    KnownIsGenuine(cfg, a, a.calls[c].phase.cause.value, KeyFor(a.calls[c].req));
  }

  /** What a genuine record of the marker format restores to. */
  lemma GenuineRestores(cfg: Config, a: App, rec: Record, key: Key)
    requires Genuine(cfg, a, rec, key) && SafePrefix(cfg.prefix) && rec.content.format.MarkerFormat?
    ensures Sliceable(rec.content.original, rec.content.table)
    ensures RestoredText(rec.content, rec.content.masked) == rec.content.original
    ensures forall input :: RestoredText(rec.content, input) != input <==>
                            exists s :: s in rec.content.table && Occurs(input, s.marker)
  {
    hide KeyFor, Denied, Built, FitsInMemory, Sliceable, RestoredText, SafePrefix, Gathered, Occurs;
    var m := a.made[rec.version];
    var req := a.calls[m.call].req;
    var policy := PolicyFor(cfg, req);
    var ranges := BuiltFrom(cfg.prefix, policy, req.text, m.results);
    BuiltMaskRestores(cfg.prefix, policy, req.text, m.results);
    forall input
      ensures RestoredText(rec.content, input) != input <==>
              exists s :: s in rec.content.table && Occurs(input, s.marker)
    {
      BuiltRestorationIsDetected(cfg.prefix, policy, req.text, m.results, input);
    }
  }

  lemma GenuineIsSliceable(cfg: Config, a: App, rec: Record, key: Key)
    requires Genuine(cfg, a, rec, key)
    ensures Sliceable(rec.content.original, rec.content.table)
  {
    hide KeyFor, Denied, Built, FitsInMemory, Sliceable;
    var m := a.made[rec.version];
    var req := a.calls[m.call].req;
    BuiltIsSliceable(cfg.prefix, PolicyFor(cfg, req), req.text, m.results);
  }

  /** No call panics on a slice out of range, and no call answers Conflict but for a
      text that is not the mask of a version of its key, nor, in a masking call, its
      original; a call that is refused never marks a record. */
  lemma RefusalsAreHonest(cfg: Config, a: App, c: nat)
    requires Reached(cfg, a)
    requires c in a.calls && a.calls[c].phase.Replied? && a.calls[c].phase.final.Rejected?
    ensures a.calls[c].phase.final.refusal != Panics
    ensures a.calls[c].phase.final.refusal == Conflict ==>
              && a.calls[c].phase.cause.Some?
              && (var rec := a.calls[c].phase.cause.value;
                  && Genuine(cfg, a, rec, KeyFor(a.calls[c].req))
                  && a.calls[c].req.text != rec.content.masked
                  && (!a.calls[c].req.RestoreReq? ==> a.calls[c].req.text != rec.content.original))
    ensures forall t :: t in a.store.threads && t.call == c ==> !a.store.threads[t].op.MarkOp?
  {
    hide Reached, SysInv, AllMade, Admitted, AllOwnWork, AllMarked, KeyFor, Known, Genuine, RestoredText, Sliceable;
    ReachableHolds(cfg, a);
    var call := a.calls[c];
    assert Justified(call, a.store.past) && StageRuns(call, c, a.store.threads.Keys);
    forall t | t in a.store.threads && t.call == c ensures !a.store.threads[t].op.MarkOp? {
      assert Serves(a.calls, t, a.store.threads[t].op);
      assert t == Tid(t.call, t.stage);
    }
    if call.phase.cause.Some? {
      var rec := call.phase.cause.value;
      KnownIsGenuine(cfg, a, rec, KeyFor(call.req));
      GenuineIsSliceable(cfg, a, rec, KeyFor(call.req));
    }
  }

  // ---- Giving a mask back -------------------------------------------------------

  /** Call d has found rec, or acts on it, or has been answered from it. */
  ghost predicate RestsOn(a: App, d: nat, rec: Record) {
    && d in a.calls
    && match a.calls[d].phase
       case Getting => Tid(d, 0) in a.store.threads && a.store.threads[Tid(d, 0)].pc == Done(Looked(Some(rec)), None)
       case Creating => false
       case Marking(r, _) => r == rec
       case Replied(_, cause) => cause == Some(rec)
  }

  /** Threads that are done stay so, and other calls do not interfere. */
  lemma StillRestsOn(a: App, a': App, d: nat, rec: Record)
    requires RestsOn(a, d, rec) && d in a'.calls && a'.calls[d] == a.calls[d]
    requires Tid(d, 0) in a.store.threads ==>
               Tid(d, 0) in a'.store.threads && KeptOn(a.store.threads[Tid(d, 0)], a'.store.threads[Tid(d, 0)])
    ensures RestsOn(a', d, rec) && d in a.calls && a'.calls[d].req == a.calls[d].req
  {
  }

  lemma AdvanceRestsOn(cfg: Config, a: App, d: nat, rec: Record)
    requires AppInv(cfg, a) && RestsOn(a, d, rec) && Allowed(cfg, a, Advance(d))
    ensures RestsOn(Next(cfg, a, Advance(d)), d, rec)
  {
    hide AppInv, Decide, KeyFor;
    CallFacts(cfg, a, d);
  }

  lemma StoreRestsOn(cfg: Config, a: App, a': App, step: Step, d: nat, rec: Record)
    requires AppInv(cfg, a) && RestsOn(a, d, rec) && Enabled(cfg.limits, a.store, step) && !step.Spawn?
    requires a'.calls == a.calls && a'.store == Apply(cfg.limits, a.store, step)
    ensures RestsOn(a', d, rec)
  {
    hide AppInv, SysInv, Apply, Enabled, KeptOn, Grows;
    InvParts(cfg, a);
    StoreMoves(cfg.limits, a.store, step);
    StillRestsOn(a, a', d, rec);
  }

  lemma MoveRestsOn(cfg: Config, a: App, move: Move, d: nat, rec: Record)
    requires AppInv(cfg, a) && RestsOn(a, d, rec) && Allowed(cfg, a, move)
    ensures RestsOn(Next(cfg, a, move), d, rec)
    ensures Next(cfg, a, move).calls[d].req == a.calls[d].req
  {
    hide AppInv, Enabled, Apply, Denied, Built, PipelineFacts.FitsInMemory, KeyFor, Decide;
    match move
    case Inside(step) => StoreRestsOn(cfg, a, Next(cfg, a, move), step, d, rec);
    case Build(t, results, drainedAt, at, gone) =>
      if BuildResult(cfg, a, t, results).Some? {
        var content := BuildResult(cfg, a, t, results).value;
        StoreRestsOn(cfg, a, Next(cfg, a, move), DoPublish(t, content, drainedAt, at, gone), d, rec);
      } else {
        CanFail(cfg, a, t);
        StoreRestsOn(cfg, a, Next(cfg, a, move), FailBuild(t, ERR_RECOGNITION), d, rec);
      }
    case Enter(c, req) => StartRestsOn(cfg, a, move, d, rec);
    case Clean(t) => StartRestsOn(cfg, a, move, d, rec);
    case Advance(c) =>
      if c == d {
        AdvanceRestsOn(cfg, a, d, rec);
      } else {
        StartRestsOn(cfg, a, move, d, rec);
      }
  }

  /** A move that only starts operations of others. */
  lemma StartRestsOn(cfg: Config, a: App, move: Move, d: nat, rec: Record)
    requires RestsOn(a, d, rec) && Allowed(cfg, a, move)
    requires move.Enter? || move.Clean? || (move.Advance? && move.call != d)
    ensures RestsOn(Next(cfg, a, move), d, rec)
    ensures Next(cfg, a, move).calls[d].req == a.calls[d].req
  {
    if move.Advance? {
      hide Allowed, Next, RestsOn;
      OthersStand(cfg, a, move.call);
      StillRestsOn(a, Next(cfg, a, move), d, rec);
    } else {
      hide Denied, KeyFor;
    }
  }

  ghost predicate OthersAlike(a: App, a': App, c: nat) {
    && (forall d :: d in a.calls && d != c ==> d in a'.calls && a'.calls[d] == a.calls[d])
    && (forall t :: t in a.store.threads ==> t in a'.store.threads && a'.store.threads[t] == a.store.threads[t])
    && (forall d :: d in a'.calls ==> d in a.calls && a'.calls[d].req == a.calls[d].req)
    && a'.store.clock == a.store.clock
  }

  /** A call that goes on leaves other calls and all threads there are alone, keeps its
      request, and takes no time. */
  lemma OthersStand(cfg: Config, a: App, c: nat)
    requires Allowed(cfg, a, Advance(c))
    ensures OthersAlike(a, Next(cfg, a, Advance(c)), c)
  {
    hide Settle, KeyFor, Started, Answered, OthersAlike, MinRecordSize, RefusalFor;
    SameAlike(a, c);
    if Tid(c, 1) !in a.store.threads {
      var key := KeyFor(a.calls[c].req);
      StartStands(cfg, a, c, Tid(c, 1), CreateOp(key, MinRecordSize(key, |a.calls[c].req.text|)), Creating);
    }
    if Tid(c, 2) !in a.store.threads {
      forall rec {
        SettleStands(cfg, a, c, rec);
      }
    }
    forall reply, cause {
      AnswerStands(a, c, reply, cause);
    }
  }

  lemma SameAlike(a: App, c: nat)
    ensures OthersAlike(a, a, c)
  {
  }

  lemma AnswerStands(a: App, c: nat, reply: Reply, cause: Option<Record>)
    requires c in a.calls
    ensures OthersAlike(a, Answered(a, c, reply, cause), c)
  {
  }

  lemma StartStands(cfg: Config, a: App, c: nat, t: Tid, op: Op, phase: Phase)
    requires c in a.calls && t !in a.store.threads
    ensures OthersAlike(a, a.(store := Started(cfg.limits, a.store, t, op),
                              calls := a.calls[c := Call(a.calls[c].req, phase)]), c)
  {
  }

  lemma SettleStands(cfg: Config, a: App, c: nat, rec: Record)
    requires c in a.calls && Tid(c, 2) !in a.store.threads
    ensures OthersAlike(a, Settle(cfg, a, c, rec), c)
  {
    hide Decide, KeyFor;
  }

  lemma {:induction false} RunRestsOn(cfg: Config, a: App, moves: seq<Move>, d: nat, rec: Record)
    requires AppInv(cfg, a) && Effects(cfg, a) && RestsOn(a, d, rec) && CanRun(cfg, a, moves)
    ensures RestsOn(After(cfg, a, moves), d, rec) && After(cfg, a, moves).calls[d].req == a.calls[d].req
    decreases |moves|
  {
    hide AppInv, Effects, RestsOn, Allowed, Next;
    if moves != [] {
      MoveKeeps(cfg, a, moves[0]);
      MoveRestsOn(cfg, a, moves[0], d, rec);
      RunRestsOn(cfg, Next(cfg, a, moves[0]), moves[1..], d, rec);
    }
  }

  /** The request that gives back the mask which req was answered with. */
  ghost predicate GivesBack(req: Request, mask: Bytes, back: Request) {
    match req
    case ProcessReq(id, _) => back == ProcessReq(id, mask)
    case MaskReq(consumer, id, _) => back == RestoreReq(consumer, id, mask)
    case RestoreReq(_, _, _) => false
  }

  /** Answered from a record whose mask it presents, a call gets the original. */
  lemma MaskIsRestored(cfg: Config, a: App, d: nat, rec: Record)
    requires AppInv(cfg, a) && SafePrefix(cfg.prefix) && RestsOn(a, d, rec) && a.calls[d].phase.Replied?
    requires !a.calls[d].req.MaskReq? && a.calls[d].req.text == rec.content.masked
    ensures a.calls[d].phase.final.Text? && a.calls[d].phase.final.text == rec.content.original
  {
    hide SysInv, AllServe, AllRun, Admitted, AllMade, AllOwnWork, AllMarked, KeyFor, Known, Genuine, RestoredText,
      Sliceable, SafePrefix, Occurs;
    assert Justified(a.calls[d], a.store.past);
    KnownIsGenuine(cfg, a, rec, KeyFor(a.calls[d].req));
    if rec.content.format.MarkerFormat? {
      GenuineRestores(cfg, a, rec, KeyFor(a.calls[d].req));
    }
  }

  /** The version has not passed the deadline of its present phase. */
  ghost predicate Live(l: Limits, past: Past, v: nat, at: Time) {
    v in past.born && !Expired(l, Current(past, v), at)
  }

  /** What the lookup of a call finds. */
  lemma LookupFinds(cfg: Config, a: App, d: nat, now: Time, v: nat)
    requires AppInv(cfg, a) && d in a.calls && a.calls[d].phase.Getting?
    requires Allowed(cfg, a, Inside(DoGet(Tid(d, 0), now)))
    requires Live(cfg.limits, a.store.past, v, now) && a.store.past.born[v].key == KeyFor(a.calls[d].req)
    ensures RestsOn(Next(cfg, a, Inside(DoGet(Tid(d, 0), now))), d, Current(a.store.past, v))
  {
    hide AppInv, KeyFor, Inv, Protocol, RestorersUnique, StoreObserver.Conserved, BornOk, EntriesOk, PlainOk,
      ThreadsKnow,
      Expired;
    InvParts(cfg, a);
    CallFacts(cfg, a, d);
    ExpiredStays(cfg.limits, Current(a.store.past, v), a.store.clock, now);
  }

  /** Give the mask back in time and get the text. Call c was answered with a mask,
      from some version; call d gives that mask back and looks its key up before the
      version's deadline. However the run goes on, the answer of d is exactly the
      original, and that is the text of c if c created the mask or presented the
      original. */
  lemma MaskThenRestoreIsExact(cfg: Config, a: App, c: nat, d: nat, now: Time, moves: seq<Move>)
    requires Reached(cfg, a) && SafePrefix(cfg.prefix) && c in a.calls && d in a.calls
    requires a.calls[c].phase.Replied? && a.calls[c].phase.final.Text? && !a.calls[c].phase.final.kind.Restoration?
    requires a.calls[c].phase.cause.Some?
    requires GivesBack(a.calls[c].req, a.calls[c].phase.final.text, a.calls[d].req)
    requires a.calls[d].phase.Getting? && Allowed(cfg, a, Inside(DoGet(Tid(d, 0), now)))
    requires Live(cfg.limits, a.store.past, a.calls[c].phase.cause.value.version, now)
    requires CanRun(cfg, Next(cfg, a, Inside(DoGet(Tid(d, 0), now))), moves)
    ensures var z, original := After(cfg, Next(cfg, a, Inside(DoGet(Tid(d, 0), now))), moves),
                               a.calls[c].phase.cause.value.content.original;
            && d in z.calls
            && (z.calls[d].phase.Replied? ==> z.calls[d].phase.final.Text? && z.calls[d].phase.final.text == original)
            && (a.calls[c].req.text != a.calls[c].phase.final.text || a.calls[c].phase.final.kind.NewMask? ==>
                  original == a.calls[c].req.text)
  {
    hide Reached, AppInv, Effects, Allowed, Next, CanRun, After, Genuine, RestoredText, Sliceable, SafePrefix, Live,
      KeyOf;
    ReachableHolds(cfg, a);
    EveryAnswerIsJustified(cfg, a, c);
    var move := Inside(DoGet(Tid(d, 0), now));
    var rec := a.calls[c].phase.cause.value;
    KnownContent(cfg, a, rec, KeyFor(a.calls[c].req));
    var found := Current(a.store.past, rec.version);
    LookupFinds(cfg, a, d, now, rec.version);
    MoveKeeps(cfg, a, move);
    RunKeeps(cfg, Next(cfg, a, move), moves);
    RunRestsOn(cfg, Next(cfg, a, move), moves, d, found);
    LookupKeepsRequest(cfg, a, d, now);
    var z := After(cfg, Next(cfg, a, move), moves);
    if z.calls[d].phase.Replied? {
      MaskIsRestored(cfg, z, d, found);
    }
  }

  lemma LookupKeepsRequest(cfg: Config, a: App, d: nat, now: Time)
    requires d in a.calls && Allowed(cfg, a, Inside(DoGet(Tid(d, 0), now)))
    ensures Next(cfg, a, Inside(DoGet(Tid(d, 0), now))).calls == a.calls
  {
  }

  // ---- Transitions ------------------------------------------------------------

  /** The request presents something of the record's own: the stored mask, or, in
      the marker format, a text that holds one of its markers. */
  ghost predicate Presents(req: Request, c: Content) {
    match req
    case ProcessReq(_, payload) => payload == c.masked != c.original
    case MaskReq(_, _, _) => false
    case RestoreReq(_, _, masked) =>
      if c.format.StarsFormat? then masked == c.masked
      else exists s :: s in c.table && Occurs(masked, s.marker)
  }

  /** A version makes its transition only for a call of its own key that presents
      the mask or a marker; `Mask` and conflicting calls never cause one. */
  lemma OnlyGenuineRestoresTransition(cfg: Config, a: App, v: nat)
    requires Reached(cfg, a) && SafePrefix(cfg.prefix) && v in a.store.past.restoredAt
    ensures v in a.marks && a.marks[v] in a.calls && v in a.store.past.born
    ensures var req, b := a.calls[a.marks[v]].req, a.store.past.born[v];
            Denied(cfg, req) == None && KeyFor(req) == b.key && Presents(req, b.rec.content)
  {
    hide Reached, SysInv, AllMade, AllOwnWork, AllRun, AllServe, KeyFor, Known, Genuine, SafePrefix, Occurs,
      RestoredText, Sliceable;
    ReachableHolds(cfg, a);
    var call := a.calls[a.marks[v]];
    assert Marks(call) && Justified(call, a.store.past);
    var rec := Acted(call.phase).value;
    KnownIsGenuine(cfg, a, rec, KeyFor(call.req));
    KnownContent(cfg, a, rec, KeyFor(call.req));
    if rec.content.format.MarkerFormat? {
      GenuineRestores(cfg, a, rec, KeyFor(call.req));
    }
  }

  /** And every genuine restore does mark: a call answered with a restoration presented
      the mask or a marker of the record it rests on if and only if it has called
      `MarkRestored` for that very version, and the call has returned. Then the version
      is in its replay phase, unless it expired while pending or there is none. */
  lemma GenuineRestoresMark(cfg: Config, a: App, c: nat)
    requires Reached(cfg, a) && SafePrefix(cfg.prefix)
    requires c in a.calls && a.calls[c].phase.Replied? && a.calls[c].phase.final.Text? && a.calls[c].phase.cause.Some?
    requires a.calls[c].phase.final.kind.Restoration?
    ensures var req, rec, t := a.calls[c].req, a.calls[c].phase.cause.value, Tid(c, 2);
            Presents(req, rec.content) <==>
            t in a.store.threads && a.store.threads[t].op == MarkOp(KeyFor(req), rec.version) &&
            a.store.threads[t].pc.Done?
    ensures var req, rec, past := a.calls[c].req, a.calls[c].phase.cause.value, a.store.past;
            Presents(req, rec.content) ==>
              && rec.version in past.born
              && (rec.version in past.restoredAt || Expired(cfg.limits, past.born[rec.version].rec, a.store.clock) ||
                  cfg.limits.replayTtl <= 0)
  {
    hide Reached, SysInv, AllMade, AllOwnWork, AllMarked, Admitted, KeyFor, Known, Genuine, SafePrefix, Occurs,
      RestoredText, Sliceable, AllCreations, AllHeld, AllOwnMasks, AllRefused, Expired;
    ReachableHolds(cfg, a);
    var call := a.calls[c];
    assert Justified(call, a.store.past) && StageRuns(call, c, a.store.threads.Keys);
    assert Tid(c, 2) in a.store.threads ==> Serves(a.calls, Tid(c, 2), a.store.threads[Tid(c, 2)].op);
    var rec := call.phase.cause.value;
    KnownIsGenuine(cfg, a, rec, KeyFor(call.req));
    GenuineIsSliceable(cfg, a, rec, KeyFor(call.req));
    if rec.content.format.MarkerFormat? {
      GenuineRestores(cfg, a, rec, KeyFor(call.req));
    }
  }

  // ---- Versions and denials -------------------------------------------------------

  /** A call that has made a version is still creating it, or has been answered with
      the new mask of that very version; so a call that is refused, finds a conflict,
      repeats or restores has made none. */
  lemma MakersAnswerTheirMask(cfg: Config, a: App, v: nat)
    requires Reached(cfg, a) && v in a.made
    ensures a.made[v].call in a.calls && v in a.store.past.born
    ensures var phase := a.calls[a.made[v].call].phase;
            phase.Creating? ||
            (phase.Replied? && phase.cause.Some? && phase.cause.value.version == v &&
             phase.final == Text(a.store.past.born[v].rec.content.masked, NewMask))
  {
    hide Reached, SysInv, AllServe, AllRun, AllReturned, Admitted, AllOwnWork, AllMarked, AllEffective, AllRefused,
      AllOwnMasks, Built, FitsInMemory, Denied, KeyFor;
    ReachableHolds(cfg, a);
    var c := a.made[v].call;
    var t := Tid(c, 1);
    assert MadeBy(cfg, a.calls, a.made[v], a.store.past.born[v]);
    assert Holds(a.store.threads[t].pc, v) && Creation(a.calls[c], a.store.threads[t]);
    assert Justified(a.calls[c], a.store.past);
  }

  /** A call that its consumer's policy denies is refused for that reason, never runs an
      operation on the store, and makes and marks nothing. */
  lemma DeniedCallsDoNothing(cfg: Config, a: App, c: nat)
    requires Reached(cfg, a) && c in a.calls && Denied(cfg, a.calls[c].req).Some?
    ensures a.calls[c].phase == Replied(Rejected(Denied(cfg, a.calls[c].req).value), None)
    ensures forall t :: t in a.store.threads ==> t.call != c
    ensures forall v :: v in a.made ==> a.made[v].call != c
    ensures forall v :: v in a.marks ==> a.marks[v] != c
  {
    hide Reached, SysInv, AllServe, AllRun, AllReturned, AllJustified, AllOwnWork, AllEffective, AllCreations,
      AllOwnMasks, Denied, Built, FitsInMemory, KeyFor, MadeBy, Marks;
    ReachableHolds(cfg, a);
    assert RefusedIfDenied(cfg, a.calls[c]);
    assert forall t :: t in a.store.threads ==> t in a.store.threads.Keys;
    forall v | v in a.made ensures a.made[v].call != c {
      assert Tid(a.made[v].call, 1) in a.store.threads;
    }
    forall v | v in a.marks ensures a.marks[v] != c {
      MarkersAct(cfg, a, v);
    }
  }

  lemma MarkersAct(cfg: Config, a: App, v: nat)
    requires AppInv(cfg, a) && v in a.marks
    ensures a.marks[v] in a.calls && Acted(a.calls[a.marks[v]].phase).Some?
  {
    hide SysInv, AllServe, AllRun, AllJustified, AllOwnWork, AllMade, Denied, KeyFor, Decide;
    assert Marks(a.calls[a.marks[v]]);
  }

  lemma KnownContent(cfg: Config, a: App, rec: Record, key: Key)
    requires Genuine(cfg, a, rec, key)
    ensures rec.version in a.store.past.born
    ensures var b := a.store.past.born[rec.version]; b.key == key && b.rec.content == rec.content
  {
    hide Denied, Built, FitsInMemory, KeyFor;
  }

  // ---- Policies -------------------------------------------------------------------

  /** The versions of `Process` are masked with markers and the service's own priority,
      those of a consumer as that consumer is configured, for text and format alike. */
  lemma VersionsFollowTheirPolicy(cfg: Config, a: App, v: nat)
    requires Reached(cfg, a) && v in a.made
    ensures a.made[v].call in a.calls && v in a.store.past.born
    ensures var req, results, c := a.calls[a.made[v].call].req, a.made[v].results, a.store.past.born[v].rec.content;
            && (if req.ProcessReq? then
                  c.format == MarkerFormat &&
                  Built(cfg.prefix, Policy(cfg.process, MarkerFormat), req.text, results) == Some(c)
                else
                  && req.consumer in cfg.consumers && c.format == cfg.consumers[req.consumer].policy.format
                  && Built(cfg.prefix, cfg.consumers[req.consumer].policy, req.text, results) == Some(c))
            && forall s :: s in c.table ==>
                 if c.format.StarsFormat? then s.marker == [42, 42, 42, 42] else HasForm(s.marker, cfg.prefix)
  {
    hide Reached, Effects, SysInv, AllServe, AllRun, AllReturned, AllJustified, Admitted, AllOwnWork, AllMarked, Built,
      FitsInMemory, KeyFor, HasForm;
    ReachableHolds(cfg, a);
    assert MadeBy(cfg, a.calls, a.made[v], a.store.past.born[v]);
    var req := a.calls[a.made[v].call].req;
    BuiltFollowsPolicy(cfg.prefix, PolicyFor(cfg, req), req.text, a.made[v].results);
  }
}

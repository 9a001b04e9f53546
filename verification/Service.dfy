/** `app.Service` over the stores, one call at a time. The recognizer results for a
    text are a parameter; a creator of the same key that never finishes appears as
    the wait that runs out. */
module Serving {
  import opened Bytes
  import opened Expiry
  import Masking
  import Totals
  import opened Restoring
  import opened StoreCore
  import opened MemoryStore
  import opened StoreSteps
  import opened StoreProtocol
  import opened StoreHistory
  import opened StoreSafety
  import opened StoreFailures
  import Resolving
  import opened Pipeline
  import opened PipelineFacts
  import opened AppSteps
  import opened AppProtocol
  import opened AppScopes
  import opened AppRefusals

  /** rec has been answered from: it is stored, and in replay exactly if it was
      already or the decision marks it. */
  ghost predicate StoredAs(l: Limits, entries: map<Key, Record>, key: Key, rec: Record, marks: bool) {
    && key in entries
    && entries[key].(firstRestoreAt := rec.firstRestoreAt) == rec
    && (InReplay(entries[key]) <==> InReplay(rec) || (marks && l.replayTtl > 0))
  }

  /** The amounts and links of reservations. */
  ghost predicate SameReserves(c: Core<Inflight>, c': Core<Inflight>) {
    && c'.reservedBytes == c.reservedBytes && c'.reservedEntries == c.reservedEntries
    && c'.inflight == c.inflight && c'.active == c.active
  }

  /** What the first section of `Create` does to the records. */
  lemma BeginTouches(l: Limits, c: Core<Inflight>, key: Key, reserve: int, ref: Inflight, gone: set<Key>, now: Time)
    requires var out := Begin(l, c, key, reserve, ref, gone, now).1; out.Refused? || out.Granted? ==>
             Drains(l, c, gone, now)
    ensures var (c', out, ev) := Begin(l, c, key, reserve, ref, gone, now);
            && Touches(l, c.entries, c'.entries, now, key) && c'.nextVer == c.nextVer
            && (out.Existing? ==> key in c.entries && out.rec == c.entries[key] && c' == c)
            && (out.Retry? ==> key in c.entries && key !in c'.entries)
            && (out.Refused? || out.Granted? || out.Wait? ==> key !in c'.entries)
  {
    hide Totals.Total, Removals, DrainEvents, ReserveRefusal;
    if key !in c.entries && key !in c.inflight {
      DrainLeaves(c, gone);
    }
  }

  /** What it does to the reservations. */
  lemma BeginReserves(l: Limits, c: Core<Inflight>, key: Key, reserve: int, ref: Inflight, gone: set<Key>, now: Time)
    requires ref !in c.active
    ensures var (c', out, ev) := Begin(l, c, key, reserve, ref, gone, now);
            && (!out.Granted? ==> SameReserves(c, c')) && (out.Wait? ==> key in c.inflight)
            && (out.Granted? ==> SameReserves(c, Released(c', key, ref, reserve)) &&
                                 ref in c'.active && c'.active[ref] == reserve)
  {
    hide Totals.Total, Removals, DrainEvents, ReserveRefusal, Expired;
  }

  /** What the second section leaves of the reservations, with `finishInflight`. */
  lemma PublishReserves(l: Limits, c: Core<Inflight>, key: Key, ref: Inflight, reserve: int, content: Content,
                        gone: set<Key>, at: Time)
    ensures var c' := StoreCore.Publish(l, c, key, ref, reserve, content, gone, at).0;
            SameReserves(Released(c, key, ref, reserve), Unlinked(c', key, ref))
  {
    hide Totals.Total, Removals, DrainEvents, RecordSize, PublishRefusal;
  }

  /** What it leaves under the key. */
  lemma PublishLeaves(l: Limits, c: Core<Inflight>, key: Key, ref: Inflight, reserve: int, content: Content,
                      gone: set<Key>, at: Time)
    requires key !in c.entries
    ensures var (c', out, ev) := StoreCore.Publish(l, c, key, ref, reserve, content, gone, at);
            var f := Unlinked(c', key, ref);
            && f.entries == c'.entries
            && (out.Rejects? ==> key !in f.entries && f.nextVer == c.nextVer)
            && (out.Stores? ==> key in f.entries && f.entries[key] == out.rec && out.rec.content == content &&
                                out.rec.firstRestoreAt == None && out.rec.version == f.nextVer == c.nextVer + 1)
  {
    hide Totals.Total, Removals, DrainEvents, RecordSize, PublishRefusal;
  }

  /** A refused creator leaves a store without room. */
  lemma RefusalLeaves(l: Limits, c: Core<Inflight>, key: Key, reserve: int, ref: Inflight, gone: set<Key>, now: Time)
    requires Inv(l, c) && Begin(l, c, key, reserve, ref, gone, now).1.Refused? && Drains(l, c, gone, now)
    ensures var c' := Begin(l, c, key, reserve, ref, gone, now).0;
            LacksRoom(l, c'.entries, c'.reservedEntries, c'.reservedBytes, reserve)
  {
    hide Inv, Drains, Totals.Total, DrainEvents, Expired, LacksRoom;
    RefusedForRoom(l, c, key, reserve, ref, gone, now);
  }

  /** A rejected record is too large for the store that the creator leaves. */
  lemma RejectionLeaves(l: Limits, c: Core<Inflight>, key: Key, reserve: int, ref: Inflight, content: Content,
                        gone: set<Key>, drainedAt: Time, at: Time)
    requires Inv(l, c) && Drains(l, c, gone, drainedAt)
    ensures var (c', out, ev) := StoreCore.Publish(l, c, key, ref, reserve, content, gone, at);
            var f := Unlinked(c', key, ref);
            out.Rejects? ==> IsTooLarge(l, f.entries, f.reservedBytes, RecordSize(key, content))
  {
    hide Inv, Drains, Totals.Total, DrainEvents, Expired, RecordSize, IsTooLarge;
    RejectedForSize(l, c, key, reserve, ref, content, gone, drainedAt, at);
  }

  lemma TouchesNothing(l: Limits, e: map<Key, Record>, t: Time, key: Key)
    ensures Touches(l, e, e, t, key)
  {
  }

  lemma TouchesTwice(l: Limits, e: map<Key, Record>, e': map<Key, Record>, e'': map<Key, Record>,
                     t: Time, t': Time, key: Key)
    requires Touches(l, e, e', t, key) && Touches(l, e', e'', t', key) && t <= t'
    ensures Touches(l, e, e'', t', key)
  {
    hide Deadline;
  }

  lemma SameItself(c: Core<Inflight>)
    ensures SameReserves(c, c)
  {
  }

  lemma GetLeaves(l: Limits, c: Core<Inflight>, key: Key, now: Time)
    ensures var (c', found, ev) := StoreCore.Get(l, c, key, now);
            && Touches(l, c.entries, c'.entries, now, key) && SameReserves(c, c') && c'.nextVer == c.nextVer
            && (found.Some? ==>
                  c' == c && key in c.entries && c.entries[key] == found.value && !Expired(l, found.value, now))
            && (found.None? ==> key !in c'.entries && (key in c.entries ==> Expired(l, c.entries[key], now)))
  {
    hide Deadline;
  }

  lemma MarkLeaves(l: Limits, c: Core<Inflight>, key: Key, now: Time)
    requires key in c.entries
    ensures var rec := c.entries[key]; var c' := StoreCore.MarkRestored(l, c, key, rec.version, now).0;
            && StoredAs(l, c'.entries, key, rec, true)
            && Touches(l, c.entries, c'.entries, now, key) && SameReserves(c, c') && c'.nextVer == c.nextVer
  {
  }

  /** How a call may end: refused before it saw a record, because none was live under
      its key and none is now; or answered from the record now stored under its key, which
      was there before, live when the call began, or is its own. */
  ghost predicate Ends(l: Limits, req: Request, e: map<Key, Record>, was: Time, e': map<Key, Record>, now: Time,
                       own: Option<Content>, reply: Reply, cause: Option<Record>)
  {
    var key := KeyFor(req);
    match cause
    case None => reply.Rejected? && key !in e' && (key in e ==> Expired(l, e[key], now))
    case Some(rec) =>
      && Answers(req, rec.content, reply)
      && StoredAs(l, e', key, rec, reply == Decide(req, rec.content).reply && Decide(req, rec.content).marks)
      && ((key in e && e[key] == rec && !Expired(l, rec, was)) ||
          (own == Some(rec.content) && rec.firstRestoreAt == None))
  }

  /** Why a call of `Create` fails, in the state it leaves: no room for what it asks, a
      record too large, a wait for the creator of the same key that ran out, or a failed
      build. Cancellation is the caller's. */
  ghost predicate FailsFor(l: Limits, c: Core<Inflight>, key: Key, need: int, own: Option<Content>, why: Cause) {
    match why
    case NoRoom => LacksRoom(l, c.entries, c.reservedEntries, c.reservedBytes, need)
    case TooLarge => own.Some? && IsTooLarge(l, c.entries, c.reservedBytes, RecordSize(key, own.value))
    case TimedOut => key in c.inflight
    case Cancelled => true
    case BuildFailed(error) => own == None && error == ERR_RECOGNITION
  }

  /** The error of `Create` for each cause. */
  ghost predicate FailedFor(answer: Answer, why: Option<Cause>) {
    match why
    case None => !answer.Failed?
    case Some(BuildFailed(error)) => answer == Failed(error) && error == ERR_RECOGNITION
    case Some(TimedOut) => answer == Failed(ErrBusy)
    case Some(Cancelled) => answer == Failed(ErrContext)
    case Some(_) => answer == Failed(ErrCapacity)
  }

  /** A call that only restores never needs room, a build or a wait. */
  ghost predicate RefusedForNothing(reply: Reply) {
    reply != Rejected(Capacity) && reply != Rejected(Busy) && forall error :: reply != Rejected(CreateFailed(error))
  }

  /** The refusal of a masking call for each cause, and for no other. */
  ghost predicate RefusedFor(reply: Reply, why: Option<Cause>) {
    && (reply == Rejected(Capacity) <==> why == Some(NoRoom) || why == Some(TooLarge))
    && (reply == Rejected(Busy) <==> why == Some(TimedOut))
    && (forall error :: reply == Rejected(CreateFailed(error)) <==>
          (why == Some(Cancelled) && error == ErrContext) || why == Some(BuildFailed(error)))
    && reply != Rejected(NotFound)
  }

  /** The refusal for the error of a failed `Create`. */
  lemma FailureIsRefused(answer: Answer, why: Option<Cause>)
    requires answer.Failed? && FailedFor(answer, why)
    ensures RefusedFor(Rejected(RefusalFor(answer.error)), why) && why.Some?
    ensures !IsAccessRefusal(RefusalFor(answer.error))
  {
  }

  /** Answers, conflicts and refusals of access have no such cause. */
  lemma NothingIsRefused(reply: Reply)
    requires reply.Rejected? ==> reply.refusal == Conflict || IsAccessRefusal(reply.refusal)
    ensures RefusedFor(reply, None)
  {
  }

  lemma SuccessHasNoCause(answer: Answer, why: Option<Cause>)
    requires FailedFor(answer, why)
    ensures why == None <==> !answer.Failed?
  {
  }

  class Service {
    const cfg: Config
    const processStore: Memory
    const consumerStore: Memory

    constructor (cfg: Config, processStore: Memory, consumerStore: Memory)
      ensures this.cfg == cfg && this.processStore == processStore && this.consumerStore == consumerStore
    {
      this.cfg, this.processStore, this.consumerStore := cfg, processStore, consumerStore;
    }

    /** Whether the caller's context has been cancelled by now. */
    method Cancelled() returns (b: bool)
    {
      b :| b || !b;
    }

    /** The creator's part: build, then publish or give up. */
    method Finish(st: Memory, key: Key, inf: Inflight, reserve: nat, policy: Policy, payload: Bytes,
                  results: seq<Finding>)
      returns (answer: Answer, ghost why: Option<Cause>)
      requires st.Valid() && inf in st.active && st.active[inf] == reserve && inf.outcome == None && key !in st.entries
      modifies st, st.expiries, inf
      ensures st.Valid() && old(st.clock) <= st.clock
      ensures Touches(st.limits, old(st.entries), st.entries, st.clock, key)
      ensures SameReserves(Released(old(st.View()), key, inf, reserve), st.View())
      ensures match answer
              case Created(rec) =>
                && key in st.entries && st.entries[key] == rec && rec.version == st.nextVer == old(st.nextVer) + 1
                && rec.firstRestoreAt == None && Built(cfg.prefix, policy, payload, results) == Some(rec.content)
              case Failed(error) => key !in st.entries && st.nextVer == old(st.nextVer)
              case _ => false
      ensures FailedFor(answer, why) && why != Some(NoRoom) && why != Some(TimedOut)
      ensures why.Some? ==>
                FailsFor(st.limits, st.View(), key, reserve, Built(cfg.prefix, policy, payload, results), why.value)
    {
      hide Built, StoreCore.Publish, Inv, Drains, LacksRoom, IsTooLarge, RecordSize;
      why := None;
      ghost var c := st.View();
      var content := Pipeline.Build(cfg.prefix, policy, payload, results);
      if content.None? {
        st.FailInflight(key, inf, reserve, ERR_RECOGNITION);
        return Failed(ERR_RECOGNITION), Some(BuildFailed(ERR_RECOGNITION));
      }
      var cancelled := Cancelled();
      if cancelled {
        st.FailInflight(key, inf, reserve, ErrContext);
        return Failed(ErrContext), Some(Cause.Cancelled);
      }
      ghost var t := st.clock;
      var out, gone, ev := st.Publish(key, inf, reserve, content.value);
      ghost var drainedAt :| t <= drainedAt <= st.clock && Drains(st.limits, c, gone, drainedAt);
      RejectionLeaves(st.limits, c, key, reserve, inf, content.value, gone, drainedAt, st.clock);
      hide Released, Unlinked, Touches;
      PublishRecords(st.limits, c, key, inf, reserve, content.value, gone, drainedAt, st.clock);
      PublishReserves(st.limits, c, key, inf, reserve, content.value, gone, st.clock);
      PublishLeaves(st.limits, c, key, inf, reserve, content.value, gone, st.clock);
      match out {
        case Rejects(reason) =>
          st.FinishInflight(key, inf, Fails(ErrCapacity));
          answer, why := Failed(ErrCapacity), Some(TooLarge);
        case Stores(rec) =>
          st.FinishInflight(key, inf, Delivers(rec));
          answer := Created(rec);
      }
    }

    /** `store.Create` with `build`: whatever the outcome, the reservation is given
        back exactly once, no other key is touched but by expiry, and a record is
        stored by the call exactly on success. The context may be cancelled at any
        time; a wait for another creator of the key ends by that or by running out. */
    method Create(st: Memory, key: Key, policy: Policy, payload: Bytes, results: seq<Finding>)
      returns (answer: Answer, ghost why: Option<Cause>)
      requires st.Valid()
      modifies st, st.expiries
      ensures st.Valid() && old(st.clock) <= st.clock
      ensures Touches(st.limits, old(st.entries), st.entries, st.clock, key)
      ensures SameReserves(old(st.View()), st.View())
      ensures match answer
              case Existed(rec) =>
                key in old(st.entries) && old(st.entries)[key] == rec && st.entries == old(st.entries)
              case Created(rec) =>
                && key in st.entries && st.entries[key] == rec && rec.version == st.nextVer == old(st.nextVer) + 1
                && rec.firstRestoreAt == None && Built(cfg.prefix, policy, payload, results) == Some(rec.content)
              case Failed(error) =>
                st.nextVer == old(st.nextVer) && (key in st.entries ==> st.entries == old(st.entries))
              case _ => false
      ensures FailedFor(answer, why)
      ensures why.Some? ==>
                FailsFor(st.limits, st.View(), key, MinRecordSize(key, |payload|) + INFLIGHT_OVERHEAD,
                         Built(cfg.prefix, policy, payload, results), why.value)
    {
      hide Built, StoreCore.Publish, Begin, Released, Unlinked, Inv, Touches, Drains, LacksRoom, IsTooLarge, RecordSize;
      why := None;
      var reserve := MinRecordSize(key, |payload|) + INFLIGHT_OVERHEAD;
      TouchesNothing(st.limits, st.entries, st.clock, key);
      while true
        invariant st.Valid() && old(st.clock) <= st.clock && st.nextVer == old(st.nextVer)
        invariant Touches(st.limits, old(st.entries), st.entries, st.clock, key)
        invariant SameReserves(old(st.View()), st.View())
        invariant st.entries == old(st.entries) || key !in st.entries
        decreases if key in st.entries then 1 else 0
      {
        var cancelled := Cancelled();
        if cancelled {
          return Failed(ErrContext), Some(Cause.Cancelled);
        }
        ghost var c, t := st.View(), st.clock;
        var out, inf, gone, ev := st.TryCreate(key, reserve);
        assert inf !in c.active;
        BeginTouches(st.limits, c, key, reserve, inf, gone, st.clock);
        BeginReserves(st.limits, c, key, reserve, inf, gone, st.clock);
        TouchesTwice(st.limits, old(st.entries), c.entries, st.entries, t, st.clock, key);
        match out {
          case Retry =>
          case Existing(rec) => return Existed(rec), None;
          case Wait(other) =>
            cancelled := Cancelled();
            if cancelled {
              return Failed(ErrContext), Some(Cause.Cancelled);
            }
            return Failed(ErrBusy), Some(TimedOut);
          case Refused(reason) =>
            RefusalLeaves(st.limits, c, key, reserve, inf, gone, st.clock);
            return Failed(ErrCapacity), Some(NoRoom);
          case Granted =>
            t := st.clock;
            ghost var e := st.entries;
            answer, why := Finish(st, key, inf, reserve, policy, payload, results);
            TouchesTwice(st.limits, old(st.entries), e, st.entries, t, st.clock, key);
            return;
        }
      }
    }

    /** The record a masking call answers from: the stored one, or one it creates. */
    method GetOrCreate(st: Memory, key: Key, policy: Policy, payload: Bytes, results: seq<Finding>)
      returns (answer: Answer, ghost why: Option<Cause>)
      requires st.Valid()
      modifies st, st.expiries
      ensures st.Valid() && old(st.clock) <= st.clock
      ensures Touches(st.limits, old(st.entries), st.entries, st.clock, key) && SameReserves(old(st.View()), st.View())
      ensures match answer
              case Existed(rec) =>
                && key in old(st.entries) && old(st.entries)[key] == rec && st.entries == old(st.entries)
                && !Expired(st.limits, rec, old(st.clock))
              case Created(rec) =>
                && key in st.entries && st.entries[key] == rec && rec.firstRestoreAt == None
                && Built(cfg.prefix, policy, payload, results) == Some(rec.content)
              case Failed(error) =>
                key !in st.entries && (key in old(st.entries) ==> Expired(st.limits, old(st.entries)[key], st.clock))
              case _ => false
      ensures FailedFor(answer, why)
      ensures why.Some? ==>
                FailsFor(st.limits, st.View(), key, MinRecordSize(key, |payload|) + INFLIGHT_OVERHEAD,
                         Built(cfg.prefix, policy, payload, results), why.value)
    {
      hide Built, StoreCore.Get, Inv, Touches, FailsFor, MinRecordSize, Deadline;
      var found, ev := st.Get(key);
      GetLeaves(st.limits, old(st.View()), key, st.clock);
      if found.Some? {
        return Existed(found.value), None;
      }
      ghost var e, t := st.entries, st.clock;
      answer, why := Create(st, key, policy, payload, results);
      TouchesTwice(st.limits, old(st.entries), e, st.entries, t, st.clock, key);
    }

    /** Everybody may call `Process`. Why a call fails is `why`; a call that does not
        fail answers from the record `cause`. */
    method Process(id: Bytes, payload: Bytes, results: seq<Finding>)
      returns (reply: Reply, ghost cause: Option<Record>, ghost why: Option<Cause>)
      requires processStore.Valid()
      modifies processStore, processStore.expiries
      ensures processStore.Valid() && SameReserves(old(processStore.View()), processStore.View())
      ensures Touches(processStore.limits, old(processStore.entries), processStore.entries, processStore.clock,
                      KeyFor(ProcessReq(id, payload)))
      ensures Ends(processStore.limits, ProcessReq(id, payload), old(processStore.entries), old(processStore.clock),
                   processStore.entries, processStore.clock,
                   Built(cfg.prefix, Policy(cfg.process, MarkerFormat), payload, results), reply, cause)
      ensures RefusedFor(reply, why) && (why.Some? <==> cause == None)
      ensures why.Some? ==>
                var key := KeyFor(ProcessReq(id, payload));
                FailsFor(processStore.limits, processStore.View(), key,
                         MinRecordSize(key, |payload|) + INFLIGHT_OVERHEAD,
                         Built(cfg.prefix, Policy(cfg.process, MarkerFormat), payload, results), why.value)
    {
      hide Built, Inv, Touches, StoreCore.MarkRestored, RestoredText, Sliceable, FailsFor, MinRecordSize;
      hide Deadline, FailedFor, RefusedFor;
      var key := KeyOf(CONSUMER_SCOPE, id);
      BuiltOriginal(cfg.prefix, Policy(cfg.process, MarkerFormat), payload, results);
      var answer;
      answer, why := GetOrCreate(processStore, key, Policy(cfg.process, MarkerFormat), payload, results);
      SuccessHasNoCause(answer, why);
      if answer.Failed? {
        FailureIsRefused(answer, why);
        return Rejected(RefusalFor(answer.error)), None, why;
      }
      var rec := answer.rec;
      cause := Some(rec);
      if answer.Created? {
        reply := Text(rec.content.masked, NewMask);
      } else if payload == rec.content.original {
        reply := Text(rec.content.masked, Repeat);
      } else if payload == rec.content.masked {
        if rec.content.original != rec.content.masked {
          MarkAnswered(processStore, key, rec, processStore.entries);
        }
        reply := Text(rec.content.original, Restoration);
      } else {
        reply := Rejected(Conflict);
      }
      NothingIsRefused(reply);
    }

    /** `consumer` and the access check of the operation. */
    method Admit(req: Request) returns (refusal: Option<Refusal>)
      requires !req.ProcessReq?
      ensures refusal == None <==> Permits(cfg, req)
      ensures refusal == Some(UnknownConsumer) <==> req.consumer !in cfg.consumers
      ensures refusal == Some(Disabled) <==> req.consumer in cfg.consumers && !cfg.consumers[req.consumer].enabled
      ensures refusal == Some(MaskingDisabled) <==>
              req.MaskReq? && req.consumer in cfg.consumers && cfg.consumers[req.consumer].enabled &&
              !cfg.consumers[req.consumer].maskingEnabled
      ensures refusal == Some(RestoreForbidden) <==>
              req.RestoreReq? && req.consumer in cfg.consumers && cfg.consumers[req.consumer].enabled &&
              !cfg.consumers[req.consumer].canRestore
      ensures refusal.Some? ==> IsAccessRefusal(refusal.value)
    {
      if req.consumer !in cfg.consumers {
        return Some(UnknownConsumer);
      }
      var c := cfg.consumers[req.consumer];
      if !c.enabled {
        return Some(Disabled);
      }
      if req.MaskReq? && !c.maskingEnabled {
        return Some(MaskingDisabled);
      }
      if req.RestoreReq? && !c.canRestore {
        return Some(RestoreForbidden);
      }
      return None;
    }

    method Mask(consumer: Bytes, id: Bytes, payload: Bytes, results: seq<Finding>)
      returns (reply: Reply, ghost cause: Option<Record>, ghost why: Option<Cause>)
      requires consumerStore.Valid()
      modifies consumerStore, consumerStore.expiries
      ensures consumerStore.Valid() && SameReserves(old(consumerStore.View()), consumerStore.View())
      ensures Touches(consumerStore.limits, old(consumerStore.entries), consumerStore.entries, consumerStore.clock,
                      KeyFor(MaskReq(consumer, id, payload)))
      ensures reply == Rejected(UnknownConsumer) <==> consumer !in cfg.consumers
      ensures reply == Rejected(Disabled) <==> consumer in cfg.consumers && !cfg.consumers[consumer].enabled
      ensures reply == Rejected(MaskingDisabled) <==>
              consumer in cfg.consumers && cfg.consumers[consumer].enabled && !cfg.consumers[consumer].maskingEnabled
      ensures reply != Rejected(RestoreForbidden) && RefusedFor(reply, why)
      ensures var req := MaskReq(consumer, id, payload);
              var key := KeyFor(req);
              if consumer in cfg.consumers && cfg.consumers[consumer].enabled && cfg.consumers[consumer].maskingEnabled
              then
                var own := Built(cfg.prefix, cfg.consumers[consumer].policy, payload, results);
                && Ends(consumerStore.limits, req, old(consumerStore.entries), old(consumerStore.clock),
                        consumerStore.entries, consumerStore.clock, own, reply, cause)
                && (why.Some? <==> cause == None)
                && (why.Some? ==> FailsFor(consumerStore.limits, consumerStore.View(), key,
                                           MinRecordSize(key, |payload|) + INFLIGHT_OVERHEAD, own, why.value))
              else consumerStore.entries == old(consumerStore.entries) && cause == None && why == None
    {
      hide Built, Inv, SameReserves, FailsFor, MinRecordSize, Deadline, FailedFor, RefusedFor;
      var req := MaskReq(consumer, id, payload);
      cause, why := None, None;
      var refusal := Admit(req);
      if refusal.Some? {
        SameItself(consumerStore.View());
        NothingIsRefused(Rejected(refusal.value));
        return Rejected(refusal.value), None, None;
      }
      var policy := cfg.consumers[consumer].policy;
      BuiltOriginal(cfg.prefix, policy, payload, results);
      hide Touches;
      var answer;
      answer, why := GetOrCreate(consumerStore, KeyOf(consumer, id), policy, payload, results);
      SuccessHasNoCause(answer, why);
      if answer.Failed? {
        FailureIsRefused(answer, why);
        return Rejected(RefusalFor(answer.error)), None, why;
      }
      var rec := answer.rec;
      cause := Some(rec);
      if answer.Created? {
        reply := Text(rec.content.masked, NewMask);
      } else if payload == rec.content.original || payload == rec.content.masked {
        reply := Text(rec.content.masked, Repeat);
      } else {
        reply := Rejected(Conflict);
      }
      NothingIsRefused(reply);
    }

    method Restore(consumer: Bytes, id: Bytes, masked: Bytes)
      returns (reply: Reply, ghost cause: Option<Record>)
      requires consumerStore.Valid()
      modifies consumerStore, consumerStore.expiries
      ensures consumerStore.Valid() && SameReserves(old(consumerStore.View()), consumerStore.View())
      ensures Touches(consumerStore.limits, old(consumerStore.entries), consumerStore.entries, consumerStore.clock,
                      KeyFor(RestoreReq(consumer, id, masked)))
      ensures reply == Rejected(UnknownConsumer) <==> consumer !in cfg.consumers
      ensures reply == Rejected(Disabled) <==> consumer in cfg.consumers && !cfg.consumers[consumer].enabled
      ensures reply == Rejected(RestoreForbidden) <==>
              consumer in cfg.consumers && cfg.consumers[consumer].enabled && !cfg.consumers[consumer].canRestore
      ensures reply != Rejected(MaskingDisabled) && RefusedForNothing(reply)
      ensures var req := RestoreReq(consumer, id, masked);
              if consumer in cfg.consumers && cfg.consumers[consumer].enabled && cfg.consumers[consumer].canRestore then
                && Ends(consumerStore.limits, req, old(consumerStore.entries), old(consumerStore.clock),
                        consumerStore.entries, consumerStore.clock, None, reply, cause)
                && (reply == Rejected(NotFound) <==> cause == None)
              else consumerStore.entries == old(consumerStore.entries) && cause == None
    {
      hide Inv, StoreCore.Get, Substitute, ByMarker, Expired;
      var req := RestoreReq(consumer, id, masked);
      cause := None;
      var refusal := Admit(req);
      if refusal.Some? {
        return Rejected(refusal.value), None;
      }
      hide Touches;
      var key := KeyOf(consumer, id);
      var found, ev := consumerStore.Get(key);
      GetLeaves(consumerStore.limits, old(consumerStore.View()), key, consumerStore.clock);
      if found.None? {
        return Rejected(NotFound), None;
      }
      var rec := found.value;
      ExpiredStays(consumerStore.limits, rec, old(consumerStore.clock), consumerStore.clock);
      cause := Some(rec);
      if rec.content.format.StarsFormat? {
        if masked != rec.content.masked {
          return Rejected(Conflict), cause;
        }
        MarkAnswered(consumerStore, key, rec, consumerStore.entries);
        reply := Text(rec.content.original, Restoration);
      } else if !Sliceable(rec.content.original, rec.content.table) {
        reply := Rejected(Panics);
      } else {
        var table := FromStoreTable(rec.content.original, rec.content.table);
        var restored := Restoring.Restore(masked, table);
        if restored != masked {
          MarkAnswered(consumerStore, key, rec, consumerStore.entries);
        }
        reply := Text(restored, Restoration);
      }
    }

    /** The record answered from makes its transition, unless it has already. */
    method MarkAnswered(st: Memory, key: Key, rec: Record, ghost e: map<Key, Record>)
      requires st.Valid() && key in st.entries && st.entries[key] == rec && e == st.entries
      modifies st, st.expiries
      ensures st.Valid() && old(st.clock) <= st.clock && StoredAs(st.limits, st.entries, key, rec, true)
      ensures Touches(st.limits, e, st.entries, st.clock, key) && SameReserves(old(st.View()), st.View())
    {
      hide Inv, Touches, StoreCore.MarkRestored, SameReserves;
      var ok, ev := st.MarkRestored(key, rec.version);
      MarkLeaves(st.limits, old(st.View()), key, st.clock);
    }
  }

  /** A content that was built keeps the text it was built from. */
  lemma BuiltOriginal(prefix: Bytes, policy: Policy, payload: Bytes, results: seq<Finding>)
    ensures var c := Built(prefix, policy, payload, results); c.Some? ==> c.value.original == payload
  {
    hide Gathered, Masking.Assemble, TableFor, Reduced;
  }
}

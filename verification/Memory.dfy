/** The in-memory store. Each method is one critical section; `Create` runs
    `TryCreate`, then `build` without the mutex, then `Publish` and
    `FinishInflight`, or `FailInflight` (see `StoreSteps` for their interleaving). */
module MemoryStore {
  import opened Bytes
  import opened Expiry
  import opened Totals
  import opened StoreCore
  import opened StoreInvariant
  import opened DrainLemmas

  /** A reservation: `done` is closed once the outcome is there. */
  class Inflight {
    var outcome: Option<Outcome>

    constructor ()
      ensures outcome == None
    {
      outcome := None;
    }
  }

  /** What a waiter goes on with: the creator's record, another try, or an error. */
  datatype Waited = Gets(rec: Record) | Again | GivesUp(error: Error)

  /** A batch is full with a thousand records, or takes all that have expired. */
  lemma DrainsBatch<R>(l: Limits, c: Core<R>, gone: set<Key>, now: Time)
    requires Drains(l, c, gone, now)
    ensures |gone| <= 1000
    ensures |gone| < 1000 ==> forall k :: k in c.entries && Expired(l, c.entries[k], now) ==> k in gone
  {
  }

  class Memory {
    const limits: Limits
    const expiries: ExpiryQueue
    var entries: map<Key, Record>
    var bytes: int
    var inflight: map<Key, Inflight>
    var nextVer: nat
    var reservedBytes: int
    var reservedEntries: int
    /** The last reading of the time source. */
    var clock: Time
    /** The amounts of the reservations taken and not yet released. */
    ghost var active: map<Inflight, int>

    ghost function View(): Core<Inflight>
      requires expiries.Inverse()
      reads this, expiries
    {
      Core(entries, bytes, reservedBytes, reservedEntries, inflight, expiries.Deadlines(), nextVer, active)
    }

    ghost predicate Valid()
      reads this, expiries
    {
      expiries.Valid() && Inv(limits, View())
    }

    constructor (limits: Limits)
      ensures Valid() && this.limits == limits && fresh(expiries)
      ensures View() == Core(map[], 0, 0, 0, map[], map[], 0, map[])
    {
      this.limits := limits;
      expiries := new ExpiryQueue();
      entries, bytes, inflight, nextVer := map[], 0, map[], 0;
      reservedBytes, reservedEntries, clock, active := 0, 0, 0, map[];
    }

    /** The time source never goes back. */
    method Now() returns (now: Time)
      modifies this`clock
      ensures now == clock && old(clock) <= clock
    {
      now :| clock <= now;
      clock := now;
    }

    /** `evictLocked`. */
    method EvictLocked(key: Key) returns (ev: Tally)
      requires Valid() && key in entries
      modifies this, expiries
      ensures Valid() && clock == old(clock)
      ensures View() == Evict(old(View()), key) && ev == Removal(old(entries)[key])
    {
      hide Inv;
      EvictKeeps(limits, View(), key);
      ev := Removal(entries[key]);
      bytes := bytes - entries[key].size;
      entries := entries - {key};
      expiries.Remove(key);
    }

    /** `isExpired`. */
    method IsExpired(rec: Record) returns (expired: bool)
      modifies this`clock
      ensures old(clock) <= clock && expired == Expired(limits, rec, clock)
    {
      if limits.ttl <= 0 {
        return false;
      }
      var now := Now();
      return Deadline(limits, rec) <= now;
    }

    method Get(key: Key) returns (r: Option<Record>, ev: Tally)
      requires Valid()
      modifies this, expiries
      ensures Valid() && old(clock) <= clock
      ensures (View(), r, ev) == StoreCore.Get(limits, old(View()), key, clock)
    {
      if key !in entries {
        return None, NOTHING;
      }
      var rec := entries[key];
      var expired := IsExpired(rec);
      if expired {
        ev := EvictLocked(key);
        return None, ev;
      }
      return Some(rec), NOTHING;
    }

    /** `drainExpired`. The two branches of the source that skip a popped node
        cannot be reached: the node's record is stored, and it is expired. */
    method DrainExpired() returns (ghost gone: set<Key>, ev: Tally)
      requires Valid()
      modifies this, expiries
      ensures Valid() && old(clock) <= clock
      ensures Drains(limits, old(View()), gone, clock)
      ensures View() == Drained(old(View()), gone) && ev == DrainEvents(old(View()), gone)
      ensures |gone| <= 1000
      ensures |gone| < 1000 ==> forall k :: k in old(entries) && Expired(limits, old(entries)[k], clock) ==> k in gone
    {
      hide Inv, Drained, DrainEvents, Drains, Evict, Draining;
      ghost var c := View();
      gone, ev := {}, NOTHING;
      DrainedNothing(c);
      NoneDraining(limits, c, clock);
      if limits.ttl <= 0 {
        DrainComplete(limits, c, gone, clock);
        DrainsBatch(limits, c, gone, clock);
        return;
      }
      var now := Now();
      NoneDraining(limits, c, now);
      var i := 0;
      while i < DRAIN_BATCH && |expiries.nodes| > 0
        invariant Valid() && clock == now && i == |gone| <= DRAIN_BATCH
        invariant View() == Drained(c, gone) && ev == DrainEvents(c, gone)
        invariant Draining(limits, c, gone, now)
      {
        var top := expiries.nodes[0];
        expiries.RootIsMinimum();
        if top.expiresAt > now {
          DrainComplete(limits, c, gone, now);
          DrainsBatch(limits, c, gone, now);
          return;
        }
        DrainStep(limits, c, gone, top, now);
        DrainOneMore(c, gone, top.key);
        EvictKeeps(limits, View(), top.key);
        EvictedFields(View(), top.key);
        var rec := entries[top.key];
        var _ := expiries.Pop();
        ev := Plus(ev, Removal(rec));
        entries := entries - {top.key};
        bytes := bytes - rec.size;
        gone := gone + {top.key};
        i := i + 1;
      }
      assert i < DRAIN_BATCH ==> forall k :: k !in View().deadlines;
      DrainComplete(limits, c, gone, now);
      DrainsBatch(limits, c, gone, now);
    }

    /** The first critical section of `Create`. `inf` is the reservation made for
        the caller if it becomes the creator. */
    method TryCreate(key: Key, reserve: nat)
      returns (out: Begun<Inflight>, inf: Inflight, ghost gone: set<Key>, ev: Tally)
      requires Valid()
      modifies this, expiries
      ensures Valid() && old(clock) <= clock && fresh(inf) && inf.outcome == None
      ensures (out.Refused? || out.Granted?) ==> Drains(limits, old(View()), gone, clock)
      ensures (View(), out, ev) == Begin(limits, old(View()), key, reserve, inf, gone, clock)
    {
      hide Inv, Drained, DrainEvents, Drains;
      inf := new Inflight();
      gone, ev := {}, NOTHING;
      ghost var c := View();
      assert inf !in c.active;
      if key in entries {
        var rec := entries[key];
        var expired := IsExpired(rec);
        if expired {
          ev := EvictLocked(key);
          return Retry, inf, gone, ev;
        }
        return Existing(rec), inf, gone, ev;
      }
      if key in inflight {
        return Wait(inflight[key]), inf, gone, ev;
      }
      out, gone, ev := BecomeCreator(key, reserve, inf);
    }

    /** The rest of that section: link the reservation, drain a batch, and either
        reserve capacity or unlink the reservation again, which nobody has seen. */
    method BecomeCreator(key: Key, reserve: nat, inf: Inflight)
      returns (out: Begun<Inflight>, ghost gone: set<Key>, ev: Tally)
      requires Valid() && inf !in active && key !in entries && key !in inflight
      modifies this, expiries
      ensures Valid() && old(clock) <= clock && (out.Refused? || out.Granted?)
      ensures Drains(limits, old(View()), gone, clock)
      ensures (View(), out, ev) == Begin(limits, old(View()), key, reserve, inf, gone, clock)
    {
      hide Inv, Drained, DrainEvents, Drains, HeapUpTo, Indexed, ReserveRefusal;
      ghost var c := View();
      inflight := inflight[key := inf];
      LinkingIsNeutral(limits, c, inflight);
      gone, ev := DrainExpired();
      DrainLinked(limits, c, c.(inflight := c.inflight[key := inf]), gone, clock);
      ghost var d := Drained(c, gone);
      assert View() == d.(inflight := c.inflight[key := inf]);
      var reason := ReserveCapacity(reserve);
      LinkingIsNotRefused(limits, d, c.inflight[key := inf], reserve);
      if reason.Some? {
        inflight := inflight - {key};
        assert View() == d;
        out := Refused(reason.value);
      } else {
        reservedBytes := reservedBytes + reserve;
        reservedEntries := reservedEntries + 1;
        active := active[inf := reserve];
        ReservedKeeps(limits, d, key, inf, reserve);
        out := Granted;
      }
    }

    /** The test of `reserveCapacityLocked`. */
    method ReserveCapacity(reserve: nat) returns (reason: Option<Reason>)
      requires expiries.Inverse()
      ensures reason == ReserveRefusal(limits, View(), reserve)
    {
      if limits.maxEntries > 0 && |entries| + reservedEntries >= limits.maxEntries {
        return Some(EntryLimit);
      }
      if limits.maxBytes > 0 && bytes + reservedBytes + reserve > limits.maxBytes {
        return Some(ByteLimit);
      }
      return None;
    }

    /** The test of `publishCapacityLocked`. */
    method PublishCapacity(size: int, reserve: int) returns (reason: Option<Reason>)
      requires expiries.Inverse()
      ensures reason == PublishRefusal(limits, View(), size, reserve)
    {
      if limits.maxRecordBytes > 0 && size > limits.maxRecordBytes {
        return Some(RecordLimit);
      }
      if limits.maxBytes > 0 && bytes + reservedBytes - reserve + size > limits.maxBytes {
        return Some(ByteLimit);
      }
      return None;
    }

    /** `releaseReservationLocked`. */
    method ReleaseReservation(key: Key, inf: Inflight, reserve: nat)
      requires Valid() && inf in active && active[inf] == reserve
      modifies this
      ensures Valid() && clock == old(clock)
      ensures View() == Released(old(View()), key, inf, reserve)
    {
      hide Inv;
      ReleasedKeeps(limits, View(), key, inf, reserve);
      if key in inflight && inflight[key] == inf {
        inflight := inflight - {key};
      }
      reservedBytes := reservedBytes - reserve;
      reservedEntries := reservedEntries - 1;
      active := active - {inf};
    }

    /** `failInflight`: release the reservation and wake the waiters. */
    method FailInflight(key: Key, inf: Inflight, reserve: nat, err: Error)
      requires Valid() && inf in active && active[inf] == reserve && inf.outcome == None
      modifies this, inf
      ensures Valid() && clock == old(clock)
      ensures View() == Released(old(View()), key, inf, reserve)
      ensures inf.outcome == Some(Fails(err))
    {
      ReleaseReservation(key, inf, reserve);
      inf.outcome := Some(Fails(err));
    }

    /** `finishInflight`: wake the waiters with the result. */
    method FinishInflight(key: Key, inf: Inflight, outcome: Outcome)
      requires Valid() && inf.outcome == None
      modifies this, inf
      ensures Valid() && clock == old(clock)
      ensures View() == Unlinked(old(View()), key, inf)
      ensures inf.outcome == Some(outcome)
    {
      hide Inv;
      UnlinkedKeeps(limits, View(), key, inf);
      if key in inflight && inflight[key] == inf {
        inflight := inflight - {key};
      }
      inf.outcome := Some(outcome);
    }

    /** The second critical section of `Create`: drain, stamp the record, then
        store it in place of the reservation or release the reservation. */
    method Publish(key: Key, inf: Inflight, reserve: nat, content: Content)
      returns (out: Published, ghost gone: set<Key>, ev: Tally)
      requires Valid() && inf in active && active[inf] == reserve && key !in entries
      modifies this, expiries
      ensures Valid()
      ensures exists drainedAt :: old(clock) <= drainedAt <= clock && Drains(limits, old(View()), gone, drainedAt)
      ensures (View(), out, ev) ==
              StoreCore.Publish(limits, old(View()), key, inf, reserve, content, gone, clock)
    {
      hide Inv, Drained, DrainEvents, Drains, RecordSize, Released, Stored, Unreserved, PublishRefusal;
      ghost var c := View();
      gone, ev := DrainExpired();
      DrainedActive(c, gone);
      var at := Now();
      assert gone <= c.entries.Keys by { DrainsStored(limits, c, gone); }
      PublishKeeps(limits, c, key, inf, reserve, content, gone, at);
      var rec := Record(content, at, None, nextVer + 1, RecordSize(key, content));
      var reason := PublishCapacity(rec.size, reserve);
      if reason.Some? {
        ReleaseReservation(key, inf, reserve);
        return Rejects(reason.value), gone, ev;
      }
      StoreRecord(key, inf, reserve, rec);
      return Stores(rec), gone, ev;
    }

    /** The stored record takes the place of the reservation. */
    method StoreRecord(key: Key, inf: Inflight, reserve: nat, rec: Record)
      requires Valid() && inf in active && active[inf] == reserve && key !in entries
      requires Inv(limits, Stored(limits, Unreserved(View(), inf, reserve), key, rec)) && rec.version == nextVer + 1
      modifies this, expiries
      ensures Valid() && clock == old(clock)
      ensures View() == Stored(limits, Unreserved(old(View()), inf, reserve), key, rec)
    {
      hide Inv, HeapUpTo, Indexed;
      NotScheduled(limits, View(), key);
      ghost var target := Stored(limits, Unreserved(View(), inf, reserve), key, rec);
      assert key !in expiries.index;
      reservedBytes := reservedBytes - reserve;
      reservedEntries := reservedEntries - 1;
      active := active - {inf};
      nextVer := nextVer + 1;
      entries := entries[key := rec];
      bytes := bytes + rec.size;
      if limits.ttl > 0 {
        expiries.Push(ExpiryNode(rec.createdAt + limits.ttl, key));
      }
      assert View() == target;
    }

    /** `waitInflight`: `select` takes any channel that is ready. `done` is once the
        outcome is there; the caller's context, and the timer if there is one, may be at
        any time. */
    method WaitInflight(inf: Inflight, timed: bool) returns (w: Waited)
      ensures match w
              case Gets(rec) => inf.outcome == Some(Delivers(rec))
              case Again => inf.outcome == Some(Fails(ErrContext))
              case GivesUp(error) =>
                error == ErrContext || (error == ErrBusy && timed) || inf.outcome == Some(Fails(error))
    {
      if
      case inf.outcome.Some? =>
        match inf.outcome.value {
          case Delivers(rec) => return Gets(rec);
          case Fails(error) =>
            if error.ErrContext? {
              return Again;
            }
            return GivesUp(error);
        }
      case true => return GivesUp(ErrContext);
      case timed => return GivesUp(ErrBusy);
    }

    method MarkRestored(key: Key, version: nat) returns (ok: bool, ev: Tally)
      requires Valid()
      modifies this, expiries
      ensures Valid() && old(clock) <= clock
      ensures (View(), ok, ev) == StoreCore.MarkRestored(limits, old(View()), key, version, clock)
    {
      hide Inv, HeapUpTo, Indexed, Deadline;
      if key !in entries || entries[key].version != version || InReplay(entries[key]) || limits.replayTtl <= 0 {
        return false, NOTHING;
      }
      ghost var c := View();
      var now := Now();
      MarkRestoredKeeps(limits, c, key, version, now);
      var rec := Restored(entries[key], now);
      entries := entries[key := rec];
      expiries.Remove(key);
      expiries.Push(ExpiryNode(now + limits.replayTtl, key));
      assert expiries.Deadlines() == c.deadlines[key := now + limits.replayTtl];
      return true, Transition(rec.size);
    }

    /** `drainAll`, with no other operation in between: the loop ends, because
        every batch but the last one removes records; what goes is expired, and
        what stays is unchanged and not expired at the last clock reading. */
    method DrainAll()
      requires Valid()
      modifies this, expiries
      ensures Valid() && old(clock) <= clock
      ensures forall k :: k in old(entries) ==>
                if Expired(limits, old(entries)[k], clock) then k !in entries
                else k in entries && entries[k] == old(entries)[k]
      ensures forall k :: k in entries ==> k in old(entries)
    {
      hide Inv, Drained, DrainEvents, Drains, Expired;
      ghost var e0 := entries;
      while true
        invariant Valid() && old(clock) <= clock
        invariant OnlyExpiredGone(limits, e0, entries, clock)
        decreases |entries|
      {
        ghost var c, before := View(), clock;
        var gone, ev := DrainExpired();
        DrainsStored(limits, c, gone);
        DrainedKeeps(limits, c, gone);
        DrainedActive(c, gone);
        BatchProgress(limits, e0, c, gone, before, clock);
        if ev.removedPending + ev.removedReplay == 0 {
          break;
        }
      }
    }
  }
}

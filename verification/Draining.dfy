/** Draining record by record in heap order, and removing a batch at once. */
module DrainLemmas {
  import opened Bytes
  import opened Expiry
  import opened Totals
  import opened StoreCore
  import opened StoreInvariant

  lemma DrainedNothing<R>(c: Core<R>)
    ensures Drained(c, {}) == c && DrainEvents(c, {}) == NOTHING
  {
    var none := Restrict(c.entries, {});
    assert none == map[] && c.entries - {} == c.entries && c.deadlines - {} == c.deadlines;
  }

  /** Removing one more record than `gone`. */
  lemma DrainOneMore<R>(c: Core<R>, gone: set<Key>, k: Key)
    requires k in c.entries && k !in gone
    ensures k in Drained(c, gone).entries && Drained(c, gone).entries[k] == c.entries[k]
    ensures Drained(c, gone + {k}) == Evict(Drained(c, gone), k)
    ensures DrainEvents(c, gone + {k}) == Plus(DrainEvents(c, gone), Removal(c.entries[k]))
  {
    hide Total;
    var m, m' := Restrict(c.entries, gone), Restrict(c.entries, gone + {k});
    assert m' == m[k := c.entries[k]] && k !in m;
    TotalUpdate(m, Size, k, c.entries[k]);
    TotalUpdate(m, PendingCount, k, c.entries[k]);
    TotalUpdate(m, ReplayCount, k, c.entries[k]);
    TotalUpdate(m, PendingSize, k, c.entries[k]);
    TotalUpdate(m, ReplaySize, k, c.entries[k]);
    assert c.entries - (gone + {k}) == c.entries - gone - {k};
    assert c.deadlines - (gone + {k}) == c.deadlines - gone - {k};
  }

  /** What a drain has removed so far: expired records, the earliest first. */
  ghost predicate Draining<R>(l: Limits, c: Core<R>, gone: set<Key>, now: Time) {
    && gone <= c.entries.Keys
    && (forall k :: k in gone ==> Expired(l, c.entries[k], now))
    && (forall g, k :: g in gone && k in c.entries && k !in gone ==>
          Deadline(l, c.entries[g]) <= Deadline(l, c.entries[k]))
  }

  lemma NoneDraining<R>(l: Limits, c: Core<R>, now: Time)
    ensures Draining(l, c, {}, now)
  {
  }

  lemma EvictedFields<R>(c: Core<R>, key: Key)
    requires key in c.entries
    ensures Evict(c, key) ==
            c.(entries := c.entries - {key}, bytes := c.bytes - c.entries[key].size, deadlines := c.deadlines - {key})
  {
  }

  /** The root of the queue names a stored record at the record's own deadline. */
  lemma RootIsStored<R>(l: Limits, d: Core<R>, top: ExpiryNode)
    requires Inv(l, d) && top.key in d.deadlines && d.deadlines[top.key] == top.expiresAt
    ensures top.key in d.entries && Deadline(l, d.entries[top.key]) == top.expiresAt
  {
  }

  lemma DrainStep<R>(l: Limits, c: Core<R>, gone: set<Key>, top: ExpiryNode, now: Time)
    requires Draining(l, c, gone, now) && l.ttl > 0
    requires Inv(l, Drained(c, gone)) && top.key in Drained(c, gone).deadlines
    requires Drained(c, gone).deadlines[top.key] == top.expiresAt <= now
    requires forall k :: k in Drained(c, gone).deadlines ==> top.expiresAt <= Drained(c, gone).deadlines[k]
    ensures top.key in c.entries && top.key !in gone && Draining(l, c, gone + {top.key}, now)
  {
    hide Accounted, ReservesMatch, WithinBudget, Versioned, Deadline, Total;
    var d := Drained(c, gone);
    RootIsStored(l, d, top);
    assert d.entries == c.entries - gone;
    forall k | k in c.entries && k !in gone ensures top.expiresAt <= Deadline(l, c.entries[k]) {
      assert k in d.entries && Queued(l, d.entries[k]);
      assert k in d.deadlines;
    }
  }

  /** Nothing left is due: the batch is complete. */
  lemma DrainComplete<R>(l: Limits, c: Core<R>, gone: set<Key>, now: Time)
    requires Draining(l, c, gone, now) && |gone| <= DRAIN_BATCH
    requires |gone| < DRAIN_BATCH && l.ttl > 0 ==>
               Inv(l, Drained(c, gone)) &&
               forall k :: k in Drained(c, gone).deadlines ==> Drained(c, gone).deadlines[k] > now
    ensures Drains(l, c, gone, now)
  {
    hide Accounted, ReservesMatch, WithinBudget, Versioned, Deadline, Total;
    var d := Drained(c, gone);
    assert d.entries == c.entries - gone;
    if |gone| < DRAIN_BATCH && l.ttl > 0 {
      forall k | k in c.entries && k !in gone ensures !Expired(l, c.entries[k], now) {
        assert k in d.entries && Queued(l, d.entries[k]);
        assert k in d.deadlines;
      }
    }
  }

  /** The reservation map plays no part in draining. */
  lemma LinkingIsNeutral<R>(l: Limits, c: Core<R>, inflight: map<Key, R>)
    requires Inv(l, c)
    ensures Inv(l, c.(inflight := inflight))
  {
    hide Accounted, Scheduled, ReservesMatch, WithinBudget, Versioned;
  }

  lemma LinkingIsNotRefused<R>(l: Limits, c: Core<R>, inflight: map<Key, R>, reserve: int)
    ensures ReserveRefusal(l, c.(inflight := inflight), reserve) == ReserveRefusal(l, c, reserve)
  {
  }

  lemma LinkingCommutes<R>(l: Limits, c: Core<R>, inflight: map<Key, R>, gone: set<Key>, now: Time)
    ensures Drained(c.(inflight := inflight), gone) == Drained(c, gone).(inflight := inflight)
    ensures DrainEvents(c.(inflight := inflight), gone) == DrainEvents(c, gone)
    ensures Drains(l, c.(inflight := inflight), gone, now) <==> Drains(l, c, gone, now)
  {
    hide Total, Removals, Deadline;
  }

  lemma DrainLinked<R>(l: Limits, c: Core<R>, linked: Core<R>, gone: set<Key>, now: Time)
    requires Inv(l, c) && linked == c.(inflight := linked.inflight) && Drains(l, linked, gone, now)
    ensures Drains(l, c, gone, now) && Inv(l, Drained(c, gone))
    ensures Drained(linked, gone) == Drained(c, gone).(inflight := linked.inflight)
    ensures DrainEvents(linked, gone) == DrainEvents(c, gone)
    ensures Drained(c, gone).inflight == c.inflight && Drained(c, gone).active == c.active
  {
    hide Inv, Drained, DrainEvents, Drains;
    LinkingCommutes(l, c, linked.inflight, gone, now);
    DrainsStored(l, c, gone);
    DrainedKeeps(l, c, gone);
    DrainedActive(c, gone);
  }

  lemma DrainsStored<R>(l: Limits, c: Core<R>, gone: set<Key>)
    requires exists now :: Drains(l, c, gone, now)
    ensures gone <= c.entries.Keys
  {
  }

  lemma NotScheduled<R>(l: Limits, d: Core<R>, key: Key)
    requires Inv(l, d) && key !in d.entries
    ensures key !in d.deadlines
  {
  }

  // ---- Draining everything ----------------------------------------------------

  function One(r: Record): int { 1 }

  /** The events of a batch count its records. */
  lemma {:induction false} TotalOne(m: map<Key, Record>)
    ensures Total(m, One) == |m|
    decreases |m|
  {
    if k :| k in m {
      TotalWithout(m, One, k);
      SizeWithout(m, {k});
      TotalOne(m - {k});
    }
  }

  lemma EventsCountBatch<R>(c: Core<R>, gone: set<Key>)
    requires gone <= c.entries.Keys
    ensures DrainEvents(c, gone).removedPending + DrainEvents(c, gone).removedReplay == |gone|
  {
    hide Total;
    var m := Restrict(c.entries, gone);
    assert m.Keys == gone;
    TotalSum(m, PendingCount, ReplayCount, One);
    TotalOne(m);
  }

  /** What left `e0` on the way to `e` is expired, and the rest is unchanged. */
  ghost predicate OnlyExpiredGone(l: Limits, e0: map<Key, Record>, e: map<Key, Record>, now: Time) {
    && (forall k :: k in e ==> k in e0 && e[k] == e0[k])
    && (forall k :: k in e0 && k !in e ==> Expired(l, e0[k], now))
  }

  lemma BatchProgress<R>(l: Limits, e0: map<Key, Record>, c: Core<R>, gone: set<Key>, before: Time, now: Time)
    requires before <= now && OnlyExpiredGone(l, e0, c.entries, before) && Drains(l, c, gone, now)
    ensures OnlyExpiredGone(l, e0, Drained(c, gone).entries, now)
    ensures var ev := DrainEvents(c, gone);
            if ev.removedPending + ev.removedReplay == 0
            then gone == {} && forall k :: k in c.entries ==> !Expired(l, c.entries[k], now)
            else |gone| > 0
  {
    hide Total, Removals, Deadline, DrainEvents;
    EventsCountBatch(c, gone);
    DrainedActive(c, gone);
  }
}

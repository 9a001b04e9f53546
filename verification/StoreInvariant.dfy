/** Every critical section keeps the store's invariant. */
module StoreInvariant {
  import opened Bytes
  import opened Expiry
  import opened Totals
  import opened StoreCore

  lemma EvictKeeps<R>(l: Limits, c: Core<R>, key: Key)
    requires Inv(l, c) && key in c.entries
    ensures Inv(l, Evict(c, key))
  {
    hide Total, RecordSize, ReservesMatch, Deadline, Scheduled, Versioned;
    TotalWithout(c.entries, Size, key);
    FewerVersions(c.entries, {key}, c.nextVer);
    FewerScheduled(l, c.entries, {key}, c.deadlines);
    SizeIsNatural(c.entries, key, c.nextVer);
    assert |c.entries - {key}| == |c.entries| - 1 by { SizeWithout(c.entries, {key}); }
  }

  lemma SizeIsNatural(entries: map<Key, Record>, key: Key, nextVer: nat)
    requires Versioned(entries, nextVer) && key in entries
    ensures entries[key].size >= 0
  {
    hide RecordSize;
  }

  lemma SizeWithout<K, V>(m: map<K, V>, s: set<K>)
    requires s <= m.Keys
    ensures |m - s| == |m| - |s|
  {
    assert (m - s).Keys == m.Keys - s;
    assert m.Keys == (m.Keys - s) + s;
  }

  lemma DrainedKeeps<R>(l: Limits, c: Core<R>, gone: set<Key>)
    requires Inv(l, c) && gone <= c.entries.Keys
    ensures Inv(l, Drained(c, gone))
    ensures |Drained(c, gone).entries| == |c.entries| - |gone|
  {
    hide Total, RecordSize, ReservesMatch, Deadline, Versioned, Scheduled;
    TotalSplit(c.entries, Size, gone);
    SizeWithout(c.entries, gone);
    SizesAreNatural(c.entries, gone, c.nextVer);
    FewerVersions(c.entries, gone, c.nextVer);
    FewerScheduled(l, c.entries, gone, c.deadlines);
  }

  lemma SizesAreNatural(entries: map<Key, Record>, gone: set<Key>, nextVer: nat)
    requires Versioned(entries, nextVer)
    ensures Total(Restrict(entries, gone), Size) >= 0
  {
    hide Total, RecordSize;
    TotalNonNegative(Restrict(entries, gone), Size);
  }

  lemma FewerVersions(entries: map<Key, Record>, gone: set<Key>, nextVer: nat)
    requires Versioned(entries, nextVer)
    ensures Versioned(entries - gone, nextVer)
  {
    hide RecordSize;
  }

  lemma FewerScheduled(l: Limits, entries: map<Key, Record>, gone: set<Key>, deadlines: map<Key, Time>)
    requires Scheduled(l, entries, deadlines)
    ensures Scheduled(l, entries - gone, deadlines - gone)
  {
    hide Deadline, Queued;
  }

  lemma GetKeeps<R>(l: Limits, c: Core<R>, key: Key, now: Time)
    requires Inv(l, c)
    ensures Inv(l, Get(l, c, key, now).0)
  {
    hide Inv, Evict;
    if key in c.entries {
      EvictKeeps(l, c, key);
    }
  }

  lemma ReservedKeeps<R>(l: Limits, c: Core<R>, key: Key, ref: R, reserve: nat)
    requires Inv(l, c) && ref !in c.active && ReserveRefusal(l, c, reserve) == None
    ensures Inv(l, Reserved(c, key, ref, reserve))
  {
    hide Total, Accounted, Scheduled, Versioned;
    TotalUpdate(c.active, Itself, ref, reserve);
    assert c.active[ref := reserve].Keys == c.active.Keys + {ref};
  }

  lemma BeginKeeps<R>(l: Limits, c: Core<R>, key: Key, reserve: nat, ref: R, gone: set<Key>, now: Time)
    requires Inv(l, c) && ref !in c.active && Drains(l, c, gone, now)
    ensures Inv(l, Begin(l, c, key, reserve, ref, gone, now).0)
  {
    hide Inv, Evict, Drained, Reserved, ReserveRefusal;
    if key in c.entries {
      EvictKeeps(l, c, key);
    } else if key !in c.inflight {
      DrainedKeeps(l, c, gone);
      var d := Drained(c, gone);
      DrainedActive(c, gone);
      if ReserveRefusal(l, d, reserve) == None {
        ReservedKeeps(l, d, key, ref, reserve);
      }
    }
  }

  lemma DrainedActive<R>(c: Core<R>, gone: set<Key>)
    ensures var d := Drained(c, gone);
            d.active == c.active && d.inflight == c.inflight && d.nextVer == c.nextVer &&
            d.reservedBytes == c.reservedBytes && d.reservedEntries == c.reservedEntries &&
              d.entries == c.entries - gone
  {
  }

  /** A reservation is released once: its amounts leave the reserves, and nothing
      else does. */
  lemma ReleasedKeeps<R>(l: Limits, c: Core<R>, key: Key, ref: R, reserve: int)
    requires Inv(l, c) && ref in c.active && c.active[ref] == reserve
    ensures Inv(l, Released(c, key, ref, reserve))
    ensures Released(c, key, ref, reserve).active == c.active - {ref}
  {
    hide Total, Accounted, Scheduled, Versioned;
    TotalWithout(c.active, Itself, ref);
    SizeWithout(c.active, {ref});
  }

  lemma StoredKeeps<R>(l: Limits, c: Core<R>, key: Key, ref: R, reserve: int, content: Content, at: Time)
    requires Inv(l, c) && ref in c.active && c.active[ref] == reserve && key !in c.entries
    requires PublishRefusal(l, c, RecordSize(key, content), reserve) == None
    ensures Inv(l, Stored(l, Unreserved(c, ref, reserve), key, Stamped(c, key, content, at)))
  {
    hide Total, RecordSize, Versioned, Scheduled;
    TotalWithout(c.active, Itself, ref);
    SizeWithout(c.active, {ref});
    var rec := Stamped(c, key, content, at);
    TotalUpdate(c.entries, Size, key, rec);
    assert c.entries[key := rec].Keys == c.entries.Keys + {key};
    NextVersion(c.entries, key, rec, c.nextVer);
    NextScheduled(l, c.entries, key, rec, c.deadlines);
  }

  lemma NextVersion(entries: map<Key, Record>, key: Key, rec: Record, nextVer: nat)
    requires Versioned(entries, nextVer) && rec.version == nextVer + 1 && rec.size == RecordSize(key, rec.content)
    ensures Versioned(entries[key := rec], nextVer + 1)
  {
    hide RecordSize;
  }

  lemma NextScheduled(l: Limits, entries: map<Key, Record>, key: Key, rec: Record, deadlines: map<Key, Time>)
    requires Scheduled(l, entries, deadlines) && key !in entries && rec.firstRestoreAt == None
    ensures Scheduled(l, entries[key := rec], if l.ttl > 0 then deadlines[key := rec.createdAt + l.ttl] else deadlines)
  {
  }

  lemma PublishKeeps<R>(l: Limits, c: Core<R>, key: Key, ref: R, reserve: int, content: Content,
                              gone: set<Key>, at: Time)
    requires Inv(l, c) && ref in c.active && c.active[ref] == reserve && key !in c.entries
    requires gone <= c.entries.Keys
    ensures Inv(l, Publish(l, c, key, ref, reserve, content, gone, at).0)
  {
    hide Inv, Drained, Released, Stored, Unreserved, PublishRefusal, RecordSize;
    DrainedKeeps(l, c, gone);
    DrainedActive(c, gone);
    var d := Drained(c, gone);
    if PublishRefusal(l, d, RecordSize(key, content), reserve) == None {
      StoredKeeps(l, d, key, ref, reserve, content, at);
    } else {
      ReleasedKeeps(l, d, key, ref, reserve);
    }
  }

  lemma UnlinkedKeeps<R>(l: Limits, c: Core<R>, key: Key, ref: R)
    requires Inv(l, c)
    ensures Inv(l, Unlinked(c, key, ref))
  {
    hide Accounted, Scheduled, Versioned, ReservesMatch, WithinBudget;
  }

  lemma MarkRestoredKeeps<R>(l: Limits, c: Core<R>, key: Key, version: nat, now: Time)
    requires Inv(l, c)
    ensures Inv(l, MarkRestored(l, c, key, version, now).0)
  {
    hide Total, RecordSize, ReservesMatch;
    if MayRestore(l, c, key, version) {
      var rec := Restored(c.entries[key], now);
      TotalUpdate(c.entries, Size, key, rec);
      assert c.entries[key := rec].Keys == c.entries.Keys;
    }
  }

  /** `Create` refuses for the entry limit only when no stored record is expired
      at that clock reading, although one pass drains a bounded batch. */
  lemma EntryRefusalFindsNothingExpired<R>(l: Limits, c: Core<R>, key: Key, reserve: nat, ref: R,
                                                 gone: set<Key>, now: Time)
    requires Inv(l, c) && Drains(l, c, gone, now)
    requires Begin(l, c, key, reserve, ref, gone, now).1 == Refused(EntryLimit)
    ensures gone == {} && forall k :: k in c.entries ==> !Expired(l, c.entries[k], now)
    ensures l.maxEntries > 0 && |c.entries| + c.reservedEntries == l.maxEntries
  {
    hide Total, Accounted, Scheduled, Versioned, Removals;
    SizeWithout(c.entries, gone);
  }

  /** A reservation is refused exactly when taking it would break the store's accounts,
      and for the entry limit exactly when every slot is stored or reserved. */
  lemma ReservationIsRefusedExactly<R>(l: Limits, c: Core<R>, key: Key, ref: R, reserve: nat)
    requires Inv(l, c) && ref !in c.active
    ensures ReserveRefusal(l, c, reserve) == None <==> Inv(l, Reserved(c, key, ref, reserve))
    ensures ReserveRefusal(l, c, reserve) == Some(EntryLimit) <==>
            l.maxEntries > 0 && |c.entries| + |c.active| == l.maxEntries
  {
    hide Total, Accounted, Scheduled, Versioned;
    if ReserveRefusal(l, c, reserve) == None {
      ReservedKeeps(l, c, key, ref, reserve);
    }
  }

  /** A built record is refused exactly when it is larger than a record may be, or
      storing it in place of its reservation would break the accounts. */
  lemma PublishingIsRefusedExactly<R>(l: Limits, c: Core<R>, key: Key, ref: R, reserve: int, content: Content, at: Time)
    requires Inv(l, c) && ref in c.active && c.active[ref] == reserve && key !in c.entries
    ensures PublishRefusal(l, c, RecordSize(key, content), reserve) == None <==>
            && (l.maxRecordBytes > 0 ==> RecordSize(key, content) <= l.maxRecordBytes)
            && Inv(l, Stored(l, Unreserved(c, ref, reserve), key, Stamped(c, key, content, at)))
  {
    hide Total, Accounted, Scheduled, Versioned, ReservesMatch, RecordSize;
    if PublishRefusal(l, c, RecordSize(key, content), reserve) == None {
      StoredKeeps(l, c, key, ref, reserve, content, at);
    }
  }

  // ---- Sizes ----------------------------------------------------------------------

  /** What a record is charged: 128 bytes, its key, its two texts, and for every slot 32
      bytes and the marker. A reservation asks for no more than the record will need,
      besides 64 bytes of its own. */
  lemma SizesAreCharged(key: Key, c: Content, slot: Slot)
    ensures RecordSize(key, c.(table := [])) == 128 + |key| + |c.original| + |c.masked|
    ensures RecordSize(key, c.(table := c.table + [slot])) == RecordSize(key, c) + 32 + |slot.marker|
    ensures MinRecordSize(key, |c.original|) == 128 + |key| + |c.original| <= RecordSize(key, c)
    ensures INFLIGHT_OVERHEAD == 64
  {
    assert (c.table + [slot])[..|c.table|] == c.table;
  }
}

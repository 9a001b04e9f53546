/** The state under the store's mutex, and what each critical section does to it.
    R names reservations: objects in the class `Memory`, thread names in the
    transition system. */
module StoreCore {
  import opened Bytes
  import opened Expiry
  import opened Totals

  // ---- Records ----------------------------------------------------------------

  /** `store.Replacement`: a marker and the range of the original it stands for. */
  datatype Slot = Slot(marker: Bytes, start: int, end: int)

  datatype Format = MarkerFormat | StarsFormat

  /** What `build` supplies for a record. */
  datatype Content = Content(original: Bytes, masked: Bytes, table: seq<Slot>, format: Format)

  /** `store.Record`; a zero `FirstRestoreAt` is None. */
  datatype Record = Record(content: Content, createdAt: Time, firstRestoreAt: Option<Time>, version: nat, size: int)

  datatype Limits = Limits(maxEntries: int, maxBytes: int, maxRecordBytes: int, ttl: int, replayTtl: int)

  const RECORD_OVERHEAD := 128
  const REPLACEMENT_OVERHEAD := 32
  const INFLIGHT_OVERHEAD := 64
  const DRAIN_BATCH := 1000

  function MinRecordSize(key: Key, originalLen: nat): nat {
    RECORD_OVERHEAD + |key| + originalLen
  }

  function TableSize(table: seq<Slot>): nat {
    if table == [] then 0
    else TableSize(table[..|table| - 1]) + REPLACEMENT_OVERHEAD + |table[|table| - 1].marker|
  }

  function RecordSize(key: Key, c: Content): nat {
    RECORD_OVERHEAD + |key| + |c.original| + |c.masked| + TableSize(c.table)
  }

  predicate InReplay(r: Record) {
    r.firstRestoreAt.Some?
  }

  /** `recordExpiry`. */
  function Deadline(l: Limits, r: Record): Time {
    if r.firstRestoreAt.Some? then r.firstRestoreAt.value + l.replayTtl else r.createdAt + l.ttl
  }

  /** `isExpired`: a non-positive TTL disables expiry. */
  predicate Expired(l: Limits, r: Record, now: Time) {
    l.ttl > 0 && Deadline(l, r) <= now
  }

  /** Whether the record has a node in the expiry queue. */
  predicate Queued(l: Limits, r: Record) {
    l.ttl > 0 || InReplay(r)
  }

  // ---- Outcomes ---------------------------------------------------------------

  /** Errors of `Create`; the code of a build error is the caller's own. */
  datatype Error = ErrCapacity | ErrBusy | ErrContext | ErrBuild(code: int)

  /** What a creator hands to its waiters through the reservation. */
  datatype Outcome = Delivers(rec: Record) | Fails(error: Error)

  // ---- Observer events --------------------------------------------------------

  /** Observer notifications, counted per phase. */
  datatype Tally = Tally(addedPending: int, addedReplay: int, removedPending: int, removedReplay: int,
                         ttlPending: int, ttlReplay: int, bytesPending: int, bytesReplay: int)

  const NOTHING := Tally(0, 0, 0, 0, 0, 0, 0, 0)

  function Plus(a: Tally, b: Tally): Tally {
    Tally(a.addedPending + b.addedPending, a.addedReplay + b.addedReplay,
          a.removedPending + b.removedPending, a.removedReplay + b.removedReplay,
          a.ttlPending + b.ttlPending, a.ttlReplay + b.ttlReplay,
          a.bytesPending + b.bytesPending, a.bytesReplay + b.bytesReplay)
  }

  /** `pendingEvents.remove`. */
  function Removal(r: Record): Tally {
    if InReplay(r) then NOTHING.(removedReplay := 1, ttlReplay := 1, bytesReplay := -r.size)
    else NOTHING.(removedPending := 1, ttlPending := 1, bytesPending := -r.size)
  }

  /** `reportAdded`. */
  function Addition(size: int): Tally {
    NOTHING.(addedPending := 1, bytesPending := size)
  }

  /** What `MarkRestored` reports. */
  function Transition(size: int): Tally {
    NOTHING.(removedPending := 1, bytesPending := -size, addedReplay := 1, bytesReplay := size)
  }

  function Size(r: Record): int { r.size }
  function PendingCount(r: Record): int { if InReplay(r) then 0 else 1 }
  function ReplayCount(r: Record): int { if InReplay(r) then 1 else 0 }
  function PendingSize(r: Record): int { if InReplay(r) then 0 else r.size }
  function ReplaySize(r: Record): int { if InReplay(r) then r.size else 0 }
  function Itself(n: int): int { n }

  /** The events for removing all these records. */
  ghost function Removals(m: map<Key, Record>): Tally {
    var p, r := Total(m, PendingCount), Total(m, ReplayCount);
    Tally(0, 0, p, r, p, r, -Total(m, PendingSize), -Total(m, ReplaySize))
  }

  // ---- The state under the mutex ----------------------------------------------

  /** `active` is not a field of the source: it holds the amount of every
      reservation taken and not yet released. */
  datatype Core<!R> = Core(entries: map<Key, Record>, bytes: int, reservedBytes: int, reservedEntries: int,
                           inflight: map<Key, R>, deadlines: map<Key, Time>, nextVer: nat, active: map<R, int>)

  datatype Reason = EntryLimit | ByteLimit | RecordLimit

  /** `evictLocked`. */
  ghost function Evict<R>(c: Core<R>, key: Key): Core<R>
    requires key in c.entries
  {
    c.(entries := c.entries - {key}, bytes := c.bytes - c.entries[key].size, deadlines := c.deadlines - {key})
  }

  ghost function Get<R>(l: Limits, c: Core<R>, key: Key, now: Time): (Core<R>, Option<Record>, Tally) {
    if key !in c.entries then (c, None, NOTHING)
    else if Expired(l, c.entries[key], now) then (Evict(c, key), None, Removal(c.entries[key]))
    else (c, Some(c.entries[key]), NOTHING)
  }

  /** `gone` is a batch that `drainExpired` may remove at time `now`: expired
      records only, the earliest first, and all of them unless the batch is full. */
  ghost predicate Drains<R>(l: Limits, c: Core<R>, gone: set<Key>, now: Time) {
    && gone <= c.entries.Keys
    && |gone| <= DRAIN_BATCH
    && (forall k :: k in gone ==> Expired(l, c.entries[k], now))
    && (forall k :: k in c.entries && k !in gone && Expired(l, c.entries[k], now) ==> |gone| == DRAIN_BATCH)
    && (forall g, k :: g in gone && k in c.entries && k !in gone ==>
          Deadline(l, c.entries[g]) <= Deadline(l, c.entries[k]))
  }

  ghost function Drained<R>(c: Core<R>, gone: set<Key>): Core<R> {
    c.(entries := c.entries - gone, bytes := c.bytes - Total(Restrict(c.entries, gone), Size),
       deadlines := c.deadlines - gone)
  }

  ghost function DrainEvents<R>(c: Core<R>, gone: set<Key>): Tally {
    Removals(Restrict(c.entries, gone))
  }

  /** `reserveCapacityLocked`, as the reason for a refusal. */
  ghost function ReserveRefusal<R>(l: Limits, c: Core<R>, reserve: int): Option<Reason> {
    if l.maxEntries > 0 && |c.entries| + c.reservedEntries >= l.maxEntries then Some(EntryLimit)
    else if l.maxBytes > 0 && c.bytes + c.reservedBytes + reserve > l.maxBytes then Some(ByteLimit)
    else None
  }

  ghost function Reserved<R>(c: Core<R>, key: Key, ref: R, reserve: int): Core<R> {
    c.(reservedBytes := c.reservedBytes + reserve, reservedEntries := c.reservedEntries + 1,
       inflight := c.inflight[key := ref], active := c.active[ref := reserve])
  }

  datatype Begun<!R> = Retry | Existing(rec: Record) | Wait(ref: R) | Refused(reason: Reason) | Granted

  /** The first critical section of `Create`. */
  ghost function Begin<R>(l: Limits, c: Core<R>, key: Key, reserve: int, ref: R, gone: set<Key>, now: Time)
    : (Core<R>, Begun<R>, Tally)
  {
    if key in c.entries then
      if Expired(l, c.entries[key], now) then (Evict(c, key), Retry, Removal(c.entries[key]))
      else (c, Existing(c.entries[key]), NOTHING)
    else if key in c.inflight then (c, Wait(c.inflight[key]), NOTHING)
    else
      var d, ev := Drained(c, gone), DrainEvents(c, gone);
      match ReserveRefusal(l, d, reserve)
      case Some(reason) => (d, Refused(reason), ev)
      case None => (Reserved(d, key, ref, reserve), Granted, ev)
  }

  /** `finishInflight` and the first step of `releaseReservationLocked`. */
  ghost function Unlinked<R>(c: Core<R>, key: Key, ref: R): Core<R> {
    if key in c.inflight && c.inflight[key] == ref then c.(inflight := c.inflight - {key}) else c
  }

  /** The amounts of a reservation go back to the budget. */
  ghost function Unreserved<R>(c: Core<R>, ref: R, reserve: int): Core<R> {
    c.(reservedBytes := c.reservedBytes - reserve, reservedEntries := c.reservedEntries - 1, active := c.active - {ref})
  }

  /** `releaseReservationLocked`, the critical section of `failInflight`. */
  ghost function Released<R>(c: Core<R>, key: Key, ref: R, reserve: int): Core<R> {
    Unreserved(Unlinked(c, key, ref), ref, reserve)
  }

  /** `publishCapacityLocked`, as the reason for a refusal. */
  ghost function PublishRefusal<R>(l: Limits, c: Core<R>, size: int, reserve: int): Option<Reason> {
    if l.maxRecordBytes > 0 && size > l.maxRecordBytes then Some(RecordLimit)
    else if l.maxBytes > 0 && c.bytes + c.reservedBytes - reserve + size > l.maxBytes then Some(ByteLimit)
    else None
  }

  /** The record as it is stored. */
  ghost function Stamped<R>(c: Core<R>, key: Key, content: Content, at: Time): Record {
    Record(content, at, None, c.nextVer + 1, RecordSize(key, content))
  }

  ghost function Stored<R>(l: Limits, c: Core<R>, key: Key, rec: Record): Core<R> {
    c.(nextVer := rec.version, entries := c.entries[key := rec], bytes := c.bytes + rec.size,
       deadlines := if l.ttl > 0 then c.deadlines[key := rec.createdAt + l.ttl] else c.deadlines)
  }

  datatype Published = Stores(rec: Record) | Rejects(reason: Reason)

  /** The second critical section of `Create`: drain, then replace the reservation
      by the stored record, or release it. */
  ghost function Publish<R>(l: Limits, c: Core<R>, key: Key, ref: R, reserve: int, content: Content,
                                gone: set<Key>, at: Time)
    : (Core<R>, Published, Tally)
  {
    var d, ev := Drained(c, gone), DrainEvents(c, gone);
    var rec := Stamped(d, key, content, at);
    match PublishRefusal(l, d, rec.size, reserve)
    case Some(reason) => (Released(d, key, ref, reserve), Rejects(reason), ev)
    case None => (Stored(l, Unreserved(d, ref, reserve), key, rec), Stores(rec), ev)
  }

  function Restored(r: Record, now: Time): Record {
    r.(firstRestoreAt := Some(now))
  }

  /** The guard of `MarkRestored`. */
  ghost predicate MayRestore<R>(l: Limits, c: Core<R>, key: Key, version: nat) {
    key in c.entries && c.entries[key].version == version && !InReplay(c.entries[key]) && l.replayTtl > 0
  }

  ghost function MarkRestored<R>(l: Limits, c: Core<R>, key: Key, version: nat, now: Time): (Core<R>, bool, Tally) {
    if MayRestore(l, c, key, version) then
      var rec := Restored(c.entries[key], now);
      (c.(entries := c.entries[key := rec], deadlines := c.deadlines[key := now + l.replayTtl]), true,
       Transition(rec.size))
    else (c, false, NOTHING)
  }

  // ---- The invariant ----------------------------------------------------------

  /** `bytes` is the sum of the stored sizes. */
  ghost predicate Accounted(entries: map<Key, Record>, bytes: int) {
    bytes == Total(entries, Size)
  }

  /** Exactly one queue node for every record that can expire, at the deadline of
      the record's own phase. */
  ghost predicate Scheduled(l: Limits, entries: map<Key, Record>, deadlines: map<Key, Time>) {
    && (forall k :: k in deadlines <==> k in entries && Queued(l, entries[k]))
    && (forall k :: k in deadlines ==> deadlines[k] == Deadline(l, entries[k]))
  }

  /** The reserves are the sum and the count of the active reservations. */
  ghost predicate ReservesMatch<R>(active: map<R, int>, reservedBytes: int, reservedEntries: int) {
    && reservedBytes == Total(active, Itself)
    && reservedEntries == |active|
    && (forall r :: r in active ==> active[r] >= 0)
  }

  /** Stored and reserved amounts share one budget. */
  ghost predicate WithinBudget(l: Limits, entries: map<Key, Record>, bytes: int, reservedBytes: int,
                               reservedEntries: int) {
    && (l.maxEntries > 0 ==> |entries| + reservedEntries <= l.maxEntries)
    && (l.maxBytes > 0 ==> bytes + reservedBytes <= l.maxBytes)
  }

  ghost predicate Versioned(entries: map<Key, Record>, nextVer: nat) {
    && (forall k :: k in entries ==> 1 <= entries[k].version <= nextVer)
    && (forall j, k :: j in entries && k in entries && entries[j].version == entries[k].version ==> j == k)
    && (forall k :: k in entries ==> entries[k].size == RecordSize(k, entries[k].content))
  }

  ghost predicate Inv<R>(l: Limits, c: Core<R>) {
    && Accounted(c.entries, c.bytes)
    && Scheduled(l, c.entries, c.deadlines)
    && ReservesMatch(c.active, c.reservedBytes, c.reservedEntries)
    && WithinBudget(l, c.entries, c.bytes, c.reservedBytes, c.reservedEntries)
    && Versioned(c.entries, c.nextVer)
  }
}

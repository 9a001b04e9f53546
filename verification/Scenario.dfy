/** The load generator's pair scenarios. `Next` is one pass of its loop under the
    mutex: where the source would wait and look again, the offer is Blocked. */
module Scenarios {
  import opened Bytes
  import opened Pairs

  type Time = int

  datatype Step = Step(id: nat, payload: Bytes, isMask: bool, original: Bytes)

  datatype Offer = Issue(step: Step) | Exhausted | Blocked

  /** A step that has been issued and not yet completed. */
  ghost predicate Outstanding(lives: Lives, st: Step) {
    && st.id in lives
    && if st.isMask then lives[st.id].Masking? else lives[st.id].Held? && lives[st.id].out
  }

  /** The pair, if it is done with. */
  function Gone(lives: Lives, id: nat): set<nat> {
    if id in lives && lives[id].Over? then {id} else {}
  }

  /** The event of issuing or completing a step; a result is None unless the response
      is a valid success. */
  function IssueOf(st: Step): Event {
    if st.isMask then IssueMask(st.id) else IssueRestore(st.id)
  }

  function DoneOf(st: Step, result: Option<Bytes>): Event {
    if st.isMask then MaskDone(st.id, result.Some?) else RestoreDone(st.id, result == Some(st.original))
  }

  ghost predicate NoneTwice(s: seq<nat>) {
    forall i, j :: 0 <= i < j < |s| ==> s[i] != s[j]
  }

  ghost predicate Numbered(lives: Lives, n: nat) {
    |lives| == n && forall id: nat :: id in lives <==> id < n
  }

  lemma OneKeyMore(lives: Lives, n: nat, life: Life)
    requires n !in lives
    ensures |lives[n := life]| == |lives| + 1
  {
    assert lives[n := life].Keys == lives.Keys + {n};
  }

  lemma OneMore(lives: Lives, n: nat, life: Life)
    requires Numbered(lives, n)
    ensures Numbered(lives[n := life], n + 1)
  {
    OneKeyMore(lives, n, life);
    var lives' := lives[n := life];
    forall id: nat ensures id in lives' <==> id < n + 1 {
      assert id in lives <==> id < n;
    }
  }

  lemma SameNumber(lives: Lives, n: nat, id: nat, life: Life)
    requires Numbered(lives, n) && id in lives
    ensures Numbered(lives[id := life], n)
  {
    var lives' := lives[id := life];
    assert lives'.Keys == lives.Keys;
    assert |lives'.Keys| == |lives.Keys|;
  }

  // ---- Sequential ---------------------------------------------------------------

  class Sequential {
    const total: nat
    const restoreBudget: nat
    const restoreDelay: int
    var nextPair: nat
    var pending: seq<nat>
    var inFlight: set<nat>
    var masks: map<nat, Bytes>
    var originals: map<nat, Bytes>
    var retries: map<nat, nat>
    var readyAt: map<nat, Time>
    var clock: Time
    ghost var lives: Lives

    /** The books on one pair. */
    ghost predicate AgreesAs(id: nat, life: Life)
      reads this
    {
      match life
      case Masking =>
        && id in originals && id in retries && retries[id] == restoreBudget
        && id !in masks && id !in readyAt && id !in pending && id !in inFlight
      case Held(left, out) =>
        && id in originals && id in retries && retries[id] == left && id in masks && id in readyAt
        && (id in inFlight <==> out) && (id in pending <==> !out) && (!out ==> left > 0)
      case Over =>
        id !in originals && id !in retries && id !in masks && id !in readyAt && id !in pending && id !in inFlight
    }

    ghost predicate InBooks(id: nat)
      reads this
    {
      id in pending || id in inFlight || id in masks || id in originals || id in retries || id in readyAt
    }

    ghost predicate Agrees(id: nat)
      requires id in lives
      reads this
    {
      AgreesAs(id, lives[id])
    }

    /** The books hold exactly the unfinished pairs. */
    ghost predicate Valid()
      reads this
    {
      Shaped() && forall id :: id in lives ==> Agrees(id)
    }

    /** All of that but for one pair. */
    ghost predicate Kept(id: nat)
      reads this
    {
      Shaped() && forall x :: x in lives && x != id ==> Agrees(x)
    }

    ghost predicate Shaped()
      reads this
    {
      && restoreBudget > 0 && nextPair <= total && Numbered(lives, nextPair) && NoneTwice(pending)
      && (forall id :: InBooks(id) ==> id in lives)
    }

    constructor (total: nat, restoreBudget: int, restoreDelay: int)
      ensures Valid() && lives == map[] && this.total == total
      ensures this.restoreBudget == if restoreBudget <= 0 then 1 else restoreBudget
    {
      this.total, this.restoreDelay := total, restoreDelay;
      this.restoreBudget := if restoreBudget <= 0 then 1 else restoreBudget;
      nextPair, pending, inFlight, clock := 0, [], {}, 0;
      masks, originals, retries, readyAt, lives := map[], map[], map[], map[], map[];
    }

    method Now() returns (now: Time)
      modifies this`clock
      ensures now == clock && old(clock) <= clock
    {
      now :| clock <= now;
      clock := now;
    }

    /** `dropPair`: the books hold nothing on the pair any more, and what they hold on
        other pairs stays. */
    method DropPair(id: nat)
      modifies this`masks, this`originals, this`inFlight, this`retries, this`readyAt
      ensures id !in pending ==> AgreesAs(id, Over)
      ensures masks == old(masks) - {id} && originals == old(originals) - {id} && inFlight == old(inFlight) - {id}
      ensures retries == old(retries) - {id} && readyAt == old(readyAt) - {id}
    {
      masks := masks - {id};
      originals := originals - {id};
      inFlight := inFlight - {id};
      retries := retries - {id};
      readyAt := readyAt - {id};
    }

    /** The first pending pair may be restored now. */
    ghost predicate FirstIsReady(pending: seq<nat>, readyAt: map<nat, Time>, now: Time)
      requires pending != [] && pending[0] in readyAt
    {
      restoreDelay <= 0 || readyAt[pending[0]] + restoreDelay <= now
    }

    /** A restore is offered exactly if a pair is pending and the first one is ready, and
        then for that pair, with the mask and the text on record. A pending pair is never
        in flight and always has an attempt left, so the source's branches that skip or
        drop it cannot be reached. */
    method Next(text: Bytes) returns (offer: Offer)
      requires Valid()
      modifies this
      ensures Valid() && old(clock) <= clock && masks == old(masks) && readyAt == old(readyAt)
      ensures originals == if offer.Issue? && offer.step.isMask then old(originals)[offer.step.id := text]
                           else old(originals)
      ensures old(pending) != [] ==> old(pending)[0] in old(readyAt)
      ensures offer.Issue? && !offer.step.isMask <==>
              old(pending) != [] && FirstIsReady(old(pending), old(readyAt), clock)
      ensures offer.Issue? && !offer.step.isMask ==>
                old(pending) == [offer.step.id] + pending
      ensures !(offer.Issue? && !offer.step.isMask) ==>
                pending == if old(pending) == [] then [] else old(pending)[1..] + [old(pending)[0]]
      ensures offer.Issue? && offer.step.isMask <==> nextPair == old(nextPair) + 1
      ensures offer.Issue? || nextPair == total
      ensures match offer
              case Issue(st) =>
                && Possible(old(lives), IssueOf(st)) && lives == After(restoreBudget, old(lives), IssueOf(st))
                && (if st.isMask then st.payload == st.original == text
                    else st.id in old(masks) && st.payload == old(masks)[st.id] &&
                         st.id in old(originals) && st.original == old(originals)[st.id])
              case Exhausted =>
                lives == old(lives) && nextPair == total && forall id :: id in lives ==> !lives[id].Held?
              case Blocked => lives == old(lives) && nextPair == total && exists id :: id in lives && lives[id].Held?
    {
      assert |pending| > 0 ==> pending[0] in pending && Agrees(pending[0]);
      if |pending| > 0 {
        var id := pending[0];
        var now := Now();
        if restoreDelay > 0 && now - readyAt[id] < restoreDelay {
          PutBack(id);
        } else {
          offer := IssueFirst(id);
          return;
        }
      }
      if nextPair < total {
        offer := IssueNew(text);
        return;
      }
      if |pending| == 0 && |inFlight| == 0 {
        forall id | id in lives ensures !lives[id].Held? {
          assert Agrees(id);
        }
        return Exhausted;
      }
      assert exists id :: id in lives && lives[id].Held? by {
        if |pending| > 0 {
          assert pending[0] in pending && Agrees(pending[0]);
        } else {
          var id :| id in inFlight;
          assert Agrees(id);
        }
      }
      offer := Blocked;
    }

    /** The first pending pair is not ready: it goes to the end. */
    method PutBack(id: nat)
      requires Valid() && |pending| > 0 && pending[0] == id
      modifies this`pending
      ensures Valid() && |pending| > 0 && pending == old(pending)[1..] + [id]
    {
      ghost var was := pending;
      pending := pending[1..];
      pending := pending + [id];
      assert was == [id] + was[1..];
      assert forall x :: x in pending <==> x in was;
      forall x | x in lives ensures Agrees(x) {
        assert old(Agrees(x));
      }
    }

    method IssueFirst(id: nat) returns (offer: Offer)
      requires Valid() && |pending| > 0 && pending[0] == id
      modifies this
      ensures Valid() && id in old(masks) && id in old(originals)
      ensures masks == old(masks) && originals == old(originals) && readyAt == old(readyAt)
      ensures pending == old(pending)[1..] && clock == old(clock) && nextPair == old(nextPair)
      ensures offer == Issue(Step(id, old(masks)[id], false, old(originals)[id]))
      ensures Possible(old(lives), IssueRestore(id)) && lives == After(restoreBudget, old(lives), IssueRestore(id))
    {
      ghost var was := pending;
      assert id in pending && Agrees(id);
      pending := pending[1..];
      inFlight := inFlight + {id};
      retries := retries[id := retries[id] - 1];
      lives := After(restoreBudget, lives, IssueRestore(id));
      SameNumber(old(lives), nextPair, id, lives[id]);
      assert was == [id] + pending;
      assert forall x :: x in was <==> x == id || x in pending;
      forall x | x in lives ensures Agrees(x) {
        assert old(Agrees(x));
      }
      offer := Issue(Step(id, masks[id], false, originals[id]));
    }

    method IssueNew(text: Bytes) returns (offer: Offer)
      requires Valid() && nextPair < total
      modifies this
      ensures Valid() && offer == Issue(Step(old(nextPair), text, true, text)) && nextPair == old(nextPair) + 1
      ensures masks == old(masks) && originals == old(originals)[old(nextPair) := text] && readyAt == old(readyAt)
      ensures pending == old(pending) && clock == old(clock)
      ensures Possible(old(lives), IssueMask(old(nextPair)))
      ensures lives == After(restoreBudget, old(lives), IssueMask(old(nextPair)))
    {
      var id := nextPair;
      nextPair := nextPair + 1;
      originals := originals[id := text];
      retries := retries[id := restoreBudget];
      OneMore(lives, id, Masking);
      lives := After(restoreBudget, lives, IssueMask(id));
      forall x | x in lives ensures Agrees(x) {
        assert x != id ==> old(Agrees(x));
      }
      offer := Issue(Step(id, text, true, text));
    }

    /** The result of a step is recorded, at most once for every step issued: a mask with
        the time it came, and nothing of a pair that is done with. A pair that waits for a
        restore is the last of those pending. */
    method Complete(st: Step, result: Option<Bytes>)
      requires Valid() && Outstanding(lives, st)
      modifies this
      ensures Valid() && Possible(old(lives), DoneOf(st, result)) && old(clock) <= clock && nextPair == old(nextPair)
      ensures lives == After(restoreBudget, old(lives), DoneOf(st, result))
      ensures st.isMask && result.Some? ==>
                masks == old(masks)[st.id := result.value] && readyAt == old(readyAt)[st.id := clock]
      ensures !st.isMask || result.None? ==>
                masks == old(masks) - Gone(lives, st.id) && readyAt == old(readyAt) - Gone(lives, st.id)
      ensures originals == old(originals) - Gone(lives, st.id)
      ensures pending == if lives[st.id].Held? then old(pending) + [st.id] else old(pending)
    {
      if st.isMask {
        CompleteMask(st.id, result);
      } else {
        CompleteRestore(st.id, result == Some(st.original));
      }
    }

    method CompleteMask(id: nat, result: Option<Bytes>)
      requires Valid() && id in lives && lives[id].Masking?
      modifies this
      ensures Valid() && lives == After(restoreBudget, old(lives), MaskDone(id, result.Some?))
      ensures old(clock) <= clock && nextPair == old(nextPair)
      ensures result.Some? ==>
                && masks == old(masks)[id := result.value] && readyAt == old(readyAt)[id := clock]
                && originals == old(originals) && pending == old(pending) + [id]
      ensures result.None? ==>
                && masks == old(masks) - {id} && readyAt == old(readyAt) - {id} && originals == old(originals) - {id}
                && pending == old(pending)
    {
      assert Agrees(id);
      if result.None? {
        DropPair(id);
      } else if id !in masks {
        MaskKnown(id, result.value);
      }
      forall x | x in lives && x != id ensures Agrees(x) {
        assert old(Agrees(x));
      }
      Settle(id, if result.Some? then Held(restoreBudget, false) else Over);
    }

    method MaskKnown(id: nat, mask: Bytes)
      modifies this`masks, this`readyAt, this`pending, this`clock
      ensures masks == old(masks)[id := mask] && readyAt == old(readyAt)[id := clock] && old(clock) <= clock
      ensures pending == old(pending) + [id]
    {
      masks := masks[id := mask];
      var now := Now();
      readyAt := readyAt[id := now];
      pending := pending + [id];
    }

    method CompleteRestore(id: nat, restored: bool)
      requires Valid() && id in lives && lives[id].Held? && lives[id].out
      modifies this
      ensures Valid() && lives == After(restoreBudget, old(lives), RestoreDone(id, restored))
      ensures clock == old(clock) && nextPair == old(nextPair)
      ensures masks == old(masks) - Gone(lives, id) && readyAt == old(readyAt) - Gone(lives, id)
      ensures originals == old(originals) - Gone(lives, id)
      ensures pending == if lives[id].Held? then old(pending) + [id] else old(pending)
    {
      assert Agrees(id);
      if restored {
        DropPair(id);
      } else {
        inFlight := inFlight - {id};
        if retries[id] > 0 {
          pending := pending + [id];
        } else {
          DropPair(id);
        }
      }
      forall x | x in lives && x != id ensures Agrees(x) {
        assert old(Agrees(x));
      }
      Settle(id, After(restoreBudget, lives, RestoreDone(id, restored))[id]);
    }

    /** With the books on all pairs in order, the life of this one follows them. */
    ghost method Settle(id: nat, life: Life)
      requires id in lives && AgreesAs(id, life) && Kept(id)
      modifies this`lives
      ensures Valid() && lives == old(lives)[id := life]
    {
      SameNumber(lives, nextPair, id, life);
      lives := lives[id := life];
      forall x | x in lives ensures Agrees(x) {
        assert x != id ==> old(Agrees(x));
      }
    }
  }

  // ---- Mask dominant --------------------------------------------------------------

  datatype PairState = PairState(id: nat, mask: Bytes, original: Bytes)

  /** s without the element at i. */
  function Without(s: seq<nat>, i: nat): seq<nat>
    requires i < |s|
  {
    s[..i] + s[i + 1..]
  }

  lemma WithoutIs(s: seq<nat>, i: nat)
    requires i < |s| && NoneTwice(s)
    ensures NoneTwice(Without(s, i)) && forall x :: x in Without(s, i) <==> x in s && x != s[i]
  {
    var t := Without(s, i);
    forall x ensures x in t <==> x in s && x != s[i] {
      if x in s && x != s[i] {
        var j :| 0 <= j < |s| && s[j] == x;
        assert t[if j < i then j else j - 1] == x;
      }
    }
  }

  class MaskDominant {
    const total: nat
    const restoreBudget: nat
    const restoreDelay: int
    var nextPair: nat
    var pending: map<nat, PairState>
    var pendingOrder: seq<nat>
    var inFlight: set<nat>
    var retries: map<nat, nat>
    var readyAt: map<nat, Time>
    var clock: Time
    ghost var lives: Lives

    /** The books on one pair: it enters them when its mask is known, and stays in
        them while its restore is in flight. */
    ghost predicate AgreesAs(id: nat, life: Life)
      reads this
    {
      match life
      case Held(left, out) =>
        && id in pending && pending[id].id == id && id in pendingOrder && id in retries && retries[id] == left
        && id in readyAt && (id in inFlight <==> out) && (!out ==> left > 0)
      case _ => id !in pending && id !in pendingOrder && id !in retries && id !in readyAt && id !in inFlight
    }

    ghost predicate Agrees(id: nat)
      requires id in lives
      reads this
    {
      AgreesAs(id, lives[id])
    }

    /** The books hold exactly the pairs that are masked and unfinished. */
    ghost predicate Valid()
      reads this
    {
      Shaped() && forall id :: id in lives ==> Agrees(id)
    }

    ghost predicate Kept(id: nat)
      reads this
    {
      Shaped() && forall x :: x in lives && x != id ==> Agrees(x)
    }

    ghost predicate Shaped()
      reads this
    {
      && restoreBudget > 0 && nextPair <= total && Numbered(lives, nextPair) && NoneTwice(pendingOrder)
      && (forall id :: id in pending || id in pendingOrder || id in inFlight || id in retries || id in readyAt
            ==> id in lives)
    }

    constructor (total: nat, restoreBudget: int, restoreDelay: int)
      ensures Valid() && lives == map[] && this.total == total
      ensures this.restoreBudget == if restoreBudget <= 0 then 1 else restoreBudget
    {
      this.total, this.restoreDelay := total, restoreDelay;
      this.restoreBudget := if restoreBudget <= 0 then 1 else restoreBudget;
      nextPair, pending, pendingOrder, inFlight, clock := 0, map[], [], {}, 0;
      retries, readyAt, lives := map[], map[], map[];
    }

    method Now() returns (now: Time)
      modifies this`clock
      ensures now == clock && old(clock) <= clock
    {
      now :| clock <= now;
      clock := now;
    }

    /** Whatever pair is picked can be restored now. */
    ghost predicate AllReady()
      reads this
    {
      pendingOrder != [] &&
      forall id :: id in pendingOrder ==>
        id !in inFlight && (restoreDelay <= 0 || (id in readyAt && readyAt[id] + restoreDelay <= clock))
    }

    /** `prefer` is the random draw of the source falling below the restore share. */
    method Next(text: Bytes, prefer: bool) returns (offer: Offer)
      requires Valid()
      modifies this
      ensures Valid() && old(clock) <= clock && pending == old(pending) && readyAt == old(readyAt)
      ensures offer.Issue? && !offer.step.isMask ==>
                && (prefer || nextPair == total) && offer.step.id in readyAt
                && (restoreDelay <= 0 || readyAt[offer.step.id] + restoreDelay <= clock)
      ensures old(AllReady()) && (prefer || old(nextPair) == total) ==> offer.Issue? && !offer.step.isMask
      ensures offer.Issue? && offer.step.isMask <==> nextPair == old(nextPair) + 1
      ensures match offer
              case Issue(st) =>
                && Possible(old(lives), IssueOf(st)) && lives == After(restoreBudget, old(lives), IssueOf(st))
                && (if st.isMask then st.payload == st.original == text
                    else st.id in old(pending) && old(pending)[st.id] == PairState(st.id, st.payload, st.original))
              case Exhausted =>
                lives == old(lives) && nextPair == total && forall id :: id in lives ==> !lives[id].Held?
              case Blocked => lives == old(lives) && nextPair == total && exists id :: id in lives && lives[id].Held?
    {
      if |pendingOrder| > 0 && prefer {
        offer := TryRestore();
        if offer.Issue? {
          return;
        }
      }
      if nextPair < total {
        var id := nextPair;
        nextPair := nextPair + 1;
        OneMore(lives, id, Masking);
        lives := After(restoreBudget, lives, IssueMask(id));
        forall x | x in lives ensures Agrees(x) {
          assert x != id ==> old(Agrees(x));
        }
        return Issue(Step(id, text, true, text));
      }
      offer := TryRestore();
      if offer.Issue? {
        return;
      }
      if |pendingOrder| == 0 {
        forall id | id in lives ensures !lives[id].Held? {
          assert Agrees(id);
        }
        return Exhausted;
      }
      assert pendingOrder[0] in pendingOrder && Agrees(pendingOrder[0]);
    }

    /** `tryRestoreLocked`: as many random picks as there are pending pairs. A picked
        pair that is not in flight has an attempt left, so the source's branch that
        drops it cannot be reached. */
    method TryRestore() returns (offer: Offer)
      requires Valid()
      modifies this
      ensures Valid() && nextPair == old(nextPair) && pendingOrder == old(pendingOrder)
      ensures old(clock) <= clock && pending == old(pending) && readyAt == old(readyAt)
      ensures offer.Issue? ==>
                && offer.step.id in readyAt
                && (restoreDelay <= 0 || readyAt[offer.step.id] + restoreDelay <= clock)
      ensures old(AllReady()) ==> offer.Issue?
      ensures match offer
              case Issue(st) =>
                && !st.isMask && Possible(old(lives), IssueRestore(st.id))
                && lives == After(restoreBudget, old(lives), IssueRestore(st.id))
                && st.id in old(pending) && old(pending)[st.id] == PairState(st.id, st.payload, st.original)
              case _ => offer == Blocked && lives == old(lives) && pending == old(pending)
    {
      for i := 0 to |pendingOrder|
        invariant Valid() && nextPair == old(nextPair) && lives == old(lives) && pending == old(pending)
        invariant pendingOrder == old(pendingOrder) && readyAt == old(readyAt) && old(clock) <= clock
        invariant inFlight == old(inFlight) && (old(AllReady()) ==> i == 0)
      {
        var idx :| 0 <= idx < |pendingOrder|;
        var id := pendingOrder[idx];
        assert id in pendingOrder && Agrees(id);
        if id in inFlight {
          continue;
        }
        if restoreDelay > 0 {
          var now := Now();
          if now - readyAt[id] < restoreDelay {
            continue;
          }
        }
        offer := IssuePending(id);
        return;
      }
      offer := Blocked;
    }

    method IssuePending(id: nat) returns (offer: Offer)
      requires Valid() && id in pendingOrder && id !in inFlight
      modifies this`inFlight, this`retries, this`lives
      ensures Valid() && id in pending && offer == Issue(Step(id, pending[id].mask, false, pending[id].original))
      ensures Possible(old(lives), IssueRestore(id)) && lives == After(restoreBudget, old(lives), IssueRestore(id))
      ensures pending[id] == PairState(id, pending[id].mask, pending[id].original)
    {
      hide NoneTwice, Numbered;
      assert Agrees(id);
      var st := pending[id];
      inFlight := inFlight + {id};
      retries := retries[id := retries[id] - 1];
      forall x | x in lives && x != id ensures Agrees(x) {
        assert old(Agrees(x));
      }
      Settle(id, Held(lives[id].left - 1, true));
      offer := Issue(Step(id, st.mask, false, st.original));
    }

    /** `removePending`. */
    method RemovePending(id: nat)
      requires NoneTwice(pendingOrder) && (id in pending ==> id in pendingOrder)
      modifies this`pending, this`retries, this`readyAt, this`pendingOrder
      ensures id !in old(pending) ==> pending == old(pending) && retries == old(retries) && readyAt == old(readyAt) &&
                                      pendingOrder == old(pendingOrder)
      ensures id in old(pending) ==>
                && pending == old(pending) - {id} && retries == old(retries) - {id} && readyAt == old(readyAt) - {id}
                && NoneTwice(pendingOrder) && forall x :: x in pendingOrder <==> x in old(pendingOrder) && x != id
    {
      if id !in pending {
        return;
      }
      pending := pending - {id};
      retries := retries - {id};
      readyAt := readyAt - {id};
      for i := 0 to |pendingOrder|
        invariant pendingOrder == old(pendingOrder) && forall j :: 0 <= j < i ==> pendingOrder[j] != id
      {
        if pendingOrder[i] == id {
          WithoutIs(pendingOrder, i);
          pendingOrder := pendingOrder[..i] + pendingOrder[i + 1..];
          return;
        }
      }
    }

    /** The result of a step is recorded, at most once for every step issued: a mask with
        its text and the time it came, and nothing of a pair that is done with. */
    method Complete(st: Step, result: Option<Bytes>)
      requires Valid() && Outstanding(lives, st)
      modifies this
      ensures Valid() && Possible(old(lives), DoneOf(st, result)) && old(clock) <= clock && nextPair == old(nextPair)
      ensures lives == After(restoreBudget, old(lives), DoneOf(st, result))
      ensures st.isMask && result.Some? ==>
                && pending == old(pending)[st.id := PairState(st.id, result.value, st.original)]
                && readyAt == old(readyAt)[st.id := clock]
      ensures !st.isMask || result.None? ==>
                pending == old(pending) - Gone(lives, st.id) && readyAt == old(readyAt) - Gone(lives, st.id)
    {
      if st.isMask {
        CompleteMask(st, result);
      } else {
        CompleteRestore(st.id, result == Some(st.original));
      }
    }

    method CompleteMask(st: Step, result: Option<Bytes>)
      requires Valid() && st.id in lives && lives[st.id].Masking?
      modifies this
      ensures Valid() && lives == After(restoreBudget, old(lives), MaskDone(st.id, result.Some?))
      ensures old(clock) <= clock && nextPair == old(nextPair)
      ensures result.Some? ==>
                && pending == old(pending)[st.id := PairState(st.id, result.value, st.original)]
                && readyAt == old(readyAt)[st.id := clock]
      ensures result.None? ==> pending == old(pending) - {st.id} && readyAt == old(readyAt) - {st.id}
    {
      var id := st.id;
      assert Agrees(id);
      if result.None? {
        RemovePending(id);
      } else if id !in pending {
        MaskKnown(id, result.value, st.original);
      }
      forall x | x in lives && x != id ensures Agrees(x) {
        assert old(Agrees(x));
      }
      Settle(id, if result.Some? then Held(restoreBudget, false) else Over);
    }

    method MaskKnown(id: nat, mask: Bytes, original: Bytes)
      modifies this`pending, this`pendingOrder, this`retries, this`readyAt, this`clock
      ensures pending == old(pending)[id := PairState(id, mask, original)] && pendingOrder == old(pendingOrder) + [id]
      ensures retries == old(retries)[id := restoreBudget] && readyAt == old(readyAt)[id := clock]
      ensures old(clock) <= clock
    {
      pending := pending[id := PairState(id, mask, original)];
      pendingOrder := pendingOrder + [id];
      retries := retries[id := restoreBudget];
      var now := Now();
      readyAt := readyAt[id := now];
    }

    method CompleteRestore(id: nat, restored: bool)
      requires Valid() && id in lives && lives[id].Held? && lives[id].out
      modifies this
      ensures Valid() && lives == After(restoreBudget, old(lives), RestoreDone(id, restored))
      ensures clock == old(clock) && nextPair == old(nextPair)
      ensures pending == old(pending) - Gone(lives, id) && readyAt == old(readyAt) - Gone(lives, id)
    {
      assert Agrees(id);
      if restored {
        RemovePending(id);
        inFlight := inFlight - {id};
      } else {
        inFlight := inFlight - {id};
        if retries[id] <= 0 {
          RemovePending(id);
        }
      }
      forall x | x in lives && x != id ensures Agrees(x) {
        assert old(Agrees(x));
      }
      Settle(id, After(restoreBudget, lives, RestoreDone(id, restored))[id]);
    }

    /** With the books on all pairs in order, the life of this one follows them. */
    ghost method Settle(id: nat, life: Life)
      requires id in lives && AgreesAs(id, life) && Kept(id)
      modifies this`lives
      ensures Valid() && lives == old(lives)[id := life]
    {
      SameNumber(lives, nextPair, id, life);
      lives := lives[id := life];
      forall x | x in lives ensures Agrees(x) {
        assert x != id ==> old(Agrees(x));
      }
    }
  }
}

/**
 The blind mailbox (services/phantom.rs): a map of first-in first-out queues with a cap per
 slot, a global cap with oldest-first eviction, a byte budget and a time to live.
 */
module DeadDrop {
  import opened Wrappers
  import opened Strings

  const ENVELOPE_TTL_MS: nat := 86_400_000
  const MAX_ENV_PER_SLOT: nat := 16
  const MAX_TOTAL_ENVELOPES: nat := 100_000
  const MAX_SLOTS_PER_POLL: nat := 64
  const MAX_WANT: nat := 8
  const MAX_TOTAL_BYTES: nat := 0x400_0000

  datatype Envelope = Envelope(
    pv: nat, slotId: string, recipientFp: string, senderHint: string, bucket: nat, ct: string)

  datatype Stored = Stored(envelope: Envelope, expiresAt: nat)

  type Queue = seq<Stored>
  type Slots = map<string, Queue>

  function QueueOf(slots: Slots, slot: string): Queue
  {
    if slot in slots then slots[slot] else []
  }

  // ----- sums over all queues

  function Len(q: Queue): nat { |q| }

  /** The ciphertext of an envelope is any text; its size is its length in UTF-8 bytes. */
  function Size(envelope: Envelope): nat
  {
    Utf8Length(envelope.ct)
  }

  function QueueBytes(q: Queue): nat
  {
    if q == [] then 0 else Size(q[0].envelope) + QueueBytes(q[1..])
  }

  ghost function Weigh(slots: Slots, w: Queue -> nat): nat
    decreases slots.Keys
  {
    if slots == map[] then 0
    else
      var slot :| slot in slots;
      w(slots[slot]) + Weigh(slots - {slot}, w)
  }

  lemma {:induction false} WeighPick(slots: Slots, slot: string, w: Queue -> nat)
    requires slot in slots
    ensures Weigh(slots, w) == w(slots[slot]) + Weigh(slots - {slot}, w)
    decreases slots.Keys
  {
    var first :| first in slots && Weigh(slots, w) == w(slots[first]) + Weigh(slots - {first}, w);
    if first != slot {
      WeighPick(slots - {first}, slot, w);
      WeighPick(slots - {slot}, first, w);
      assert slots - {first} - {slot} == slots - {slot} - {first};
    }
  }

  lemma WeighUpdate(slots: Slots, slot: string, q: Queue, w: Queue -> nat)
    requires w([]) == 0
    ensures Weigh(slots[slot := q], w) == Weigh(slots, w) - w(QueueOf(slots, slot)) + w(q)
    ensures Weigh(slots - {slot}, w) == Weigh(slots, w) - w(QueueOf(slots, slot))
  {
    WeighPick(slots[slot := q], slot, w);
    assert slots[slot := q] - {slot} == slots - {slot};
    if slot in slots {
      WeighPick(slots, slot, w);
    } else {
      assert slots - {slot} == slots;
    }
  }

  ghost function Count(slots: Slots): nat { Weigh(slots, Len) }

  ghost function Bytes(slots: Slots): nat { Weigh(slots, QueueBytes) }

  // ----- the operations on the map of queues

  /** Pops expired entries from the front, and stops at the first live one. */
  function DropExpired(q: Queue, now: nat): (live: Queue)
    ensures |live| <= |q| && live == q[|q| - |live|..]
    ensures live != [] ==> live[0].expiresAt > now
  {
    if q != [] && q[0].expiresAt <= now then DropExpired(q[1..], now) else q
  }

  ghost function Sweep(slots: Slots, now: nat): Slots
  {
    map slot | slot in slots && DropExpired(slots[slot], now) != [] :: DropExpired(slots[slot], now)
  }

  function Capped(q: Queue): Queue
  {
    if |q| > MAX_ENV_PER_SLOT then q[|q| - MAX_ENV_PER_SLOT..] else q
  }

  /** A slot whose front entry expires no later than any other slot's front entry. */
  predicate IsOldestSlot(slots: Slots, slot: string)
  {
    && slot in slots && slots[slot] != []
    && forall other :: other in slots && slots[other] != [] ==> slots[slot][0].expiresAt <= slots[other][0].expiresAt
  }

  function PopFront(slots: Slots, slot: string): Slots
    requires slot in slots && slots[slot] != []
  {
    if |slots[slot]| == 1 then slots - {slot} else slots[slot := slots[slot][1..]]
  }

  /** Each victim in turn was the oldest slot while the store was over its cap. */
  ghost predicate Evictable(slots: Slots, victims: seq<string>)
  {
    victims == [] || (Count(slots) > MAX_TOTAL_ENVELOPES && IsOldestSlot(slots, victims[0])
                      && Evictable(PopFront(slots, victims[0]), victims[1..]))
  }

  ghost function Evict(slots: Slots, victims: seq<string>): Slots
    requires Evictable(slots, victims)
  {
    if victims == [] then slots else Evict(PopFront(slots, victims[0]), victims[1..])
  }

  function Push(slots: Slots, envelope: Envelope, now: nat): Slots
  {
    slots[envelope.slotId := Capped(QueueOf(slots, envelope.slotId) + [Stored(envelope, now + ENVELOPE_TTL_MS)])]
  }

  /** The state after the push, before evictions: swept only when over the global cap. */
  ghost function PushAndSweep(slots: Slots, envelope: Envelope, now: nat): Slots
  {
    var pushed := Push(slots, envelope, now);
    if Count(pushed) > MAX_TOTAL_ENVELOPES then Sweep(pushed, now) else pushed
  }

  /** `victims` is a complete series of evictions for this deposit (ties are broken by map order). */
  ghost predicate ValidVictims(slots: Slots, envelope: Envelope, now: nat, victims: seq<string>)
  {
    && Evictable(PushAndSweep(slots, envelope, now), victims)
    && Count(Evict(PushAndSweep(slots, envelope, now), victims)) <= MAX_TOTAL_ENVELOPES
  }

  ghost function DepositSlots(slots: Slots, envelope: Envelope, now: nat, victims: seq<string>): Slots
    requires ValidVictims(slots, envelope, now, victims)
  {
    Evict(PushAndSweep(slots, envelope, now), victims)
  }

  function ClaimResult(slots: Slots, slot: string, now: nat): Option<Envelope>
  {
    var q := DropExpired(QueueOf(slots, slot), now);
    if q == [] then None else Some(q[0].envelope)
  }

  /** An emptied queue stays in the map when every entry had expired, and goes when the last one is claimed. */
  function ClaimSlots(slots: Slots, slot: string, now: nat): Slots
  {
    var q := DropExpired(QueueOf(slots, slot), now);
    if slot !in slots then slots
    else if q == [] then slots[slot := []]
    else PopFront(slots[slot := q], slot)
  }

  /**
   A slot is left with an empty queue exactly when everything in it had expired: the queue is
   emptied first, and only a successful claim removes an emptied queue.
   */
  lemma EmptyQueueLeftIff(slots: Slots, slot: string, now: nat)
    ensures HasEmptyQueue(ClaimSlots(slots, slot, now), slot) <==> slot in slots && DropExpired(slots[slot], now) == []
  {
    if slot in slots && DropExpired(slots[slot], now) != [] {
      PopFrontLeavesNone(slots[slot := DropExpired(slots[slot], now)], slot);
    }
  }

  predicate HasEmptyQueue(slots: Slots, slot: string)
  {
    slot in slots && slots[slot] == []
  }

  lemma PopFrontLeavesNone(slots: Slots, slot: string)
    requires slot in slots && slots[slot] != []
    ensures !HasEmptyQueue(PopFront(slots, slot), slot)
  {
  }

  lemma {:induction false} EvictLeavesNone(slots: Slots, victims: seq<string>, slot: string)
    requires Evictable(slots, victims) && !HasEmptyQueue(slots, slot)
    ensures !HasEmptyQueue(Evict(slots, victims), slot)
    decreases |victims|
  {
    if victims != [] {
      PopFrontLeavesNone(slots, victims[0]);
      EvictLeavesNone(PopFront(slots, victims[0]), victims[1..], slot);
    }
  }

  /** No deposit and no sweep ever leaves a slot with an empty queue that was not there before. */
  lemma OnlyClaimsLeaveEmptyQueues(slots: Slots, slot: string, envelope: Envelope, now: nat, victims: seq<string>)
    requires ValidVictims(slots, envelope, now, victims)
    ensures !HasEmptyQueue(Sweep(slots, now), slot)
    ensures HasEmptyQueue(DepositSlots(slots, envelope, now, victims), slot) ==> HasEmptyQueue(slots, slot)
  {
    if !HasEmptyQueue(slots, slot) {
      assert !HasEmptyQueue(Push(slots, envelope, now), slot);
      EvictLeavesNone(PushAndSweep(slots, envelope, now), victims, slot);
    }
  }

  // ----- the store

  lemma SomeQueueNonEmpty(slots: Slots)
    requires Count(slots) > 0
    ensures exists slot :: IsOldestSlot(slots, slot)
    decreases slots.Keys
  {
    var slot :| slot in slots;
    WeighPick(slots, slot, Len);
    var rest := slots - {slot};
    assert forall other :: other in slots ==> other == slot || (other in rest && rest[other] == slots[other]);
    if Count(rest) > 0 {
      SomeQueueNonEmpty(rest);
      var oldest :| IsOldestSlot(rest, oldest);
      if slots[slot] != [] && slots[slot][0].expiresAt < rest[oldest][0].expiresAt {
        assert IsOldestSlot(slots, slot);
      } else {
        assert IsOldestSlot(slots, oldest);
      }
    } else {
      forall other | other in rest ensures rest[other] == [] {
        WeighPick(rest, other, Len);
      }
      assert IsOldestSlot(slots, slot);
    }
  }

  lemma {:induction false} EvictAppend(slots: Slots, victims: seq<string>, slot: string)
    requires Evictable(slots, victims)
    requires Count(Evict(slots, victims)) > MAX_TOTAL_ENVELOPES && IsOldestSlot(Evict(slots, victims), slot)
    ensures Evictable(slots, victims + [slot])
    ensures Evict(slots, victims + [slot]) == PopFront(Evict(slots, victims), slot)
    decreases |victims|
  {
    if victims == [] {
      assert victims + [slot] == [slot];
      assert Evictable(PopFront(slots, slot), []);
    } else {
      assert (victims + [slot])[1..] == victims[1..] + [slot];
      EvictAppend(PopFront(slots, victims[0]), victims[1..], slot);
    }
  }

  lemma PopFrontCount(slots: Slots, slot: string)
    requires slot in slots && slots[slot] != []
    ensures Count(PopFront(slots, slot)) == Count(slots) - 1
  {
    WeighUpdate(slots, slot, slots[slot][1..], Len);
  }

  method PopExpired(queue: Queue, now: nat) returns (live: Queue)
    ensures live == DropExpired(queue, now)
  {
    live := queue;
    while live != [] && live[0].expiresAt <= now
      invariant DropExpired(live, now) == DropExpired(queue, now)
    {
      live := live[1..];
    }
  }

  /** The slots outside `pending` are swept, the others untouched. */
  ghost predicate PartlySwept(before: Slots, current: Slots, pending: set<string>, now: nat)
  {
    && pending <= current.Keys <= before.Keys
    && (forall slot :: slot in pending ==> current[slot] == before[slot])
    && (forall slot :: slot in before && slot !in pending ==>
          if DropExpired(before[slot], now) == [] then slot !in current
          else slot in current && current[slot] == DropExpired(before[slot], now))
  }

  lemma SweepSlot(before: Slots, current: Slots, pending: set<string>, now: nat, slot: string)
    requires PartlySwept(before, current, pending, now) && slot in pending
    ensures var live := DropExpired(before[slot], now);
            var after := if live == [] then current - {slot} else current[slot := live];
            && PartlySwept(before, after, pending - {slot}, now)
            && Count(after) == Count(current) - |before[slot]| + |live|
  {
    WeighUpdate(current, slot, DropExpired(before[slot], now), Len);
  }

  lemma FullySwept(before: Slots, current: Slots, now: nat)
    requires PartlySwept(before, current, {}, now)
    ensures current == Sweep(before, now)
  {
  }

  class DeadDropStore {
    var slots: Slots

    constructor ()
      ensures slots == map[]
    {
      slots := map[];
    }

    method LiveCount() returns (n: nat)
      ensures n == Count(slots)
    {
      n := 0;
      var rest := slots;
      while rest != map[]
        invariant n + Count(rest) == Count(slots)
        decreases rest.Keys
      {
        var slot :| slot in rest;
        WeighPick(rest, slot, Len);
        n := n + |rest[slot]|;
        rest := rest - {slot};
      }
    }

    method LiveBytes() returns (n: nat)
      ensures n == Bytes(slots)
    {
      n := 0;
      var rest := slots;
      while rest != map[]
        invariant n + Bytes(rest) == Bytes(slots)
        decreases rest.Keys
      {
        var slot :| slot in rest;
        WeighPick(rest, slot, QueueBytes);
        n := n + QueueBytes(rest[slot]);
        rest := rest - {slot};
      }
    }

    method SweepExpired(now: nat) returns (removed: nat)
      modifies this
      ensures slots == Sweep(old(slots), now)
      ensures removed == Count(old(slots)) - Count(slots)
    {
      removed := 0;
      var pending := slots.Keys;
      while pending != {}
        invariant PartlySwept(old(slots), slots, pending, now)
        invariant removed == Count(old(slots)) - Count(slots)
        decreases pending
      {
        var slot :| slot in pending;
        var live := PopExpired(slots[slot], now);
        SweepSlot(old(slots), slots, pending, now, slot);
        removed := removed + (|slots[slot]| - |live|);
        slots := if live == [] then slots - {slot} else slots[slot := live];
        pending := pending - {slot};
      }
      FullySwept(old(slots), slots, now);
    }

    method Deposit(envelope: Envelope, now: nat) returns (ghost victims: seq<string>)
      modifies this
      ensures ValidVictims(old(slots), envelope, now, victims)
      ensures slots == DepositSlots(old(slots), envelope, now, victims)
    {
      var slot := envelope.slotId;
      var queue := QueueOf(slots, slot) + [Stored(envelope, now + ENVELOPE_TTL_MS)];
      while |queue| > MAX_ENV_PER_SLOT
        invariant Capped(queue) == Capped(QueueOf(slots, slot) + [Stored(envelope, now + ENVELOPE_TTL_MS)])
      {
        queue := queue[1..];
      }
      slots := slots[slot := queue];
      assert slots == Push(old(slots), envelope, now);

      victims := [];
      var live := LiveCount();
      if live > MAX_TOTAL_ENVELOPES {
        var _ := SweepExpired(now);
        ghost var start := slots;
        live := LiveCount();
        while live > MAX_TOTAL_ENVELOPES
          invariant live == Count(slots)
          invariant Evictable(start, victims) && slots == Evict(start, victims)
          decreases live
        {
          // The source also handles "no slot has an entry"; over the cap there always is one.
          SomeQueueNonEmpty(slots);
          var oldest :| IsOldestSlot(slots, oldest);
          EvictAppend(start, victims, oldest);
          PopFrontCount(slots, oldest);
          victims := victims + [oldest];
          slots := PopFront(slots, oldest);
          live := LiveCount();
        }
      }
    }

    method TryDeposit(envelope: Envelope, now: nat) returns (ok: bool, ghost victims: seq<string>)
      modifies this
      ensures ok <==> Bytes(old(slots)) + Size(envelope) <= MAX_TOTAL_BYTES
      ensures ok ==> ValidVictims(old(slots), envelope, now, victims)
      ensures ok ==> slots == DepositSlots(old(slots), envelope, now, victims)
      ensures !ok ==> slots == old(slots)
    {
      victims := [];
      var bytes := LiveBytes();
      if bytes + Size(envelope) > MAX_TOTAL_BYTES {
        return false, [];
      }
      victims := Deposit(envelope, now);
      ok := true;
    }

    method Claim(slot: string, now: nat) returns (envelope: Option<Envelope>)
      modifies this
      ensures envelope == ClaimResult(old(slots), slot, now)
      ensures slots == ClaimSlots(old(slots), slot, now)
    {
      if slot !in slots {
        return None;
      }
      var queue := PopExpired(slots[slot], now);
      slots := slots[slot := queue];
      if queue == [] {
        return None;
      }
      envelope := Some(queue[0].envelope);
      queue := queue[1..];
      slots := if queue == [] then slots - {slot} else slots[slot := queue];
    }

    /** The claim loop of `poll`, under the store's lock; `None` when too many slots are named. */
    method Poll(names: seq<string>, want: nat, now: nat) returns (frames: Option<seq<Option<Envelope>>>)
      modifies this
      ensures |names| > MAX_SLOTS_PER_POLL ==> frames == None && slots == old(slots)
      ensures |names| <= MAX_SLOTS_PER_POLL ==>
                var n := if want < MAX_WANT then want else MAX_WANT;
                var asked := if n < |names| then names[..n] else names;
                && frames.Some? && |frames.value| == n
                && frames.value[..|asked|] == Claims(old(slots), asked, now).frames
                && (forall i :: |asked| <= i < n ==> frames.value[i] == None)
                && slots == Claims(old(slots), asked, now).slots
    {
      if |names| > MAX_SLOTS_PER_POLL {
        return None;
      }
      var n := if want < MAX_WANT then want else MAX_WANT;
      var asked := if n < |names| then names[..n] else names;
      var out := ClaimEach(asked, now);
      out := Padded(out, n);
      return Some(out);
    }

    method ClaimEach(asked: seq<string>, now: nat) returns (out: seq<Option<Envelope>>)
      modifies this
      ensures Claimed(slots, out) == Claims(old(slots), asked, now)
      ensures |out| == |asked|
    {
      out := [];
      for i := 0 to |asked|
        invariant Claimed(slots, out) == Claims(old(slots), asked[..i], now)
        invariant |out| == i
      {
        ClaimsStep(old(slots), asked, i, now);
        var envelope := Claim(asked[i], now);
        out := out + [envelope];
      }
      assert asked[..|asked|] == asked;
    }
  }

  /** Null frames up to the number asked for. */
  method Padded(frames: seq<Option<Envelope>>, n: nat) returns (out: seq<Option<Envelope>>)
    requires |frames| <= n
    ensures |out| == n && out[..|frames|] == frames
    ensures forall i :: |frames| <= i < n ==> out[i] == None
  {
    out := frames;
    while |out| < n
      invariant |frames| <= |out| <= n && out[..|frames|] == frames
      invariant forall i :: |frames| <= i < |out| ==> out[i] == None
    {
      out := out + [None];
    }
  }

  datatype Claimed = Claimed(slots: Slots, frames: seq<Option<Envelope>>)

  /** Sequential claims, one for each name. */
  ghost function Claims(slots: Slots, names: seq<string>, now: nat): Claimed
  {
    if names == [] then Claimed(slots, [])
    else
      var before := Claims(slots, names[..|names| - 1], now);
      var name := names[|names| - 1];
      Claimed(ClaimSlots(before.slots, name, now), before.frames + [ClaimResult(before.slots, name, now)])
  }

  lemma ClaimsStep(slots: Slots, names: seq<string>, i: nat, now: nat)
    requires i < |names|
    ensures var before := Claims(slots, names[..i], now);
            Claims(slots, names[..i + 1], now)
            == Claimed(ClaimSlots(before.slots, names[i], now),
                before.frames + [ClaimResult(before.slots, names[i], now)])
  {
    assert names[..i + 1][..i] == names[..i];
  }
}

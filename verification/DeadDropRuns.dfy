/**
 Runs of the dead-drop store against a plain deposit history.  The ledger is what an observer
 with unbounded memory would write down; the store never sees it.
 */
module DeadDropRuns {
  import opened Wrappers
  import opened DeadDrop

  /** Names the envelope at position `index` of the slot's deposit history. */
  datatype Ticket = Ticket(slot: string, index: nat)

  datatype Ledger = Ledger(
    history: map<string, Queue>,
    claimed: seq<Ticket>,
    expired: nat,
    evicted: nat)

  datatype State = State(slots: Slots, ledger: Ledger, clock: nat)

  datatype Event =
    | TryDeposit(envelope: Envelope, now: nat, victims: seq<string>)
    | Claim(slot: string, now: nat)
    | SweepNow(now: nat)

  const Start: State := State(map[], Ledger(map[], [], 0, 0), 0)

  ghost predicate Fits(slots: Slots, envelope: Envelope)
  {
    Bytes(slots) + Size(envelope) <= MAX_TOTAL_BYTES
  }

  /** The clock does not run backwards, and the evictions of a deposit are those the store makes. */
  ghost predicate Enabled(s: State, e: Event)
  {
    && s.clock <= e.now
    && (e.TryDeposit? && Fits(s.slots, e.envelope) ==> ValidVictims(s.slots, e.envelope, e.now, e.victims))
  }

  // ----- the effect of each operation on store and ledger

  ghost function Pushed(s: State, envelope: Envelope, now: nat): State
  {
    var slot := envelope.slotId;
    var entry := Stored(envelope, now + ENVELOPE_TTL_MS);
    var longer := QueueOf(s.slots, slot) + [entry];
    State(Push(s.slots, envelope, now),
          s.ledger.(history := s.ledger.history[slot := QueueOf(s.ledger.history, slot) + [entry]],
                    evicted := s.ledger.evicted + (|longer| - |Capped(longer)|)),
          now)
  }

  /** How many entries a step removed. */
  ghost function Lost(before: Slots, after: Slots): nat
  {
    if Count(after) <= Count(before) then Count(before) - Count(after) else 0
  }

  ghost function Swept(s: State, now: nat): State
  {
    State(Sweep(s.slots, now), s.ledger.(expired := s.ledger.expired + Lost(s.slots, Sweep(s.slots, now))), now)
  }

  ghost function EvictedAll(s: State, victims: seq<string>): State
    requires Evictable(s.slots, victims)
  {
    s.(slots := Evict(s.slots, victims), ledger := s.ledger.(evicted := s.ledger.evicted + |victims|))
  }

  /** The claimed list after a claim that finds `live` at the end of a history of length `n`. */
  ghost function WithTicket(claimed: seq<Ticket>, slot: string, live: nat, n: nat): seq<Ticket>
  {
    if live == 0 then claimed else claimed + [Ticket(slot, if live <= n then n - live else 0)]
  }

  ghost function AfterClaim(s: State, slot: string, now: nat): State
  {
    var queue := QueueOf(s.slots, slot);
    var live := DropExpired(queue, now);
    State(ClaimSlots(s.slots, slot, now),
          s.ledger.(expired := s.ledger.expired + (|queue| - |live|),
                    claimed := WithTicket(s.ledger.claimed, slot, |live|, |QueueOf(s.ledger.history, slot)|)),
          now)
  }

  ghost function Apply(s: State, e: Event): State
    requires Enabled(s, e)
  {
    match e
    case TryDeposit(envelope, now, victims) =>
      if !Fits(s.slots, envelope) then s.(clock := now)
      else
        var pushed := Pushed(s, envelope, now);
        EvictedAll(if Count(pushed.slots) > MAX_TOTAL_ENVELOPES then Swept(pushed, now) else pushed, victims)
    case Claim(slot, now) => AfterClaim(s, slot, now)
    case SweepNow(now) => Swept(s, now)
  }

  /** The events drive the very store of module DeadDrop. */
  lemma ApplyRefinesStore(s: State, e: Event)
    requires Enabled(s, e)
    ensures Apply(s, e).slots ==
            match e
            case TryDeposit(envelope, now, victims) =>
              if Fits(s.slots, envelope) then DepositSlots(s.slots, envelope, now, victims) else s.slots
            case Claim(slot, now) => ClaimSlots(s.slots, slot, now)
            case SweepNow(now) => Sweep(s.slots, now)
  {
  }

  ghost predicate Reaches(s: State, events: seq<Event>, t: State)
    decreases |events|
  {
    if events == [] then s == t
    else Enabled(s, events[0]) && Reaches(Apply(s, events[0]), events[1..], t)
  }

  // ----- the invariant

  ghost predicate IsSuffix(q: Queue, h: Queue)
  {
    |q| <= |h| && q == h[|h| - |q|..]
  }

  /** Every queue is a suffix of its slot's deposit history. */
  ghost predicate Suffixes(slots: Slots, history: Slots)
  {
    forall slot :: slot in slots ==> IsSuffix(slots[slot], QueueOf(history, slot))
  }

  ghost predicate SortedByExpiry(q: Queue)
  {
    forall i, j :: 0 <= i < j < |q| ==> q[i].expiresAt <= q[j].expiresAt
  }

  ghost predicate Bounded(q: Queue, latest: nat)
  {
    forall i :: 0 <= i < |q| ==> q[i].expiresAt <= latest
  }

  ghost predicate Timed(history: Slots, clock: nat)
  {
    forall slot :: slot in history ==> SortedByExpiry(history[slot]) && Bounded(history[slot], clock + ENVELOPE_TTL_MS)
  }

  /** Claimed envelopes lie before the queue in the history, and none is claimed twice. */
  ghost predicate ClaimedOnce(slots: Slots, history: Slots, claimed: seq<Ticket>)
  {
    && (forall t :: t in claimed ==> t.index + |QueueOf(slots, t.slot)| < |QueueOf(history, t.slot)|)
    && (forall i, j :: 0 <= i < j < |claimed| ==> claimed[i] != claimed[j])
  }

  /** deposited = live + claimed + expired + evicted */
  ghost predicate Conserved(slots: Slots, ledger: Ledger)
  {
    Count(ledger.history) == Count(slots) + |ledger.claimed| + ledger.expired + ledger.evicted
  }

  ghost predicate PerSlotCap(slots: Slots)
  {
    forall slot :: slot in slots ==> |slots[slot]| <= MAX_ENV_PER_SLOT
  }

  ghost predicate Core(s: State)
  {
    && Suffixes(s.slots, s.ledger.history)
    && Timed(s.ledger.history, s.clock)
    && ClaimedOnce(s.slots, s.ledger.history, s.ledger.claimed)
    && Conserved(s.slots, s.ledger)
    && PerSlotCap(s.slots)
  }

  ghost predicate Inv(s: State)
  {
    && Core(s)
    && Count(s.slots) <= MAX_TOTAL_ENVELOPES
    && Bytes(s.slots) <= MAX_TOTAL_BYTES
  }

  // ----- steps that only shorten queues

  ghost predicate Shrinks(before: Slots, after: Slots)
  {
    forall slot :: slot in after ==> slot in before && IsSuffix(after[slot], before[slot])
  }

  lemma SuffixOfSuffix(p: Queue, q: Queue, h: Queue)
    requires IsSuffix(p, q) && IsSuffix(q, h)
    ensures IsSuffix(p, h)
  {
  }

  lemma {:induction false} SuffixBytes(q: Queue, n: nat)
    requires n <= |q|
    ensures QueueBytes(q[n..]) <= QueueBytes(q)
  {
    if n > 0 {
      assert q[n..] == q[1..][n - 1..];
      SuffixBytes(q[1..], n - 1);
    } else {
      assert q[0..] == q;
    }
  }

  ghost predicate MonotoneWeight(w: Queue -> nat)
  {
    forall p, q :: IsSuffix(p, q) ==> w(p) <= w(q)
  }

  lemma {:induction false} WeighShrinks(before: Slots, after: Slots, w: Queue -> nat)
    requires Shrinks(before, after) && MonotoneWeight(w)
    ensures Weigh(after, w) <= Weigh(before, w)
    decreases after.Keys
  {
    if after != map[] {
      var slot :| slot in after;
      WeighPick(after, slot, w);
      WeighPick(before, slot, w);
      WeighShrinks(before - {slot}, after - {slot}, w);
    }
  }

  lemma SizesShrink(before: Slots, after: Slots)
    requires Shrinks(before, after)
    ensures Count(after) <= Count(before) && Bytes(after) <= Bytes(before)
  {
    forall p: Queue, q: Queue | IsSuffix(p, q) ensures QueueBytes(p) <= QueueBytes(q) {
      SuffixBytes(q, |q| - |p|);
    }
    assert MonotoneWeight(QueueBytes) && MonotoneWeight(Len);
    WeighShrinks(before, after, Len);
    WeighShrinks(before, after, QueueBytes);
  }

  lemma ShrinkSuffixes(before: Slots, after: Slots, history: Slots)
    requires Shrinks(before, after) && Suffixes(before, history)
    ensures Suffixes(after, history)
  {
    forall slot | slot in after ensures IsSuffix(after[slot], QueueOf(history, slot)) {
      SuffixOfSuffix(after[slot], before[slot], QueueOf(history, slot));
    }
  }

  lemma ShrinkLengths(before: Slots, after: Slots, slot: string)
    requires Shrinks(before, after)
    ensures |QueueOf(after, slot)| <= |QueueOf(before, slot)|
  {
  }

  lemma ShrinkClaimed(before: Slots, after: Slots, history: Slots, claimed: seq<Ticket>)
    requires Shrinks(before, after) && ClaimedOnce(before, history, claimed)
    ensures ClaimedOnce(after, history, claimed)
  {
    forall t | t in claimed ensures t.index + |QueueOf(after, t.slot)| < |QueueOf(history, t.slot)| {
      ShrinkLengths(before, after, t.slot);
    }
  }

  lemma ShrinkCap(before: Slots, after: Slots)
    requires Shrinks(before, after) && PerSlotCap(before)
    ensures PerSlotCap(after)
  {
    forall slot | slot in after ensures |after[slot]| <= MAX_ENV_PER_SLOT {
      ShrinkLengths(before, after, slot);
    }
  }

  /** Shortening queues keeps what the invariant says about them. */
  lemma ShrinkKeeps(before: Slots, after: Slots, history: Slots, claimed: seq<Ticket>)
    requires Shrinks(before, after)
    requires Suffixes(before, history) && ClaimedOnce(before, history, claimed) && PerSlotCap(before)
    ensures Suffixes(after, history) && ClaimedOnce(after, history, claimed) && PerSlotCap(after)
  {
    ShrinkSuffixes(before, after, history);
    ShrinkClaimed(before, after, history, claimed);
    ShrinkCap(before, after);
  }

  lemma SweptCore(s: State, now: nat)
    requires Core(s) && s.clock <= now
    ensures Core(Swept(s, now)) && Shrinks(s.slots, Sweep(s.slots, now))
  {
    var after := Sweep(s.slots, now);
    assert Shrinks(s.slots, after);
    SizesShrink(s.slots, after);
    ShrinkKeeps(s.slots, after, s.ledger.history, s.ledger.claimed);
  }

  lemma {:induction false} EvictShrinks(slots: Slots, victims: seq<string>)
    requires Evictable(slots, victims)
    ensures Shrinks(slots, Evict(slots, victims))
    ensures Count(Evict(slots, victims)) == Count(slots) - |victims|
    decreases |victims|
  {
    if victims != [] {
      var next := PopFront(slots, victims[0]);
      PopFrontCount(slots, victims[0]);
      EvictShrinks(next, victims[1..]);
      var after := Evict(next, victims[1..]);
      forall slot | slot in after ensures slot in slots && IsSuffix(after[slot], slots[slot]) {
        SuffixOfSuffix(after[slot], next[slot], slots[slot]);
      }
    }
  }

  lemma EvictedCore(s: State, victims: seq<string>)
    requires Core(s) && Evictable(s.slots, victims)
    ensures Core(EvictedAll(s, victims))
    ensures Bytes(Evict(s.slots, victims)) <= Bytes(s.slots)
  {
    EvictShrinks(s.slots, victims);
    SizesShrink(s.slots, Evict(s.slots, victims));
    ShrinkKeeps(s.slots, Evict(s.slots, victims), s.ledger.history, s.ledger.claimed);
  }

  // ----- the claim and the push

  lemma ClaimOnlyShrinks(slots: Slots, slot: string, now: nat)
    ensures Shrinks(slots, ClaimSlots(slots, slot, now))
  {
    if slot in slots {
      var live := DropExpired(slots[slot], now);
      if live != [] { assert IsSuffix(live[1..], slots[slot]); }
    }
  }

  lemma ClaimQueue(slots: Slots, slot: string, now: nat)
    ensures var live := DropExpired(QueueOf(slots, slot), now);
            QueueOf(ClaimSlots(slots, slot, now), slot) == if live == [] then [] else live[1..]
  {
  }

  lemma ClaimCount(slots: Slots, slot: string, now: nat)
    ensures var queue, live := QueueOf(slots, slot), DropExpired(QueueOf(slots, slot), now);
            Count(ClaimSlots(slots, slot, now)) == Count(slots) - |queue| + if live == [] then 0 else |live| - 1
  {
    if slot in slots {
      var live := DropExpired(slots[slot], now);
      WeighUpdate(slots, slot, live, Len);
      if live != [] { PopFrontCount(slots[slot := live], slot); }
    }
  }

  lemma NewTicket(slots: Slots, after: Slots, history: Slots, claimed: seq<Ticket>, ticket: Ticket)
    requires ClaimedOnce(slots, history, claimed) && ClaimedOnce(after, history, claimed)
    requires |QueueOf(history, ticket.slot)| - |QueueOf(slots, ticket.slot)| <= ticket.index
    requires ticket.index + |QueueOf(after, ticket.slot)| < |QueueOf(history, ticket.slot)|
    ensures ClaimedOnce(after, history, claimed + [ticket])
  {
    assert ticket !in claimed;
  }

  lemma ClaimTickets(slots: Slots, after: Slots, history: Slots, claimed: seq<Ticket>, slot: string, live: nat)
    requires ClaimedOnce(slots, history, claimed) && ClaimedOnce(after, history, claimed)
    requires live <= |QueueOf(slots, slot)| <= |QueueOf(history, slot)|
    requires live > 0 ==> |QueueOf(after, slot)| == live - 1
    ensures ClaimedOnce(after, history, WithTicket(claimed, slot, live, |QueueOf(history, slot)|))
  {
    if live != 0 {
      NewTicket(slots, after, history, claimed, Ticket(slot, |QueueOf(history, slot)| - live));
    }
  }

  lemma ClaimClaimedOnce(s: State, slot: string, now: nat)
    requires Suffixes(s.slots, s.ledger.history) && ClaimedOnce(s.slots, s.ledger.history, s.ledger.claimed)
    ensures ClaimedOnce(ClaimSlots(s.slots, slot, now), s.ledger.history, AfterClaim(s, slot, now).ledger.claimed)
  {
    var after, queue := ClaimSlots(s.slots, slot, now), QueueOf(s.slots, slot);
    ClaimOnlyShrinks(s.slots, slot, now);
    ClaimQueue(s.slots, slot, now);
    ShrinkClaimed(s.slots, after, s.ledger.history, s.ledger.claimed);
    SuffixAt(s.slots, s.ledger.history, slot);
    ClaimTickets(s.slots, after, s.ledger.history, s.ledger.claimed, slot, |DropExpired(queue, now)|);
  }

  lemma SuffixAt(slots: Slots, history: Slots, slot: string)
    requires Suffixes(slots, history)
    ensures IsSuffix(QueueOf(slots, slot), QueueOf(history, slot))
  {
  }

  lemma LaterTimed(history: Slots, clock: nat, now: nat)
    requires Timed(history, clock) && clock <= now
    ensures Timed(history, now)
  {
  }

  lemma ClaimCore(s: State, slot: string, now: nat)
    requires Core(s) && s.clock <= now
    ensures Core(AfterClaim(s, slot, now))
  {
    ClaimOnlyShrinks(s.slots, slot, now);
    ShrinkSuffixes(s.slots, ClaimSlots(s.slots, slot, now), s.ledger.history);
    ShrinkCap(s.slots, ClaimSlots(s.slots, slot, now));
    LaterTimed(s.ledger.history, s.clock, now);
    ClaimClaimedOnce(s, slot, now);
    ClaimConserved(s, slot, now);
  }

  lemma ClaimConserved(s: State, slot: string, now: nat)
    requires Conserved(s.slots, s.ledger)
    ensures Conserved(ClaimSlots(s.slots, slot, now), AfterClaim(s, slot, now).ledger)
  {
    ClaimCount(s.slots, slot, now);
  }

  lemma SuffixPush(q: Queue, h: Queue, entry: Stored)
    requires IsSuffix(q, h)
    ensures IsSuffix(Capped(q + [entry]), h + [entry])
  {
    var longer := q + [entry];
    assert longer == (h + [entry])[|h| - |q|..];
    SuffixOfSuffix(Capped(longer), longer, h + [entry]);
  }

  lemma UpdatedSuffixes(slots: Slots, history: Slots, slot: string, q: Queue, h: Queue)
    requires Suffixes(slots, history) && IsSuffix(q, h)
    ensures Suffixes(slots[slot := q], history[slot := h])
  {
    var after, longer := slots[slot := q], history[slot := h];
    forall other | other in after ensures IsSuffix(after[other], QueueOf(longer, other)) {
      assert other != slot ==> other in slots && QueueOf(longer, other) == QueueOf(history, other);
    }
  }

  /** Pushing onto the queue and the history keeps the queue a suffix of the history. */
  lemma PushSuffixes(slots: Slots, history: Slots, envelope: Envelope, now: nat)
    requires Suffixes(slots, history)
    ensures var slot, entry := envelope.slotId, Stored(envelope, now + ENVELOPE_TTL_MS);
            Suffixes(Push(slots, envelope, now), history[slot := QueueOf(history, slot) + [entry]])
  {
    var slot, entry := envelope.slotId, Stored(envelope, now + ENVELOPE_TTL_MS);
    var q, h := QueueOf(slots, slot), QueueOf(history, slot);
    SuffixPush(q, h, entry);
    UpdatedSuffixes(slots, history, slot, Capped(q + [entry]), h + [entry]);
  }

  lemma PushCap(slots: Slots, envelope: Envelope, now: nat)
    requires PerSlotCap(slots)
    ensures PerSlotCap(Push(slots, envelope, now))
  {
  }

  lemma PushClaimed(slots: Slots, history: Slots, claimed: seq<Ticket>, envelope: Envelope, now: nat)
    requires ClaimedOnce(slots, history, claimed)
    ensures var slot, entry := envelope.slotId, Stored(envelope, now + ENVELOPE_TTL_MS);
            ClaimedOnce(Push(slots, envelope, now), history[slot := QueueOf(history, slot) + [entry]], claimed)
  {
  }

  lemma PushTimed(history: Slots, clock: nat, slot: string, envelope: Envelope, now: nat)
    requires Timed(history, clock) && clock <= now
    ensures Timed(history[slot := QueueOf(history, slot) + [Stored(envelope, now + ENVELOPE_TTL_MS)]], now)
  {
    var h, entry := QueueOf(history, slot), Stored(envelope, now + ENVELOPE_TTL_MS);
    assert SortedByExpiry(h) && Bounded(h, clock + ENVELOPE_TTL_MS);
    assert SortedByExpiry(h + [entry]) && Bounded(h + [entry], now + ENVELOPE_TTL_MS);
  }

  lemma PushConserved(s: State, envelope: Envelope, now: nat)
    requires Conserved(s.slots, s.ledger)
    ensures Conserved(Pushed(s, envelope, now).slots, Pushed(s, envelope, now).ledger)
  {
    var slot, entry := envelope.slotId, Stored(envelope, now + ENVELOPE_TTL_MS);
    WeighUpdate(s.slots, slot, Capped(QueueOf(s.slots, slot) + [entry]), Len);
    WeighUpdate(s.ledger.history, slot, QueueOf(s.ledger.history, slot) + [entry], Len);
  }

  lemma CappedBytes(q: Queue, entry: Stored)
    ensures QueueBytes(Capped(q + [entry])) <= QueueBytes(q) + Size(entry.envelope)
  {
    CappedNoHeavier(q + [entry]);
    BytesOfPush(q, entry);
  }

  lemma CappedNoHeavier(q: Queue)
    ensures QueueBytes(Capped(q)) <= QueueBytes(q)
  {
    var n := if |q| > MAX_ENV_PER_SLOT then |q| - MAX_ENV_PER_SLOT else 0;
    SuffixBytes(q, n);
    assert Capped(q) == q[n..];
  }

  lemma PushBytes(slots: Slots, envelope: Envelope, now: nat)
    ensures Bytes(Push(slots, envelope, now)) <= Bytes(slots) + Size(envelope)
  {
    var q, entry := QueueOf(slots, envelope.slotId), Stored(envelope, now + ENVELOPE_TTL_MS);
    WeighUpdate(slots, envelope.slotId, Capped(q + [entry]), QueueBytes);
    CappedBytes(q, entry);
  }

  lemma PushCore(s: State, envelope: Envelope, now: nat)
    requires Core(s) && s.clock <= now
    ensures Core(Pushed(s, envelope, now))
  {
    PushSuffixes(s.slots, s.ledger.history, envelope, now);
    PushCap(s.slots, envelope, now);
    PushClaimed(s.slots, s.ledger.history, s.ledger.claimed, envelope, now);
    PushTimed(s.ledger.history, s.clock, envelope.slotId, envelope, now);
    PushConserved(s, envelope, now);
  }

  lemma {:induction false} BytesOfPush(q: Queue, entry: Stored)
    ensures QueueBytes(q + [entry]) == QueueBytes(q) + Size(entry.envelope)
  {
    if q == [] {
      assert QueueBytes([entry][1..]) == 0;
      assert q + [entry] == [entry];
    } else {
      assert (q + [entry])[1..] == q[1..] + [entry];
      BytesOfPush(q[1..], entry);
    }
  }

  // ----- every run

  lemma ApplyInv(s: State, e: Event)
    requires Inv(s) && Enabled(s, e)
    ensures Inv(Apply(s, e))
  {
    ApplyRefinesStore(s, e);
    match e
    case TryDeposit(envelope, now, victims) =>
      if Fits(s.slots, envelope) {
        var pushed := Pushed(s, envelope, now);
        PushCore(s, envelope, now);
        PushBytes(s.slots, envelope, now);
        if Count(pushed.slots) > MAX_TOTAL_ENVELOPES {
          SweptCore(pushed, now);
          SizesShrink(pushed.slots, Sweep(pushed.slots, now));
          EvictedCore(Swept(pushed, now), victims);
        } else {
          EvictedCore(pushed, victims);
        }
      }
    case Claim(slot, now) =>
      ClaimCore(s, slot, now);
      ClaimOnlyShrinks(s.slots, slot, now);
      SizesShrink(s.slots, ClaimSlots(s.slots, slot, now));
    case SweepNow(now) =>
      SweptCore(s, now);
      SizesShrink(s.slots, Sweep(s.slots, now));
  }

  /**
   Every run keeps: queues are suffixes of the deposit history and sorted by expiry, no
   envelope is claimed twice, every deposit is accounted for, and the three size bounds hold.
   */
  lemma {:induction false} EveryRunKeepsInv(s: State, events: seq<Event>, t: State)
    requires Inv(s) && Reaches(s, events, t)
    ensures Inv(t)
    decreases |events|
  {
    if events != [] {
      ApplyInv(s, events[0]);
      EveryRunKeepsInv(Apply(s, events[0]), events[1..], t);
    }
  }

  lemma EveryRunFromEmpty(events: seq<Event>, t: State)
    requires Reaches(Start, events, t)
    ensures Inv(t)
    ensures Count(t.slots) <= 100_000 && Bytes(t.slots) <= 67_108_864
    ensures forall slot :: |QueueOf(t.slots, slot)| <= 16
  {
    EveryRunKeepsInv(Start, events, t);
  }

  // ----- what sorted queues buy

  lemma QueuesSorted(s: State, slot: string)
    requires Core(s) && slot in s.slots
    ensures SortedByExpiry(s.slots[slot])
  {
    var q, h := s.slots[slot], QueueOf(s.ledger.history, slot);
    assert forall i :: 0 <= i < |q| ==> q[i] == h[|h| - |q| + i];
  }

  /** The entries of a queue that are still live. */
  ghost function Unexpired(q: Queue, now: nat): Queue
  {
    if q == [] then [] else (if q[0].expiresAt > now then [q[0]] else []) + Unexpired(q[1..], now)
  }

  lemma {:induction false} AllUnexpired(q: Queue, now: nat)
    requires forall i :: 0 <= i < |q| ==> q[i].expiresAt > now
    ensures Unexpired(q, now) == q
  {
    if q != [] { AllUnexpired(q[1..], now); }
  }

  lemma {:induction false} DropIsFilter(q: Queue, now: nat)
    requires SortedByExpiry(q)
    ensures DropExpired(q, now) == Unexpired(q, now)
  {
    if q != [] {
      if q[0].expiresAt <= now {
        DropIsFilter(q[1..], now);
      } else {
        AllUnexpired(q, now);
      }
    }
  }

  ghost function ExpiredIn(now: nat): Queue -> nat
  {
    (q: Queue) => if |Unexpired(q, now)| <= |q| then |q| - |Unexpired(q, now)| else 0
  }

  /** A sweep keeps exactly the unexpired entries and counts exactly the others. */
  lemma SweepIsExact(s: State, now: nat)
    requires Core(s)
    ensures forall slot :: QueueOf(Sweep(s.slots, now), slot) == Unexpired(QueueOf(s.slots, slot), now)
    ensures Count(s.slots) - Count(Sweep(s.slots, now)) == Weigh(s.slots, ExpiredIn(now))
  {
    forall slot ensures QueueOf(Sweep(s.slots, now), slot) == Unexpired(QueueOf(s.slots, slot), now) {
      if slot in s.slots {
        QueuesSorted(s, slot);
        DropIsFilter(s.slots[slot], now);
      }
    }
    SweepCounts(s.slots, Sweep(s.slots, now), now);
  }

  lemma {:induction false} SweepCounts(before: Slots, after: Slots, now: nat)
    requires after.Keys <= before.Keys
    requires forall slot :: slot in before ==> QueueOf(after, slot) == Unexpired(before[slot], now)
    ensures Count(before) - Count(after) == Weigh(before, ExpiredIn(now))
    decreases before.Keys
  {
    if before == map[] {
      assert after == map[];
    } else {
      var slot :| slot in before;
      UnexpiredLength(before[slot], now);
      WeighPick(before, slot, Len);
      WeighPick(before, slot, ExpiredIn(now));
      WeighUpdate(after, slot, [], Len);
      var rest := after - {slot};
      forall other | other in before - {slot} ensures QueueOf(rest, other) == Unexpired((before - {slot})[other], now) {
      }
      SweepCounts(before - {slot}, rest, now);
    }
  }

  lemma {:induction false} UnexpiredLength(q: Queue, now: nat)
    ensures |Unexpired(q, now)| <= |q|
  {
    if q != [] { UnexpiredLength(q[1..], now); }
  }

  /** A claim returns the oldest deposit that is still queued and unexpired, if there is one. */
  lemma ClaimIsOldestUnexpired(s: State, slot: string, now: nat)
    requires Core(s)
    ensures var live := Unexpired(QueueOf(s.slots, slot), now);
            ClaimResult(s.slots, slot, now) == if live == [] then None else Some(live[0].envelope)
    ensures ClaimResult(s.slots, slot, now).Some? ==>
              var claimed := AfterClaim(s, slot, now).ledger.claimed;
              && |claimed| == |s.ledger.claimed| + 1
              && claimed[|claimed| - 1].slot == slot
              && claimed[|claimed| - 1].index < |QueueOf(s.ledger.history, slot)|
              && QueueOf(s.ledger.history, slot)[claimed[|claimed| - 1].index].envelope
                  == ClaimResult(s.slots, slot, now).value
  {
    if slot in s.slots {
      QueuesSorted(s, slot);
      DropIsFilter(s.slots[slot], now);
      var live, h := DropExpired(s.slots[slot], now), QueueOf(s.ledger.history, slot);
      SuffixOfSuffix(live, s.slots[slot], h);
    }
  }

  /** A global eviction removes an entry that expires no later than any live entry. */
  lemma EvictionIsMinimal(s: State, victim: string, other: string, i: nat)
    requires Core(s) && IsOldestSlot(s.slots, victim)
    requires other in s.slots && i < |s.slots[other]|
    ensures s.slots[victim][0].expiresAt <= s.slots[other][i].expiresAt
  {
    QueuesSorted(s, other);
  }

  /** From a valid state a deposit evicts at most one entry across slots. */
  lemma AtMostOneEviction(s: State, envelope: Envelope, now: nat, victims: seq<string>)
    requires Inv(s) && s.clock <= now && ValidVictims(s.slots, envelope, now, victims)
    ensures |victims| <= 1
  {
    PushedCount(s, envelope, now);
    EvictShrinks(PushAndSweep(s.slots, envelope, now), victims);
    if victims != [] { LastEviction(PushAndSweep(s.slots, envelope, now), victims); }
  }

  /**
   The victim of a deposit, if there is one, is the front of a queue and expires no later than
   any envelope that was live when it was evicted, the new one included.
   */
  lemma DepositEvictsMinimal(s: State, envelope: Envelope, now: nat, victims: seq<string>, other: string, i: nat)
    requires Inv(s) && s.clock <= now && ValidVictims(s.slots, envelope, now, victims) && victims != []
    requires other in PushAndSweep(s.slots, envelope, now) && i < |PushAndSweep(s.slots, envelope, now)[other]|
    ensures |victims| == 1
    ensures var before := PushAndSweep(s.slots, envelope, now);
            && victims[0] in before && before[victims[0]] != []
            && DepositSlots(s.slots, envelope, now, victims) == PopFront(before, victims[0])
            && before[victims[0]][0].expiresAt <= before[other][i].expiresAt
  {
    AtMostOneEviction(s, envelope, now, victims);
    EvictOne(PushAndSweep(s.slots, envelope, now), victims);
    SortedBeforeEviction(s, envelope, now, other);
  }

  lemma EvictOne(slots: Slots, victims: seq<string>)
    requires Evictable(slots, victims) && |victims| == 1
    ensures IsOldestSlot(slots, victims[0]) && Evict(slots, victims) == PopFront(slots, victims[0])
  {
    assert victims[1..] == [];
  }

  lemma SortedBeforeEviction(s: State, envelope: Envelope, now: nat, slot: string)
    requires Core(s) && s.clock <= now && slot in PushAndSweep(s.slots, envelope, now)
    ensures SortedByExpiry(PushAndSweep(s.slots, envelope, now)[slot])
  {
    var pushed := Pushed(s, envelope, now);
    PushCore(s, envelope, now);
    if Count(pushed.slots) > MAX_TOTAL_ENVELOPES {
      SweptCore(pushed, now);
      QueuesSorted(Swept(pushed, now), slot);
    } else {
      QueuesSorted(pushed, slot);
    }
  }

  lemma PushedCount(s: State, envelope: Envelope, now: nat)
    requires Count(s.slots) <= MAX_TOTAL_ENVELOPES
    ensures Count(PushAndSweep(s.slots, envelope, now)) <= MAX_TOTAL_ENVELOPES + 1
  {
    var slot, pushed := envelope.slotId, Push(s.slots, envelope, now);
    assert Count(pushed) <= Count(s.slots) + 1 by {
      WeighUpdate(s.slots, slot, pushed[slot], Len);
    }
    SweepShrinks(pushed, now);
  }

  lemma SweepShrinks(slots: Slots, now: nat)
    ensures Shrinks(slots, Sweep(slots, now)) && Count(Sweep(slots, now)) <= Count(slots)
  {
    assert Shrinks(slots, Sweep(slots, now));
    SizesShrink(slots, Sweep(slots, now));
  }

  /** Before its last eviction the store was still over the cap. */
  lemma {:induction false} LastEviction(slots: Slots, victims: seq<string>)
    requires Evictable(slots, victims) && victims != []
    ensures Count(slots) - |victims| >= MAX_TOTAL_ENVELOPES
    decreases |victims|
  {
    if |victims| > 1 {
      PopFrontCount(slots, victims[0]);
      LastEviction(PopFront(slots, victims[0]), victims[1..]);
    }
  }

  // ----- what a deposit keeps

  /** The entries of a slot behind a deposit: all of them below sixteen, else all but the oldest. */
  ghost function Kept(q: Queue): Queue
  {
    if |q| < 16 then q else q[1..]
  }

  lemma NewQueue(s: State, envelope: Envelope, now: nat)
    requires PerSlotCap(s.slots)
    ensures QueueOf(Push(s.slots, envelope, now), envelope.slotId)
         == Kept(QueueOf(s.slots, envelope.slotId)) + [Stored(envelope, now + 86_400_000)]
    ensures Count(Push(s.slots, envelope, now))
         == Count(s.slots) + if |QueueOf(s.slots, envelope.slotId)| < 16 then 1 else 0
  {
    var q := QueueOf(s.slots, envelope.slotId);
    var longer := q + [Stored(envelope, now + 86_400_000)];
    assert |q| <= 16 && Capped(longer) == Kept(q) + [Stored(envelope, now + 86_400_000)];
    WeighUpdate(s.slots, envelope.slotId, Capped(longer), Len);
  }

  /**
   A deposit below the global cap, or into a full slot: the slot keeps what fits, the new
   envelope comes last and lives for a day, every other slot is untouched.
   */
  lemma DepositKeepsWhatFits(s: State, envelope: Envelope, now: nat, victims: seq<string>)
    requires Inv(s) && ValidVictims(s.slots, envelope, now, victims)
    requires Count(s.slots) < 100_000 || |QueueOf(s.slots, envelope.slotId)| >= 16
    ensures var after, slot := DepositSlots(s.slots, envelope, now, victims), envelope.slotId;
            && QueueOf(after, slot) == Kept(QueueOf(s.slots, slot)) + [Stored(envelope, now + 86_400_000)]
            && (forall other :: other != slot ==> QueueOf(after, other) == QueueOf(s.slots, other))
            && victims == []
  {
    NewQueue(s, envelope, now);
    assert Count(Push(s.slots, envelope, now)) <= MAX_TOTAL_ENVELOPES;
    assert victims == [];
  }

  /** At the global cap a deposit into a slot with room first drops what has expired, in every slot. */
  lemma DepositAtTheCapSweeps(s: State, envelope: Envelope, now: nat, other: string)
    requires Inv(s) && s.clock <= now
    requires Count(s.slots) == 100_000 && |QueueOf(s.slots, envelope.slotId)| < 16
    ensures QueueOf(PushAndSweep(s.slots, envelope, now), other)
         == Unexpired(QueueOf(s.slots, other), now)
            + if other == envelope.slotId then [Stored(envelope, now + 86_400_000)] else []
  {
    NewQueue(s, envelope, now);
    SweptAfterPush(s, envelope, now, other);
    if other == envelope.slotId {
      UnexpiredAppend(QueueOf(s.slots, other), Stored(envelope, now + 86_400_000), now);
    }
  }

  lemma SweptAfterPush(s: State, envelope: Envelope, now: nat, slot: string)
    requires Core(s) && s.clock <= now
    ensures QueueOf(Sweep(Push(s.slots, envelope, now), now), slot)
         == Unexpired(QueueOf(Push(s.slots, envelope, now), slot), now)
  {
    PushCore(s, envelope, now);
    SweepIsExact(Pushed(s, envelope, now), now);
  }

  lemma {:induction false} UnexpiredAppend(q: Queue, entry: Stored, now: nat)
    requires entry.expiresAt > now
    ensures Unexpired(q + [entry], now) == Unexpired(q, now) + [entry]
  {
    if q == [] {
      assert q + [entry] == [entry];
      assert Unexpired([entry][1..], now) == [];
    } else {
      assert (q + [entry])[1..] == q[1..] + [entry];
      UnexpiredAppend(q[1..], entry, now);
      Associate(if q[0].expiresAt > now then [q[0]] else [], Unexpired(q[1..], now), [entry]);
    }
  }

  /** In runs, the per-slot cap evicts nothing while a slot holds fewer than sixteen, and one envelope from then on. */
  lemma PushEvictsOnlyFromFullSlots(s: State, envelope: Envelope, now: nat)
    requires Core(s)
    ensures Pushed(s, envelope, now).ledger.evicted
         == s.ledger.evicted + if |QueueOf(s.slots, envelope.slotId)| < 16 then 0 else 1
  {
    assert |QueueOf(s.slots, envelope.slotId)| <= 16;
  }
}

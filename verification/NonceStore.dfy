/**
 The single-use nonce store of Privacy Pass redemption (services/privacy_pass.rs): a bounded
 map with first-in first-out eviction.
 */
module NonceStore {
  import opened Wrappers

  const MAX_ENTRIES: nat := 100_000
  const TWO_TO_64: nat := 0x1_0000_0000_0000_0000

  datatype NonceState = Reserved | Committed

  datatype Entry = Entry(state: NonceState, number: nat)

  type Entries = map<string, Entry>

  datatype Store = Store(entries: Entries, nextSeq: nat)

  datatype Op = Reserve(nonce: string) | Commit(nonce: string) | Release(nonce: string)

  /** Sequence numbers are unique and below `nextSeq`, and the map is within its cap. */
  ghost predicate Valid(s: Store)
  {
    && |s.entries| <= MAX_ENTRIES
    && (forall k :: k in s.entries ==> s.entries[k].number < s.nextSeq)
    && DistinctSeqs(s.entries)
  }

  ghost predicate DistinctSeqs(entries: Entries)
  {
    forall j, k :: j in entries && k in entries && j != k ==> entries[j].number != entries[k].number
  }

  predicate IsOldest(entries: Entries, key: string)
  {
    key in entries && forall k :: k in entries ==> entries[key].number <= entries[k].number
  }

  lemma {:induction false} OldestExists(entries: Entries)
    requires entries != map[]
    ensures exists key :: IsOldest(entries, key)
    decreases |entries|
  {
    var k :| k in entries;
    var rest := entries - {k};
    assert forall j :: j in entries ==> j == k || (j in rest && rest[j] == entries[j]);
    if rest == map[] {
      assert IsOldest(entries, k);
    } else {
      assert |rest| == |entries| - 1 by { assert rest.Keys == entries.Keys - {k}; }
      OldestExists(rest);
      var key :| IsOldest(rest, key);
      if entries[k].number <= entries[key].number {
        assert IsOldest(entries, k);
      } else {
        assert IsOldest(entries, key);
      }
    }
  }

  /** The victim of an eviction; unique when sequence numbers are. */
  ghost function Oldest(entries: Entries): string
    requires entries != map[]
  {
    OldestExists(entries);
    var key :| IsOldest(entries, key);
    key
  }

  ghost function Evicted(entries: Entries): Entries
  {
    if |entries| >= MAX_ENTRIES then entries - {Oldest(entries)} else entries
  }

  ghost function Next(s: Store, op: Op): Store
  {
    match op
    case Reserve(nonce) =>
      if nonce in s.entries then s
      else Store(Evicted(s.entries)[nonce := Entry(Reserved, s.nextSeq)], (s.nextSeq + 1) % TWO_TO_64)
    case Commit(nonce) =>
      if nonce in s.entries && s.entries[nonce].state == Reserved
      then s.(entries := s.entries[nonce := s.entries[nonce].(state := Committed)]) else s
    case Release(nonce) =>
      if nonce in s.entries && s.entries[nonce].state == Reserved
      then s.(entries := s.entries - {nonce}) else s
  }

  ghost predicate ReserveSucceeds(s: Store, op: Op)
  {
    op.Reserve? && op.nonce !in s.entries
  }

  lemma OldestUnique(entries: Entries, key: string)
    requires DistinctSeqs(entries) && IsOldest(entries, key)
    ensures key == Oldest(entries)
  {
    OldestExists(entries);
    assert IsOldest(entries, Oldest(entries));
  }

  lemma EvictedFacts(entries: Entries)
    requires |entries| <= MAX_ENTRIES && DistinctSeqs(entries)
    ensures |Evicted(entries)| < MAX_ENTRIES && DistinctSeqs(Evicted(entries))
    ensures forall k :: k in Evicted(entries) ==> k in entries && Evicted(entries)[k] == entries[k]
  {
    if |entries| >= MAX_ENTRIES {
      OldestExists(entries);
      assert Evicted(entries).Keys == entries.Keys - {Oldest(entries)};
    }
  }

  lemma InsertedFacts(kept: Entries, nonce: string, number: nat)
    requires |kept| < MAX_ENTRIES && DistinctSeqs(kept) && nonce !in kept
    requires forall k :: k in kept ==> kept[k].number < number
    ensures Valid(Store(kept[nonce := Entry(Reserved, number)], number + 1))
  {
    assert kept[nonce := Entry(Reserved, number)].Keys == kept.Keys + {nonce};
  }

  lemma CommitValid(s: Store, nonce: string)
    requires Valid(s)
    ensures Valid(Next(s, Commit(nonce))) && Next(s, Commit(nonce)).nextSeq == s.nextSeq
  {
    assert Next(s, Commit(nonce)).entries.Keys == s.entries.Keys;
  }

  lemma ReleaseValid(s: Store, nonce: string)
    requires Valid(s)
    ensures Valid(Next(s, Release(nonce))) && Next(s, Release(nonce)).nextSeq == s.nextSeq
  {
    var kept := Next(s, Release(nonce)).entries;
    assert forall k :: k in kept ==> k in s.entries && kept[k] == s.entries[k];
    SubsetCard(kept.Keys, s.entries.Keys);
  }

  lemma NextValid(s: Store, op: Op)
    requires Valid(s) && (ReserveSucceeds(s, op) ==> s.nextSeq + 1 < TWO_TO_64)
    ensures Valid(Next(s, op))
    ensures Next(s, op).nextSeq == s.nextSeq + if ReserveSucceeds(s, op) then 1 else 0
  {
    match op
    case Reserve(nonce) =>
      if nonce !in s.entries {
        EvictedFacts(s.entries);
        InsertedFacts(Evicted(s.entries), nonce, s.nextSeq);
      }
    case Commit(nonce) => CommitValid(s, nonce);
    case Release(nonce) => ReleaseValid(s, nonce);
  }

  class MemoryNonceStore {
    var entries: Entries
    var nextSeq: nat

    ghost function View(): Store
      reads this
    {
      Store(entries, nextSeq)
    }

    constructor ()
      ensures View() == Store(map[], 0) && Valid(View())
    {
      entries, nextSeq := map[], 0;
    }

    method Reserve(nonce: string) returns (ok: bool)
      requires Valid(View())
      modifies this
      ensures ok == ReserveSucceeds(old(View()), Op.Reserve(nonce))
      ensures View() == Next(old(View()), Op.Reserve(nonce))
      ensures old(nextSeq) + 1 < TWO_TO_64 ==> Valid(View())
    {
      if old(nextSeq) + 1 < TWO_TO_64 { NextValid(View(), Op.Reserve(nonce)); }
      if nonce in entries {
        return false;
      }
      MakeRoom();
      entries := entries[nonce := Entry(Reserved, nextSeq)];
      nextSeq := (nextSeq + 1) % TWO_TO_64;
      return true;
    }

    /** The eviction loop of `reserve`. */
    method MakeRoom()
      requires Valid(View())
      modifies `entries
      ensures entries == Evicted(old(entries))
    {
      EvictedFacts(entries);
      while |entries| >= MAX_ENTRIES
        invariant |entries| <= MAX_ENTRIES
        invariant entries == if |entries| >= MAX_ENTRIES then old(entries) else Evicted(old(entries))
        decreases |entries|
      {
        if entries == map[] {
          break;
        }
        OldestExists(entries);
        var oldest :| IsOldest(entries, oldest);
        OldestUnique(entries, oldest);
        entries := entries - {oldest};
      }
    }

    method Commit(nonce: string) returns (ok: bool)
      requires Valid(View())
      modifies this
      ensures ok == (nonce in old(entries) && old(entries)[nonce].state == Reserved)
      ensures View() == Next(old(View()), Op.Commit(nonce))
      ensures Valid(View())
    {
      if nonce in entries && entries[nonce].state == Reserved {
        entries := entries[nonce := entries[nonce].(state := Committed)];
        assert entries.Keys == old(entries).Keys;
        return true;
      }
      return false;
    }

    method Release(nonce: string)
      requires Valid(View())
      modifies this
      ensures View() == Next(old(View()), Op.Release(nonce))
      ensures Valid(View())
      ensures forall k :: k in old(entries) && old(entries)[k].state == Committed ==>
          k in entries && entries[k] == old(entries)[k]
    {
      if nonce in entries && entries[nonce].state == Reserved {
        ReleaseValid(View(), nonce);
        entries := entries - {nonce};
      }
    }
  }

  // ----- runs

  ghost function Run(ops: seq<Op>): Store
  {
    if ops == [] then Store(map[], 0) else Next(Run(ops[..|ops| - 1]), ops[|ops| - 1])
  }

  /** The number of reserves that succeeded. */
  ghost function Reserves(ops: seq<Op>): nat
  {
    if ops == [] then 0
    else Reserves(ops[..|ops| - 1]) + if ReserveSucceeds(Run(ops[..|ops| - 1]), ops[|ops| - 1]) then 1 else 0
  }

  lemma {:induction false} ReservesMonotone(ops: seq<Op>, n: nat)
    requires n <= |ops|
    ensures Reserves(ops[..n]) <= Reserves(ops)
    decreases |ops|
  {
    if n < |ops| {
      var front := ops[..|ops| - 1];
      assert front[..n] == ops[..n];
      ReservesMonotone(front, n);
    } else {
      assert ops[..n] == ops;
    }
  }

  /** In every run of fewer than 2^64 reserves the store stays valid and numbers its reserves. */
  lemma {:induction false} RunValid(ops: seq<Op>)
    requires Reserves(ops) < TWO_TO_64
    ensures Valid(Run(ops)) && Run(ops).nextSeq == Reserves(ops)
    decreases |ops|
  {
    if ops != [] {
      ReservesMonotone(ops, |ops| - 1);
      RunValid(ops[..|ops| - 1]);
      NextValid(Run(ops[..|ops| - 1]), ops[|ops| - 1]);
    }
  }

  /** Distinct sequence numbers in [lo, hi) leave room for at most hi - lo entries. */
  lemma {:induction false} Pigeonhole(entries: Entries, lo: nat, hi: nat)
    requires lo <= hi && DistinctSeqs(entries)
    requires forall k :: k in entries ==> lo <= entries[k].number < hi
    ensures |entries| <= hi - lo
    decreases hi - lo
  {
    if lo == hi {
      assert entries == map[];
    } else if k :| k in entries && entries[k].number == hi - 1 {
      assert (entries - {k}).Keys == entries.Keys - {k};
      Pigeonhole(entries - {k}, lo, hi - 1);
    } else {
      Pigeonhole(entries, lo, hi - 1);
    }
  }

  /** The nonce is still held as committed, or a full store's worth of reserves came after it. */
  ghost predicate Held(s: Store, nonce: string, number: nat)
  {
    || (nonce in s.entries && s.entries[nonce] == Entry(Committed, number))
    || s.nextSeq >= number + 1 + MAX_ENTRIES
  }

  lemma NextHeld(s: Store, op: Op, nonce: string, number: nat)
    requires Valid(s) && (ReserveSucceeds(s, op) ==> s.nextSeq + 1 < TWO_TO_64)
    requires Held(s, nonce, number)
    ensures Held(Next(s, op), nonce, number)
  {
    NextValid(s, op);
    if ReserveSucceeds(s, op) && |s.entries| >= MAX_ENTRIES
       && nonce in s.entries && s.entries[nonce] == Entry(Committed, number) {
      if nonce == Oldest(s.entries) {
        assert IsOldest(s.entries, nonce);
        Pigeonhole(s.entries, number, s.nextSeq);
      }
    }
  }

  lemma {:induction false} RunHeld(ops: seq<Op>, i: nat, nonce: string)
    requires i <= |ops| && Reserves(ops) < TWO_TO_64
    requires nonce in Run(ops[..i]).entries && Run(ops[..i]).entries[nonce].state == Committed
    ensures Held(Run(ops), nonce, Run(ops[..i]).entries[nonce].number)
    decreases |ops|
  {
    if i == |ops| {
      assert ops[..i] == ops;
    } else {
      var front := ops[..|ops| - 1];
      assert front[..i] == ops[..i];
      ReservesMonotone(ops, |ops| - 1);
      RunHeld(front, i, nonce);
      RunValid(front);
      NextHeld(Run(front), ops[|ops| - 1], nonce, Run(ops[..i]).entries[nonce].number);
    }
  }

  /**
   A nonce committed at step `i` that is reserved again at step `j`: between its own reserve
   (number `seq`) and step `j` at least 100 000 other reserves succeeded.
   */
  lemma ReuseDistance(ops: seq<Op>, i: nat, j: nat, nonce: string)
    requires i <= j < |ops| && Reserves(ops) < TWO_TO_64
    requires nonce in Run(ops[..i]).entries && Run(ops[..i]).entries[nonce].state == Committed
    requires ops[j] == Op.Reserve(nonce) && ReserveSucceeds(Run(ops[..j]), ops[j])
    ensures Reserves(ops[..j]) - (Run(ops[..i]).entries[nonce].number + 1) >= MAX_ENTRIES
  {
    assert ops[..j][..i] == ops[..i];
    ReservesMonotone(ops, j);
    RunHeld(ops[..j], i, nonce);
    RunValid(ops[..j]);
  }

  // ----- the effect of each operation

  /**
   A reserve succeeds exactly on an unknown nonce, and then holds it as reserved under the next
   number.  A full store drops the entry with the lowest number, any other store drops nothing.
   */
  lemma ReserveEffect(s: Store, nonce: string, other: string)
    requires Valid(s) && s.nextSeq + 1 < TWO_TO_64
    ensures var t := Next(s, Reserve(nonce)).entries;
            && (ReserveSucceeds(s, Reserve(nonce)) <==> nonce !in s.entries)
            && (nonce in s.entries ==> t == s.entries)
            && (nonce !in s.entries ==> nonce in t && t[nonce] == Entry(Reserved, s.nextSeq))
            && (nonce !in s.entries && other in s.entries ==>
                  if |s.entries| >= 100_000
                     && (forall k :: k in s.entries ==> s.entries[other].number <= s.entries[k].number)
                  then other !in t
                  else other in t && t[other] == s.entries[other])
            && (other in t ==> other == nonce || other in s.entries)
  {
    if nonce !in s.entries && other in s.entries && |s.entries| >= MAX_ENTRIES {
      OldestExists(s.entries);
      if IsOldest(s.entries, other) { OldestUnique(s.entries, other); }
      assert IsOldest(s.entries, Oldest(s.entries));
    }
  }

  /** A commit turns a reserved nonce into a committed one under the same number, and does nothing else. */
  lemma CommitEffect(s: Store, nonce: string, other: string)
    ensures var t := Next(s, Commit(nonce)).entries;
            && t.Keys == s.entries.Keys
            && (nonce in s.entries ==> t[nonce] == Entry(Committed, s.entries[nonce].number))
            && (other in s.entries && other != nonce ==> t[other] == s.entries[other])
  {
    assert Next(s, Commit(nonce)).entries.Keys == s.entries.Keys;
  }

  /** A released reservation can be reserved again at once; a committed nonce cannot be released. */
  lemma ReleaseEffect(s: Store, nonce: string, other: string)
    ensures var t := Next(s, Release(nonce));
            && (nonce in s.entries ==>
                  (ReserveSucceeds(t, Reserve(nonce)) <==> s.entries[nonce].state == Reserved))
            && (other != nonce ==>
                  (other in t.entries <==> other in s.entries)
                  && (other in s.entries ==> t.entries[other] == s.entries[other]))
  {
  }

  /**
   From a commit that found its nonce reserved to the next reserve of that nonce: at least
   100 000 other reserves have succeeded since its own, whose number the entry still carries.
   */
  lemma CommitSecures(ops: seq<Op>, i: nat, j: nat, nonce: string)
    requires i < j < |ops| && Reserves(ops) < TWO_TO_64
    requires ops[i] == Op.Commit(nonce) && nonce in Run(ops[..i]).entries
    requires ops[j] == Op.Reserve(nonce) && ReserveSucceeds(Run(ops[..j]), ops[j])
    ensures Reserves(ops[..j]) >= Run(ops[..i]).entries[nonce].number + 1 + 100_000
  {
    assert ops[..i + 1][..i] == ops[..i];
    CommitEffect(Run(ops[..i]), nonce, nonce);
    ReuseDistance(ops, i + 1, j, nonce);
  }
}

/**
 Single-use stores (core/rln.rs, core/vdf.rs): a key is accepted once, remembered until an
 expiry, and forgotten when the table is pruned.  Signatures are checked outside the model
 (`signatureOk`), and SHA-256 is a function parameter: nothing here needs it to be injective.
 */
module SingleUse {
  import opened Wrappers

  const EPOCH_WINDOW_MS: nat := 15_000
  const NULLIFIER_TTL_MS: nat := 180_000
  const PRUNE_ABOVE: nat := 10_000

  type Store = map<string, nat>

  // ----- the locked section that both stores share

  function Prune(store: Store, now: nat): Store
  {
    if |store| > PRUNE_ABOVE then map key | key in store && store[key] > now :: store[key] else store
  }

  /** Whether the key may be used: not remembered, or remembered past its expiry. */
  predicate Free(store: Store, key: string, now: nat)
  {
    key !in store || store[key] <= now
  }

  function Use(store: Store, key: string, now: nat, expires: nat): Store
  {
    if Free(Prune(store, now), key, now) then Prune(store, now)[key := expires] else Prune(store, now)
  }

  /** The key is remembered at least until `until`, or the clock of an earlier section had reached it. */
  ghost predicate Remembered(store: Store, key: string, until: nat, latest: nat)
  {
    (key in store && store[key] >= until) || latest >= until
  }

  lemma UseRemembers(store: Store, key: string, until: nat, latest: nat, other: string, now: nat, expires: nat)
    requires Remembered(store, key, until, latest)
    ensures Remembered(Use(store, other, now, expires), key, until, if latest >= now then latest else now)
  {
  }

  // ----- quota tokens

  datatype Token = Token(epoch: nat, ticket: string)

  datatype QuotaError = Expired | BadSignature | Malformed | QuotaExceeded

  /**
   One call of `verify_and_consume_nullifier`.  It reads the clock twice (`now`, then
   `epochNow`) and enters the locked section at `lockedAt`.
   */
  datatype Call = Call(
    token: Token, action: string, nullifier: string, signatureOk: bool,
    now: nat, epochNow: nat, lockedAt: nat)

  /** `compute_nullifier`: the digest of ticket, epoch and action. */
  type Digest = (string, nat, string) -> string

  function SaturatingSub(a: nat, b: nat): nat
  {
    if a < b then 0 else a - b
  }

  /** The checks made before the lock is taken. */
  function CheckCall(digest: Digest, call: Call): Result<(), QuotaError>
  {
    var current := call.epochNow / EPOCH_WINDOW_MS;
    if call.token.epoch > current + 1 || SaturatingSub(current, call.token.epoch) > 4 then Err(Expired)
    else if !call.signatureOk then Err(BadSignature)
    else if call.nullifier != digest(call.token.ticket, call.token.epoch, call.action) then Err(Malformed)
    else Ok(())
  }

  function CallResult(digest: Digest, store: Store, call: Call): Result<(), QuotaError>
  {
    if CheckCall(digest, call).Err? then CheckCall(digest, call)
    else if Free(Prune(store, call.now), call.nullifier, call.now) then Ok(())
    else Err(QuotaExceeded)
  }

  function CallStore(digest: Digest, store: Store, call: Call): Store
  {
    if CheckCall(digest, call).Err? then store
    else Use(store, call.nullifier, call.now, call.now + NULLIFIER_TTL_MS)
  }

  /**
   A quota call is accepted exactly when its token is signed, its nullifier is the digest of
   token and action, its epoch is open (from 15 seconds before it begins until 75 seconds
   after), and the nullifier is not remembered as used.
   */
  lemma CallAcceptedIff(digest: Digest, store: Store, call: Call)
    ensures CallResult(digest, store, call).Ok? <==>
              && call.signatureOk
              && call.nullifier == digest(call.token.ticket, call.token.epoch, call.action)
              && call.token.epoch * 15_000 <= call.epochNow + 15_000
              && call.epochNow < (call.token.epoch + 5) * 15_000
              && !(call.nullifier in store && store[call.nullifier] > call.now)
  {
    PruneKeepsFree(store, call.nullifier, call.now);
    var current := call.epochNow / 15_000;
    assert current * 15_000 <= call.epochNow < (current + 1) * 15_000;
  }

  /** An accepted call is remembered for 180 seconds; whatever is accepted or not, nothing unexpired is forgotten. */
  lemma CallRemembers(digest: Digest, store: Store, call: Call, key: string)
    ensures var after := CallStore(digest, store, call);
            && (CallResult(digest, store, call).Ok? ==>
                  call.nullifier in after && after[call.nullifier] == call.now + 180_000)
            && (key in store && store[key] > call.now ==> key in after && after[key] == store[key])
            && (key in after ==> key == call.nullifier || (key in store && after[key] == store[key]))
  {
  }

  class NullifierStore {
    var nullifiers: Store

    constructor ()
      ensures nullifiers == map[]
    {
      nullifiers := map[];
    }

    method VerifyAndConsume(digest: Digest, call: Call) returns (result: Result<(), QuotaError>)
      modifies this
      ensures result == CallResult(digest, old(nullifiers), call)
      ensures nullifiers == CallStore(digest, old(nullifiers), call)
    {
      var current := call.epochNow / EPOCH_WINDOW_MS;
      if call.token.epoch > current + 1 || SaturatingSub(current, call.token.epoch) > 4 {
        return Err(Expired);
      }
      if !call.signatureOk {
        return Err(BadSignature);
      }
      var expected := digest(call.token.ticket, call.token.epoch, call.action);
      if call.nullifier != expected {
        return Err(Malformed);
      }
      if |nullifiers| > PRUNE_ABOVE {
        nullifiers := map key | key in nullifiers && nullifiers[key] > call.now :: nullifiers[key];
      }
      if call.nullifier in nullifiers {
        if nullifiers[call.nullifier] > call.now {
          return Err(QuotaExceeded);
        }
      }
      nullifiers := nullifiers[call.nullifier := call.now + NULLIFIER_TTL_MS];
      return Ok(());
    }
  }

  // ----- how large the table grows

  /** The entries that pruning at `now` would keep. */
  function LiveEntries(store: Store, now: nat): Store
  {
    map key | key in store && store[key] > now :: store[key]
  }

  lemma LiveAreFewer(store: Store, now: nat)
    ensures |LiveEntries(store, now)| <= |store|
  {
    SubsetCard(LiveEntries(store, now).Keys, store.Keys);
  }

  lemma InsertedSize(store: Store, key: string, expires: nat)
    ensures |store[key := expires]| == |store| + if key in store then 0 else 1
  {
    assert store[key := expires].Keys == store.Keys + {key};
  }

  /**
   Pruning is no cap.  An accepted call leaves at most one entry above the pruning size if and
   only if at most that many entries were still live when it came in.
   */
  lemma TableSizeIff(digest: Digest, store: Store, call: Call)
    requires CallResult(digest, store, call).Ok?
    ensures |CallStore(digest, store, call)| <= PRUNE_ABOVE + 1 <==> |LiveEntries(store, call.now)| <= PRUNE_ABOVE
  {
    LiveAreFewer(store, call.now);
    InsertedSize(Prune(store, call.now), call.nullifier, call.now + NULLIFIER_TTL_MS);
  }

  // ----- runs of quota calls, in the order of their locked sections

  ghost function After(digest: Digest, calls: seq<Call>): Store
  {
    if calls == [] then map[]
    else CallStore(digest, After(digest, calls[..|calls| - 1]), calls[|calls| - 1])
  }

  ghost predicate Accepted(digest: Digest, calls: seq<Call>, i: nat)
    requires i < |calls|
  {
    CallResult(digest, After(digest, calls[..i]), calls[i]).Ok?
  }

  /**
   Clock reads and locked sections are in order; at most `gap` passes between the two clock
   reads of a call and at most `delay` between the second one and the locked section.
   */
  ghost predicate Timely(calls: seq<Call>, gap: nat, delay: nat)
  {
    && (forall i :: 0 <= i < |calls| ==>
          && calls[i].now <= calls[i].epochNow <= calls[i].lockedAt
          && calls[i].epochNow <= calls[i].now + gap
          && calls[i].lockedAt <= calls[i].epochNow + delay)
    && (forall i, j :: 0 <= i < j < |calls| ==> calls[i].lockedAt <= calls[j].lockedAt)
  }

  ghost predicate SameQuota(a: Call, b: Call)
  {
    a.token == b.token && a.action == b.action
  }

  lemma {:induction false} AcceptedIsRemembered(digest: Digest, calls: seq<Call>, i: nat, gap: nat, delay: nat)
    requires i < |calls| && Timely(calls, gap, delay) && Accepted(digest, calls, i)
    ensures Remembered(After(digest, calls), calls[i].nullifier, calls[i].now + NULLIFIER_TTL_MS,
        calls[|calls| - 1].lockedAt)
    decreases |calls|
  {
    var front, last := calls[..|calls| - 1], calls[|calls| - 1];
    if i < |front| {
      assert front[..i] == calls[..i];
      AcceptedIsRemembered(digest, front, i, gap, delay);
      assert front[|front| - 1].lockedAt <= last.lockedAt;
      var until := calls[i].now + NULLIFIER_TTL_MS;
      var store := After(digest, front);
      if CheckCall(digest, last).Ok? {
        UseRemembers(store, calls[i].nullifier, until, last.lockedAt, last.nullifier, last.now,
            last.now + NULLIFIER_TTL_MS);
      }
    }
  }

  /** The epochs in which one token passes the window check span less than six epochs. */
  lemma WindowSpan(digest: Digest, a: Call, b: Call)
    requires a.token.epoch == b.token.epoch
    requires CheckCall(digest, a).Ok? && CheckCall(digest, b).Ok?
    ensures b.epochNow < a.epochNow + 6 * EPOCH_WINDOW_MS
  {
  }

  /**
   Each (ticket, epoch, action) is accepted at most once in an unbounded run, although
   entries expire and are pruned, as long as gap + delay stays within 90 seconds.
   */
  lemma AcceptedAtMostOnce(digest: Digest, calls: seq<Call>, i: nat, j: nat, gap: nat, delay: nat)
    requires i < j < |calls| && Timely(calls, gap, delay)
    requires gap + delay <= NULLIFIER_TTL_MS - 6 * EPOCH_WINDOW_MS
    requires SameQuota(calls[i], calls[j]) && Accepted(digest, calls, i)
    ensures !Accepted(digest, calls, j)
  {
    if CheckCall(digest, calls[j]).Ok? {
      var before := calls[..j];
      assert before[..i] == calls[..i];
      AcceptedIsRemembered(digest, before, i, gap, delay);
      WindowSpan(digest, calls[i], calls[j]);
      assert before[|before| - 1].lockedAt <= calls[j].lockedAt;
    }
  }

  // ----- the bound on gap and delay is exact

  /** A quota call that passes every check but perhaps the window check. */
  function Fresh(digest: Digest, token: Token, action: string, now: nat, epochNow: nat, lockedAt: nat): Call
  {
    Call(token, action, digest(token.ticket, token.epoch, action), true, now, epochNow, lockedAt)
  }

  /** The first moment at which a token of epoch `e` passes the window check. */
  function Opens(e: nat): nat
  {
    if e == 0 then 0 else (e - 1) * EPOCH_WINDOW_MS
  }

  /** The most that can lie between the clock reads of the opening call. */
  const LONGEST: nat := NULLIFIER_TTL_MS - 6 * EPOCH_WINDOW_MS + 1

  /** The digest tells the tickets apart, and epoch `e` from later ones. */
  ghost predicate Telling(digest: Digest, e: nat, action: string, tickets: seq<string>)
  {
    && (forall i, j :: 0 <= i < j < |tickets| ==> digest(tickets[i], e, action) != digest(tickets[j], e, action))
    && (forall later: nat :: later > e && tickets != [] ==>
        digest(tickets[0], later, action) != digest(tickets[0], e, action))
  }

  ghost predicate Setting(digest: Digest, e: nat, action: string, tickets: seq<string>, early: nat)
  {
    e >= 1 && early <= LONGEST && early <= Opens(e) && Telling(digest, e, action, tickets)
  }

  /**
   One call per ticket as soon as epoch `e` is accepted.  The first call read its clock `early`
   milliseconds before; all others come one millisecond later.
   */
  ghost function Opening(digest: Digest, e: nat, action: string, tickets: seq<string>, early: nat): seq<Call>
    requires early <= Opens(e)
  {
    seq(|tickets|, i requires 0 <= i < |tickets| =>
      if i == 0 then Fresh(digest, Token(e, tickets[i]), action, Opens(e) - early, Opens(e), Opens(e))
      else Fresh(digest, Token(e, tickets[i]), action, Opens(e) + 1, Opens(e) + 1, Opens(e) + 1))
  }

  /** Calls for different quotas that pass their checks, the first one with the earliest clock read. */
  ghost predicate Filling(digest: Digest, calls: seq<Call>, start: nat, early: nat)
  {
    && early <= LONGEST && early <= start
    && (forall i :: 0 <= i < |calls| ==>
          CheckCall(digest, calls[i]).Ok? && calls[i].now == if i == 0 then start - early else start + 1)
    && DifferentQuotas(calls)
  }

  /** The table after the first `n` calls. */
  ghost predicate FilledBy(calls: seq<Call>, start: nat, early: nat, n: nat, store: Store)
    requires n <= |calls|
  {
    && |store| == n
    && (forall key :: key in store ==> UsedBefore(calls, n, key))
    && (forall key :: key in store ==> store[key] > start + 1)
    && (n > 0 ==> calls[0].nullifier in store && store[calls[0].nullifier] + early == start + NULLIFIER_TTL_MS)
  }

  /** Every call of a filling is accepted and adds an entry, so the table grows to any size. */
  lemma {:induction false} FillingFills(digest: Digest, calls: seq<Call>, start: nat, early: nat, n: nat)
    requires Filling(digest, calls, start, early) && n <= |calls|
    ensures FilledBy(calls, start, early, n, After(digest, calls[..n]))
    ensures n < |calls| ==> Accepted(digest, calls, n)
  {
    if n > 0 {
      FillingFills(digest, calls, start, early, n - 1);
      assert calls[..n][..n - 1] == calls[..n - 1];
      FillStep(digest, calls, start, early, n - 1, After(digest, calls[..n - 1]));
    }
    if n < |calls| {
      FillStep(digest, calls, start, early, n, After(digest, calls[..n]));
    }
  }

  lemma FillStep(digest: Digest, calls: seq<Call>, start: nat, early: nat, n: nat, store: Store)
    requires Filling(digest, calls, start, early) && n < |calls| && FilledBy(calls, start, early, n, store)
    ensures CallResult(digest, store, calls[n]).Ok?
    ensures FilledBy(calls, start, early, n + 1, CallStore(digest, store, calls[n]))
  {
    KeyIsNew(calls, start, early, n, store);
    FreshIsAccepted(digest, store, calls[n]);
    FilledInsert(calls, start, early, n, store, calls[n].now + NULLIFIER_TTL_MS);
  }

  ghost predicate DifferentQuotas(calls: seq<Call>)
  {
    forall i, j :: 0 <= i < j < |calls| ==> calls[i].nullifier != calls[j].nullifier
  }

  lemma KeyIsNew(calls: seq<Call>, start: nat, early: nat, n: nat, store: Store)
    requires DifferentQuotas(calls) && n < |calls| && FilledBy(calls, start, early, n, store)
    ensures calls[n].nullifier !in store
  {
  }

  /** One of the first `n` calls used this key. */
  ghost predicate UsedBefore(calls: seq<Call>, n: nat, key: string)
    requires n <= |calls|
  {
    exists i :: 0 <= i < n && key == calls[i].nullifier
  }

  lemma FilledInsert(calls: seq<Call>, start: nat, early: nat, n: nat, store: Store, expires: nat)
    requires n < |calls| && FilledBy(calls, start, early, n, store) && calls[n].nullifier !in store
    requires early <= LONGEST
    requires if n == 0 then expires + early == start + NULLIFIER_TTL_MS else expires == start + NULLIFIER_TTL_MS + 1
    ensures FilledBy(calls, start, early, n + 1, store[calls[n].nullifier := expires])
  {
    InsertedSize(store, calls[n].nullifier, expires);
    var after := store[calls[n].nullifier := expires];
    forall key | key in after ensures UsedBefore(calls, n + 1, key) {
      if key == calls[n].nullifier {
        assert 0 <= n < n + 1;
      } else {
        assert UsedBefore(calls, n, key);
      }
    }
  }

  lemma FreshIsAccepted(digest: Digest, store: Store, call: Call)
    requires CheckCall(digest, call).Ok? && call.nullifier !in store
    requires forall key :: key in store ==> store[key] > call.now
    ensures CallResult(digest, store, call).Ok?
    ensures CallStore(digest, store, call) == store[call.nullifier := call.now + NULLIFIER_TTL_MS]
  {
    assert Prune(store, call.now) == store;
  }

  lemma OpeningIsFilling(digest: Digest, e: nat, action: string, tickets: seq<string>, early: nat)
    requires Setting(digest, e, action, tickets, early)
    ensures Filling(digest, Opening(digest, e, action, tickets, early), Opens(e), early)
  {
  }

  lemma TimelyThen(calls: seq<Call>, call: Call, gap: nat, delay: nat)
    requires calls != [] && Timely(calls, gap, delay) && Timely([call], gap, delay)
    requires calls[|calls| - 1].lockedAt <= call.lockedAt
    ensures Timely(calls + [call], gap, delay)
  {
    assert [call][0] == call;
  }

  /** The last two calls: one prunes the table, the other is the stalled repetition of the first. */
  function Pruning(digest: Digest, e: nat, action: string, ticket: string, early: nat): Call
    requires early <= LONGEST
  {
    var now := Opens(e) + NULLIFIER_TTL_MS - early;
    Fresh(digest, Token(now / EPOCH_WINDOW_MS, ticket), action, now, now, now)
  }

  function Stalled(digest: Digest, e: nat, action: string, ticket: string, early: nat): Call
    requires early <= LONGEST
  {
    var epochNow := Opens(e) + 6 * EPOCH_WINDOW_MS - 1;
    Fresh(digest, Token(e, ticket), action, epochNow, epochNow, Opens(e) + NULLIFIER_TTL_MS - early)
  }

  /**
   A run in which one token is accepted twice, for every gap and delay that together exceed
   90 000 ms: the opening fills the table above the pruning size, a call that reads its clock
   when the first entry expires prunes it, and then the stalled call gets the lock.
   */
  lemma LongerStallsReplay(digest: Digest, e: nat, action: string, tickets: seq<string>, gap: nat, delay: nat)
    returns (calls: seq<Call>)
    requires gap + delay > NULLIFIER_TTL_MS - 6 * EPOCH_WINDOW_MS
    requires |tickets| > PRUNE_ABOVE && Setting(digest, e, action, tickets, if gap < LONGEST then gap else LONGEST)
    ensures |calls| > 1 && Timely(calls, gap, delay) && SameQuota(calls[0], calls[|calls| - 1])
    ensures Accepted(digest, calls, 0) && Accepted(digest, calls, |calls| - 1)
  {
    var early := if gap < LONGEST then gap else LONGEST;
    var opening := Opening(digest, e, action, tickets, early);
    var pruning := Pruning(digest, e, action, tickets[0], early);
    var stalled := Stalled(digest, e, action, tickets[0], early);
    calls := opening + [pruning] + [stalled];
    ReplayTimely(digest, e, action, tickets, early, gap, delay);
    OpeningEnds(digest, e, action, tickets, early);
    StalledCall(digest, e, action, tickets, early, After(digest, opening));
    AnswersOfTheRun(digest, opening, pruning, stalled);
  }

  lemma OpeningEnds(digest: Digest, e: nat, action: string, tickets: seq<string>, early: nat)
    requires Setting(digest, e, action, tickets, early) && tickets != []
    ensures var opening := Opening(digest, e, action, tickets, early);
            Accepted(digest, opening, 0) && FilledBy(opening, Opens(e), early, |tickets|, After(digest, opening))
  {
    var opening := Opening(digest, e, action, tickets, early);
    OpeningIsFilling(digest, e, action, tickets, early);
    FillingFills(digest, opening, Opens(e), early, 0);
    FillingFills(digest, opening, Opens(e), early, |opening|);
    assert opening[..|opening|] == opening;
  }

  lemma ReplayTimely(digest: Digest, e: nat, action: string, tickets: seq<string>, early: nat, gap: nat, delay: nat)
    requires tickets != [] && early <= Opens(e) && early <= LONGEST && early <= gap && LONGEST <= early + delay
    ensures Timely(Opening(digest, e, action, tickets, early)
                   + [Pruning(digest, e, action, tickets[0], early)]
                   + [Stalled(digest, e, action, tickets[0], early)], gap, delay)
  {
    var opening := Opening(digest, e, action, tickets, early);
    var pruning := Pruning(digest, e, action, tickets[0], early);
    var stalled := Stalled(digest, e, action, tickets[0], early);
    TimelyThen(opening, pruning, gap, delay);
    TimelyThen(opening + [pruning], stalled, gap, delay);
  }

  lemma AnswersOfTheRun(digest: Digest, opening: seq<Call>, pruning: Call, stalled: Call)
    requires opening != [] && Accepted(digest, opening, 0)
    requires CallResult(digest, CallStore(digest, After(digest, opening), pruning), stalled).Ok?
    ensures var calls := opening + [pruning] + [stalled];
            Accepted(digest, calls, 0) && Accepted(digest, calls, |calls| - 1)
  {
    FirstAnswer(digest, opening, [pruning] + [stalled]);
    assert opening + [pruning] + [stalled] == opening + ([pruning] + [stalled]);
    LastAnswer(digest, opening, pruning, stalled);
  }

  lemma FirstAnswer(digest: Digest, calls: seq<Call>, more: seq<Call>)
    requires calls != [] && Accepted(digest, calls, 0)
    ensures Accepted(digest, calls + more, 0)
  {
    assert (calls + more)[..0] == calls[..0];
  }

  lemma LastAnswer(digest: Digest, opening: seq<Call>, pruning: Call, stalled: Call)
    requires CallResult(digest, CallStore(digest, After(digest, opening), pruning), stalled).Ok?
    ensures Accepted(digest, opening + [pruning] + [stalled], |opening| + 1)
  {
    var calls := opening + [pruning] + [stalled];
    assert calls[..|opening| + 1] == opening + [pruning];
    assert (opening + [pruning])[..|opening|] == opening;
  }

  lemma StalledCall(digest: Digest, e: nat, action: string, tickets: seq<string>, early: nat, store: Store)
    requires Setting(digest, e, action, tickets, early) && |tickets| > PRUNE_ABOVE
    requires FilledBy(Opening(digest, e, action, tickets, early), Opens(e), early, |tickets|, store)
    ensures CallResult(digest, CallStore(digest, store, Pruning(digest, e, action, tickets[0], early)),
                       Stalled(digest, e, action, tickets[0], early)).Ok?
  {
    var pruning := Pruning(digest, e, action, tickets[0], early);
    var stalled := Stalled(digest, e, action, tickets[0], early);
    assert stalled.epochNow / EPOCH_WINDOW_MS == e + 4;
    assert pruning.token.epoch >= e + 4 by {
      assert pruning.now >= (e + 4) * EPOCH_WINDOW_MS;
    }
    assert stalled.nullifier !in Prune(store, pruning.now);
  }

  /** Call `j` presents again what call `i` was accepted with. */
  ghost predicate Repeats(digest: Digest, calls: seq<Call>, i: nat, j: nat)
  {
    i < j < |calls| && SameQuota(calls[i], calls[j]) && Accepted(digest, calls, i)
  }

  ghost predicate SingleUseFor(digest: Digest, gap: nat, delay: nat)
  {
    forall calls, i: nat, j: nat :: Timely(calls, gap, delay) && Repeats(digest, calls, i, j) ==>
      !Accepted(digest, calls, j)
  }

  /** With a digest that tells enough tickets apart, quota tokens are single-use exactly up to 90 000 ms. */
  lemma SingleUseIff(digest: Digest, e: nat, action: string, tickets: seq<string>, gap: nat, delay: nat)
    requires Opens(e) >= LONGEST && |tickets| > PRUNE_ABOVE && Telling(digest, e, action, tickets)
    ensures SingleUseFor(digest, gap, delay) <==> gap + delay <= NULLIFIER_TTL_MS - 6 * EPOCH_WINDOW_MS
  {
    if gap + delay <= NULLIFIER_TTL_MS - 6 * EPOCH_WINDOW_MS {
      forall calls, i: nat, j: nat | Timely(calls, gap, delay) && Repeats(digest, calls, i, j)
        ensures !Accepted(digest, calls, j)
      {
        AcceptedAtMostOnce(digest, calls, i, j, gap, delay);
      }
    } else {
      var calls := LongerStallsReplay(digest, e, action, tickets, gap, delay);
      assert Repeats(digest, calls, 0, |calls| - 1) && Accepted(digest, calls, |calls| - 1);
    }
  }

  // ----- consumed delay challenges

  /**
   One call of `verify_and_consume_vdf` that passed verification.  The signature covers the
   expiry, so equal signatures come with equal expiries.
   */
  datatype Presentation = Presentation(signature: string, expires: nat, verifiedAt: nat, now: nat)

  ghost function AfterVdf(uses: seq<Presentation>): Store
  {
    if uses == [] then map[]
    else
      var last := uses[|uses| - 1];
      Use(AfterVdf(uses[..|uses| - 1]), last.signature, last.now, last.expires)
  }

  ghost predicate VdfAccepted(uses: seq<Presentation>, i: nat)
    requires i < |uses|
  {
    Free(Prune(AfterVdf(uses[..i]), uses[i].now), uses[i].signature, uses[i].now)
  }

  ghost predicate ExpiriesSigned(uses: seq<Presentation>)
  {
    forall i, j :: 0 <= i < |uses| && 0 <= j < |uses| && uses[i].signature == uses[j].signature ==>
        uses[i].expires == uses[j].expires
  }

  /** The latest clock value a locked section of the run worked with. */
  ghost function Latest(uses: seq<Presentation>): nat
  {
    if uses == [] then 0
    else
      var before, now := Latest(uses[..|uses| - 1]), uses[|uses| - 1].now;
      if before >= now then before else now
  }

  lemma {:induction false} VdfRemembered(uses: seq<Presentation>, i: nat)
    requires i < |uses| && ExpiriesSigned(uses) && VdfAccepted(uses, i)
    ensures Remembered(AfterVdf(uses), uses[i].signature, uses[i].expires, Latest(uses))
    decreases |uses|
  {
    var front, last := uses[..|uses| - 1], uses[|uses| - 1];
    if i < |front| {
      assert front[..i] == uses[..i];
      VdfRemembered(front, i);
      UseRemembers(AfterVdf(front), uses[i].signature, uses[i].expires, Latest(front), last.signature, last.now,
          last.expires);
    }
  }

  /** A challenge is accepted twice only once some locked section ran with a clock at or past its expiry. */
  lemma VdfReplayNeedsDeadline(uses: seq<Presentation>, i: nat, j: nat)
    requires i < j < |uses| && ExpiriesSigned(uses)
    requires uses[i].signature == uses[j].signature
    requires VdfAccepted(uses, i) && VdfAccepted(uses, j)
    ensures Latest(uses[..j + 1]) >= uses[j].expires
  {
    assert uses[..j][..i] == uses[..i];
    assert uses[..j + 1][..j] == uses[..j];
    VdfRemembered(uses[..j], i);
  }

  /**
   That is exact: right after its first use a challenge is accepted again if and only if the
   second section's clock has reached the expiry.  Verification still lets it through at that
   very millisecond.
   */
  lemma VdfReplayIff(store: Store, signature: string, expires: nat, firstNow: nat, secondNow: nat)
    requires Free(Prune(store, firstNow), signature, firstNow)
    ensures Free(Prune(Use(store, signature, firstNow, expires), secondNow), signature, secondNow) <==>
        secondNow >= expires
  {
    PruneKeepsFree(Use(store, signature, firstNow, expires), signature, secondNow);
  }

  /** Pruning never changes an answer given by the same clock. */
  lemma PruneKeepsFree(store: Store, key: string, now: nat)
    ensures Free(Prune(store, now), key, now) <==> Free(store, key, now)
  {
  }

  /** Section `m` pruned the table, with a clock at or past `expires`. */
  ghost predicate PrunedPast(uses: seq<Presentation>, m: nat, expires: nat)
    requires m < |uses|
  {
    |AfterVdf(uses[..m])| > PRUNE_ABOVE && uses[m].now >= expires
  }

  /** Use `i` was accepted, and no use of its challenge after it and before `n` was. */
  ghost predicate LastAcceptedBefore(uses: seq<Presentation>, i: nat, n: nat)
    requires i < n <= |uses|
  {
    && VdfAccepted(uses, i)
    && forall k :: i < k < n && uses[k].signature == uses[i].signature ==> !VdfAccepted(uses, k)
  }

  ghost predicate InTable(uses: seq<Presentation>, n: nat, signature: string, expires: nat)
    requires n <= |uses|
  {
    signature in AfterVdf(uses[..n]) && AfterVdf(uses[..n])[signature] == expires
  }

  /** After an accepted use its challenge is in the table until a section prunes it. */
  lemma {:induction false} VdfStaysUntilPruned(uses: seq<Presentation>, i: nat, n: nat)
    requires i < n <= |uses| && LastAcceptedBefore(uses, i, n)
    ensures InTable(uses, n, uses[i].signature, uses[i].expires) <==>
        forall m :: i < m < n ==> !PrunedPast(uses, m, uses[i].expires)
    ensures uses[i].signature in AfterVdf(uses[..n]) ==> InTable(uses, n, uses[i].signature, uses[i].expires)
    decreases n
  {
    if n == i + 1 {
      EntersTable(uses, i);
    } else {
      VdfStaysUntilPruned(uses, i, n - 1);
      SectionStep(uses, n - 1, uses[i].signature, uses[i].expires);
    }
  }

  lemma EntersTable(uses: seq<Presentation>, i: nat)
    requires i < |uses| && VdfAccepted(uses, i)
    ensures InTable(uses, i + 1, uses[i].signature, uses[i].expires)
  {
    assert uses[..i + 1][..i] == uses[..i];
  }

  lemma SectionStep(uses: seq<Presentation>, n: nat, signature: string, expires: nat)
    requires n < |uses| && (uses[n].signature == signature ==> !VdfAccepted(uses, n))
    requires signature in AfterVdf(uses[..n]) ==> InTable(uses, n, signature, expires)
    ensures InTable(uses, n + 1, signature, expires) <==>
        InTable(uses, n, signature, expires) && !PrunedPast(uses, n, expires)
    ensures signature in AfterVdf(uses[..n + 1]) ==> InTable(uses, n + 1, signature, expires)
  {
    assert uses[..n + 1][..n] == uses[..n];
    OneMoreSection(AfterVdf(uses[..n]), signature, expires, uses[n]);
  }

  lemma OneMoreSection(store: Store, signature: string, expires: nat, use: Presentation)
    requires signature in store ==> store[signature] == expires
    requires use.signature == signature ==> !Free(Prune(store, use.now), signature, use.now)
    ensures var after := Use(store, use.signature, use.now, use.expires);
            && (signature in after <==> signature in store && !(|store| > PRUNE_ABOVE && use.now >= expires))
            && (signature in after ==> after[signature] == expires)
  {
  }

  /**
   Over runs of any length: the next use of an accepted challenge is accepted if and only if its
   own clock has reached the expiry, or a section in between pruned the table with a clock
   that had.
   */
  lemma VdfReplayInRunIff(uses: seq<Presentation>, i: nat, j: nat)
    requires i < j < |uses| && uses[j].signature == uses[i].signature && uses[j].expires == uses[i].expires
    requires LastAcceptedBefore(uses, i, j)
    ensures VdfAccepted(uses, j) <==>
              uses[j].now >= uses[j].expires || exists m :: i < m < j && PrunedPast(uses, m, uses[j].expires)
  {
    VdfStaysUntilPruned(uses, i, j);
    PruneKeepsFree(AfterVdf(uses[..j]), uses[j].signature, uses[j].now);
  }
}

/**
 Cap tokens (core/cap.rs): a redemption consumes a quota nullifier, a delay challenge and an
 ephemeral key, in that order, and only then issues a single-use token.  The checks that do
 not touch shared state are booleans of the request.
 */
module CapTokens {
  import opened Wrappers
  import opened SingleUse

  const CAP_TOKEN_TTL_MS: nat := 300_000
  const MIN_HUMAN_INTERACTION_MS: nat := 250

  datatype CapError =
    | IdMismatch | ChallengeExpired | ScopeMismatch | BadChallengeSignature
    | Quota(error: QuotaError)
    | VdfRejected | VdfReused
    | KeyGone | KeyExpired | DecapsulationFailed
    | Automated | TooFast

  /** One redemption request, with the clock values its steps read. */
  datatype Request = Request(
    now: nat,
    idMatches: bool, expiresAt: nat, scopeMatches: bool, signatureOk: bool,
    call: Call,
    vdfValid: bool, vdf: Presentation,
    keyId: string, keyNow: nat, decapsulates: bool,
    webdriver: Option<bool>, interactionMs: Option<nat>,
    token: string)

  function PreCheck(r: Request): Result<(), CapError>
  {
    if !r.idMatches then Err(IdMismatch)
    else if r.now > r.expiresAt then Err(ChallengeExpired)
    else if !r.scopeMatches then Err(ScopeMismatch)
    else if !r.signatureOk then Err(BadChallengeSignature)
    else Ok(())
  }

  /** Verification of the delay proof followed by its consumption. */
  predicate VdfPasses(consumed: Store, r: Request)
  {
    r.vdfValid && r.vdf.verifiedAt <= r.vdf.expires && Free(Prune(consumed, r.vdf.now), r.vdf.signature, r.vdf.now)
  }

  predicate KeyPasses(keys: map<string, nat>, r: Request)
  {
    r.keyId in keys && keys[r.keyId] >= r.keyNow && r.decapsulates
  }

  predicate LooksHuman(r: Request)
  {
    r.webdriver != Some(true) && (r.interactionMs.Some? ==> r.interactionMs.value >= MIN_HUMAN_INTERACTION_MS)
  }

  /** What a successful redemption takes, field by field. */
  lemma RedeemedIff(digest: Digest, nullifiers: Store, consumed: Store, keys: map<string, nat>, r: Request)
    ensures PreCheck(r).Ok? && CallResult(digest, nullifiers, r.call).Ok?
            && VdfPasses(consumed, r) && KeyPasses(keys, r) && LooksHuman(r) <==>
              && r.idMatches && r.now <= r.expiresAt && r.scopeMatches && r.signatureOk
              && r.call.signatureOk
              && r.call.nullifier == digest(r.call.token.ticket, r.call.token.epoch, r.call.action)
              && r.call.token.epoch * 15_000 <= r.call.epochNow + 15_000
              && r.call.epochNow < (r.call.token.epoch + 5) * 15_000
              && !(r.call.nullifier in nullifiers && nullifiers[r.call.nullifier] > r.call.now)
              && r.vdfValid && r.vdf.verifiedAt <= r.vdf.expires
              && !(r.vdf.signature in consumed && consumed[r.vdf.signature] > r.vdf.now)
              && r.keyId in keys && r.keyNow <= keys[r.keyId] && r.decapsulates
              && r.webdriver != Some(true) && (r.interactionMs == None || r.interactionMs.value >= 250)
  {
    CallAcceptedIff(digest, nullifiers, r.call);
    PruneKeepsFree(consumed, r.vdf.signature, r.vdf.now);
  }

  /** The tokens that have not expired at `now`. */
  function Unexpired(tokens: map<string, nat>, now: nat): map<string, nat>
  {
    map token | token in tokens && tokens[token] > now :: tokens[token]
  }

  class CapServer {
    var nullifiers: Store
    var consumedVdf: Store
    var keys: map<string, nat>
    var tokens: map<string, nat>

    constructor ()
      ensures nullifiers == map[] && consumedVdf == map[] && keys == map[] && tokens == map[]
    {
      nullifiers, consumedVdf, keys, tokens := map[], map[], map[], map[];
    }

    /** `redeem_cap_challenge`, run without interruption. */
    method Redeem(digest: Digest, r: Request) returns (result: Result<string, CapError>)
      modifies this
      ensures result.Ok? <==> PreCheck(r).Ok? && CallResult(digest, old(nullifiers), r.call).Ok?
                              && VdfPasses(old(consumedVdf), r) && KeyPasses(old(keys), r) && LooksHuman(r)
      ensures result.Ok? ==> result.value == r.token
      ensures tokens ==
              if result.Ok? then Unexpired(old(tokens), r.now)[r.token := r.now + CAP_TOKEN_TTL_MS]
              else old(tokens)
      // What a failed redemption has already consumed stays consumed.
      ensures nullifiers == if PreCheck(r).Ok? then CallStore(digest, old(nullifiers), r.call) else old(nullifiers)
      ensures consumedVdf ==
              if PreCheck(r).Ok? && CallResult(digest, old(nullifiers), r.call).Ok?
                 && r.vdfValid && r.vdf.verifiedAt <= r.vdf.expires
              then Use(old(consumedVdf), r.vdf.signature, r.vdf.now, r.vdf.expires) else old(consumedVdf)
      ensures keys ==
              if PreCheck(r).Ok? && CallResult(digest, old(nullifiers), r.call).Ok? && VdfPasses(old(consumedVdf), r)
              then old(keys) - {r.keyId} else old(keys)
    {
      var checked := PreCheck(r);
      if checked.Err? {
        return Err(checked.error);
      }

      var quota := CallResult(digest, nullifiers, r.call);
      nullifiers := CallStore(digest, nullifiers, r.call);
      if quota.Err? {
        return Err(Quota(quota.error));
      }

      if !r.vdfValid || r.vdf.verifiedAt > r.vdf.expires {
        return Err(VdfRejected);
      }
      var reused := !Free(Prune(consumedVdf, r.vdf.now), r.vdf.signature, r.vdf.now);
      consumedVdf := Use(consumedVdf, r.vdf.signature, r.vdf.now, r.vdf.expires);
      if reused {
        return Err(VdfReused);
      }

      if r.keyId !in keys {
        return Err(KeyGone);
      }
      var keyExpires := keys[r.keyId];
      keys := keys - {r.keyId};
      if keyExpires < r.keyNow {
        return Err(KeyExpired);
      }
      if !r.decapsulates {
        return Err(DecapsulationFailed);
      }

      if r.webdriver == Some(true) {
        return Err(Automated);
      }
      if r.interactionMs.Some? && r.interactionMs.value < MIN_HUMAN_INTERACTION_MS {
        return Err(TooFast);
      }

      tokens := Unexpired(tokens, r.now);
      tokens := tokens[r.token := r.now + CAP_TOKEN_TTL_MS];
      return Ok(r.token);
    }

    /** `verify_and_consume_cap_token`: `expires` and `signatureOk` come from the token's own text. */
    method ConsumeToken(token: string, expires: Option<nat>, signatureOk: bool, now: nat) returns (ok: bool)
      modifies `tokens
      ensures ok <==>
              && expires.Some? && now <= expires.value && signatureOk
              && token in old(tokens) && old(tokens)[token] > now
      ensures tokens ==
              if expires.Some? && now <= expires.value && signatureOk then old(tokens) - {token} else old(tokens)
    {
      if expires.None? || now > expires.value || !signatureOk {
        return false;
      }
      ok := token in tokens && tokens[token] > now;
      tokens := tokens - {token};
    }
  }

  // ----- interleaved runs

  /**
   Handlers await between their steps, so only the locked sections are atomic.  `issuedFrom`
   maps every issued token to the position of its quota call in the log of all quota calls,
   deposits included; `spent` lists the accepted tokens.
   */
  datatype State = State(
    log: seq<Call>,
    pending: map<nat, nat>,
    tokens: map<string, nat>,
    issuedFrom: map<string, nat>,
    spent: seq<string>)

  datatype Event =
    | OtherQuota(call: Call)
    | RedeemQuota(redemption: nat, call: Call)
    | Abandon(redemption: nat)
    | Issue(redemption: nat, token: string, now: nat)
    | Spend(token: string, now: nat)

  const Start: State := State([], map[], map[], map[], [])

  /** Token ids are random: a token is never issued twice.  A redemption takes its quota once. */
  ghost predicate Enabled(s: State, e: Event)
  {
    match e
    case RedeemQuota(redemption, _) => redemption !in s.pending
    case Abandon(redemption) => redemption in s.pending
    case Issue(redemption, token, _) => redemption in s.pending && token !in s.issuedFrom
    case _ => true
  }

  ghost function Apply(digest: Digest, s: State, e: Event): State
    requires Enabled(s, e)
  {
    match e
    case OtherQuota(call) => s.(log := s.log + [call])
    case RedeemQuota(redemption, call) =>
      var ok := CallResult(digest, After(digest, s.log), call).Ok?;
      s.(log := s.log + [call], pending := if ok then s.pending[redemption := |s.log|] else s.pending)
    case Abandon(redemption) => s.(pending := s.pending - {redemption})
    case Issue(redemption, token, now) =>
      s.(pending := s.pending - {redemption},
         tokens := Unexpired(s.tokens, now)[token := now + CAP_TOKEN_TTL_MS],
         issuedFrom := s.issuedFrom[token := s.pending[redemption]])
    case Spend(token, now) =>
      s.(tokens := s.tokens - {token},
         spent := if token in s.tokens && s.tokens[token] > now then s.spent + [token] else s.spent)
  }

  ghost predicate Reaches(digest: Digest, s: State, events: seq<Event>, t: State)
    decreases |events|
  {
    if events == [] then s == t
    else Enabled(s, events[0]) && Reaches(digest, Apply(digest, s, events[0]), events[1..], t)
  }

  /** The positions of the accepted quota calls. */
  ghost function AcceptedCalls(digest: Digest, log: seq<Call>): set<nat>
  {
    set i: nat | i < |log| && Accepted(digest, log, i)
  }

  /** Pending redemptions and issued tokens stand on accepted quota calls, all different. */
  ghost predicate QuotaInv(accepted: set<nat>, pending: map<nat, nat>, issuedFrom: map<string, nat>)
  {
    && (forall r :: r in pending ==> pending[r] in accepted)
    && (forall t :: t in issuedFrom ==> issuedFrom[t] in accepted)
    && (forall r, q :: r in pending && q in pending && r != q ==> pending[r] != pending[q])
    && (forall r, t :: r in pending && t in issuedFrom ==> pending[r] != issuedFrom[t])
    && (forall t, u :: t in issuedFrom && u in issuedFrom && t != u ==> issuedFrom[t] != issuedFrom[u])
  }

  /** A spent token was issued, is gone from the table, and is spent once. */
  ghost predicate SpendInv(tokens: map<string, nat>, issuedFrom: map<string, nat>, spent: seq<string>)
  {
    && (forall t :: t in tokens ==> t in issuedFrom && t !in spent)
    && (forall t :: t in spent ==> t in issuedFrom)
    && (forall i, j :: 0 <= i < j < |spent| ==> spent[i] != spent[j])
  }

  ghost predicate Inv(digest: Digest, s: State)
  {
    && QuotaInv(AcceptedCalls(digest, s.log), s.pending, s.issuedFrom)
    && SpendInv(s.tokens, s.issuedFrom, s.spent)
  }

  lemma LogGrows(digest: Digest, log: seq<Call>, call: Call)
    ensures AcceptedCalls(digest, log + [call])
         == AcceptedCalls(digest, log) + if CallResult(digest, After(digest, log), call).Ok? then {|log|} else {}
  {
    forall i: nat | i < |log| ensures Accepted(digest, log + [call], i) <==> Accepted(digest, log, i) {
      OldAnswers(digest, log, call, i);
    }
    NewAnswer(digest, log, call);
  }

  lemma OldAnswers(digest: Digest, log: seq<Call>, call: Call, i: nat)
    requires i < |log|
    ensures Accepted(digest, log + [call], i) <==> Accepted(digest, log, i)
  {
    assert (log + [call])[..i] == log[..i];
  }

  lemma NewAnswer(digest: Digest, log: seq<Call>, call: Call)
    ensures Accepted(digest, log + [call], |log|) <==> CallResult(digest, After(digest, log), call).Ok?
  {
    assert (log + [call])[..|log|] == log;
  }

  lemma QuotaStep(accepted: set<nat>, pending: map<nat, nat>, issuedFrom: map<string, nat>, redemption: nat, n: nat)
    requires QuotaInv(accepted, pending, issuedFrom) && redemption !in pending && n !in accepted
    ensures QuotaInv(accepted + {n}, pending[redemption := n], issuedFrom)
  {
  }

  lemma IssueStep(
        accepted: set<nat>, pending: map<nat, nat>, issuedFrom: map<string, nat>, redemption: nat, token: string)
    requires QuotaInv(accepted, pending, issuedFrom) && redemption in pending && token !in issuedFrom
    ensures QuotaInv(accepted, pending - {redemption}, issuedFrom[token := pending[redemption]])
  {
  }

  lemma MintStep(s: State, token: string, now: nat, from: nat)
    requires SpendInv(s.tokens, s.issuedFrom, s.spent) && token !in s.issuedFrom
    ensures SpendInv(Unexpired(s.tokens, now)[token := now + CAP_TOKEN_TTL_MS], s.issuedFrom[token := from], s.spent)
  {
  }

  lemma SpendStep(s: State, token: string, now: nat)
    requires SpendInv(s.tokens, s.issuedFrom, s.spent)
    ensures SpendInv(s.tokens - {token}, s.issuedFrom,
                     if token in s.tokens && s.tokens[token] > now then s.spent + [token] else s.spent)
  {
  }

  lemma ApplyInv(digest: Digest, s: State, e: Event)
    requires Inv(digest, s) && Enabled(s, e)
    ensures Inv(digest, Apply(digest, s, e))
  {
    match e
    case OtherQuota(call) => LogGrows(digest, s.log, call);
    case RedeemQuota(redemption, call) =>
      LogGrows(digest, s.log, call);
      if CallResult(digest, After(digest, s.log), call).Ok? {
        QuotaStep(AcceptedCalls(digest, s.log), s.pending, s.issuedFrom, redemption, |s.log|);
      }
    case Abandon(redemption) =>
    case Issue(redemption, token, now) =>
      IssueStep(AcceptedCalls(digest, s.log), s.pending, s.issuedFrom, redemption, token);
      MintStep(s, token, now, s.pending[redemption]);
    case Spend(token, now) => SpendStep(s, token, now);
  }

  lemma {:induction false} RunInv(digest: Digest, s: State, events: seq<Event>, t: State)
    requires Inv(digest, s) && Reaches(digest, s, events, t)
    ensures Inv(digest, t)
    decreases |events|
  {
    if events != [] {
      ApplyInv(digest, s, events[0]);
      RunInv(digest, Apply(digest, s, events[0]), events[1..], t);
    }
  }

  /** Whatever the interleaving, two different cap tokens never come from one (quota token, scope). */
  lemma OneTokenPerQuota(digest: Digest, events: seq<Event>, s: State, t: string, u: string, gap: nat, delay: nat)
    requires Reaches(digest, Start, events, s)
    requires Timely(s.log, gap, delay) && gap + delay <= NULLIFIER_TTL_MS - 6 * EPOCH_WINDOW_MS
    requires t in s.issuedFrom && u in s.issuedFrom && t != u
    ensures s.issuedFrom[t] < |s.log| && s.issuedFrom[u] < |s.log|
    ensures !SameQuota(s.log[s.issuedFrom[t]], s.log[s.issuedFrom[u]])
  {
    RunInv(digest, Start, events, s);
    var i, j := s.issuedFrom[t], s.issuedFrom[u];
    assert i in AcceptedCalls(digest, s.log) && j in AcceptedCalls(digest, s.log);
    if SameQuota(s.log[i], s.log[j]) {
      if i < j {
        AcceptedAtMostOnce(digest, s.log, i, j, gap, delay);
      } else {
        AcceptedAtMostOnce(digest, s.log, j, i, gap, delay);
      }
    }
  }

  /** Every accepted cap token was issued, is accepted once, and used up a quota of its own. */
  lemma SpendsAreBacked(digest: Digest, events: seq<Event>, s: State, i: nat, j: nat, gap: nat, delay: nat)
    requires Reaches(digest, Start, events, s)
    requires Timely(s.log, gap, delay) && gap + delay <= NULLIFIER_TTL_MS - 6 * EPOCH_WINDOW_MS
    requires i < j < |s.spent|
    ensures s.spent[i] != s.spent[j]
    ensures s.spent[i] in s.issuedFrom && s.spent[j] in s.issuedFrom
    ensures s.issuedFrom[s.spent[i]] < |s.log| && s.issuedFrom[s.spent[j]] < |s.log|
    ensures !SameQuota(s.log[s.issuedFrom[s.spent[i]]], s.log[s.issuedFrom[s.spent[j]]])
  {
    RunInv(digest, Start, events, s);
    assert s.spent[i] in s.spent && s.spent[j] in s.spent;
    OneTokenPerQuota(digest, events, s, s.spent[i], s.spent[j], gap, delay);
  }
}

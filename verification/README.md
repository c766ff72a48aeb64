# Verified model of the chat server core

This Dafny project models the decision-making core of the Rust server (`rust/src`) and proves what its
maintainers rely on: the number theory behind the delay challenges, the unambiguity of signed JSON, the
bookkeeping of the dead-drop mailbox, the single-use and rate-limiting stores, community rooms under
interleaved handlers, link previews that race with edits, the paged account listing, and the metadata
filter for uploaded images. To verify the project, run `dafny verify dfyconfig.toml` in this directory.

| module | models |
|---|---|
| `Arithmetic`, `Vdf` | the Miller-Rabin test, the Fiat-Shamir prime, the Wesolowski check |
| `JsonText`, `CanonicalJson` | a JSON reader written from RFC 8259; the canonical printer and the signed text of a prekey bundle |
| `DeadDrop`, `DeadDropRuns` | the mailbox store, and its runs against an unbounded deposit history |
| `SingleUse`, `CapTokens` | quota nullifiers, consumed delay challenges, captcha redemption and cap tokens |
| `RateLimit`, `NonceStore` | the pruned rate limiter and the FIFO nonce store |
| `RoomRoles`, `RoomJoin`, `MessagePreviews`, `Reactions` | community rooms, ban against join, preview tasks, reactions |
| `EditDistance`, `LikePattern` | the two-row distance and LIKE escaping of the account search |
| `UserCursor`, `Pagination`, `UserListing` | the tagged cursor, keyset paging over malformed rows, the admin listing |
| `ImageStrip`, `ImageEncoding` | PNG and JPEG metadata stripping, and its effect on files built by independent encoders |
| `Strings`, `Decimal`, `Wrappers` | string order, sorting and trimming, decimal text, options and results |

## How the source is represented

Code that updates state in place is a class (`DeadDropStore`, `NullifierStore`, `CapServer`, `RateLimiter`,
`MemoryNonceStore`, `ChatMessage`) or a method with loops, proved against a pure function of the old state;
lemmas then speak about that function. Handlers that await between reading and writing shared state are
transition systems on values: each atomic section is one event, and a run is any sequence of enabled
events. SHA-256, signatures, key encapsulation, randomness, SQL's `LOWER` and the clock are parameters.
Text is a sequence of Unicode scalar values; since UTF-8 is injective, equality of text is equality of bytes.

## What turned out differently from what one might expect

- The nullifier table is documented as capped at 10 000 entries; the code only drops expired entries above
  that size. An accepted call leaves at most 10 001 entries if and only if at most 10 000 are still live
  (`SingleUse.TableSizeIff`), and without expiries the table grows with every call
  (`SingleUse.FillingFills`). The model follows the code.
- Single use of a quota token survives stalls of 90 000 ms between the first clock read and the lock, and no
  longer (`SingleUse.SingleUseIff`); `SingleUse.LongerStallsReplay` constructs the failing run.
- The next use of an accepted delay challenge is accepted again exactly when its own clock has reached
  `expires_at`, or a section in between pruned the table with a clock that had
  (`SingleUse.VdfReplayInRunIff`).
- The honest delay proof is turned away whenever t is at most 127 (`Vdf.ShortDelaysAreRejected`); beyond
  that it is accepted exactly when y and pi are at least 2 (`Vdf.HonestAcceptedIff`).
- A rate limit lets fewer than twice the limit through in any window-long interval
  (`RateLimit.FewerThanTwiceTheLimit`), for every limit but `u32::MAX`, which bounds nothing
  (`RateLimit.BoundedIff`).
- Pagination over a fixed table is exact if and only if no limit+1 consecutive malformed rows precede a
  decodable one (`UserListing.FixedTableExactIff`). A row with a negative creation time prints a cursor that
  the server then rejects (`UserListing.NegativeTimeBreaksCursor`); which rows print a cursor that resumes
  behind them is `UserListing.CursorResumesIff`.
- A room's owner can be unseated by nobody's decision: a member-list refresh that read "no record" just
  before the room was created writes back a classic room without an owner (`RoomRoles.SyncUnseatsOwner`).
  The owner is out of everyone else's reach if and only if the record and all pending writes keep the owner
  and no deletion is pending (`RoomRoles.OwnerKeptIff`).
- A persisted ban can be overwritten by a handler that read the room before it (`RoomRoles.BanCanBeLost`). It
  stays until someone lifts it or deletes the room if and only if the record and all pending writes hold it
  and no deletion is pending (`RoomRoles.BanSurvivesIff`). The role invariant survives lost updates all the
  same (`RoomRoles.EveryRunKeepsRoles`).
- A banned account can stay in a room when a session inside takes on the banned account, or when a record
  write brings back a lifted ban (`RoomJoin.ReidentifyingBreaksIt`, `RoomJoin.StaleWriteBreaksIt`). Which steps
  are harmless is exact (`RoomJoin.StepIff`), and so is the invariant: all harmless runs from a state end
  clean if and only if nobody is exposed in it (`RoomJoin.EndsCleanIff`).
- A link preview can end up on a later version of its message: when an edit carries a timestamp that a
  pending task of the message still looks for, be it the task of an earlier edit or of a request for an
  encrypted message (`MessagePreviews.LateReturnIff`, `MessagePreviews.StaleIffSameStamp`). Which edits are
  harmless is exact (`MessagePreviews.EditIff`), and so is the invariant (`MessagePreviews.StaysCurrentIff`).
- A claim leaves an empty queue in the mailbox exactly when everything in the slot had expired
  (`DeadDrop.EmptyQueueLeftIff`); nothing else does (`DeadDrop.OnlyClaimsLeaveEmptyQueues`). The global eviction
  loop never takes its `break` (`DeadDrop.SomeQueueNonEmpty`), and evicts at most one envelope per deposit
  (`DeadDropRuns.AtMostOneEviction`).

## Model

| member | source | states |
|---|---|---|
| Vdf.IsProbablePrime | rust/src/core/vdf.rs:135-184 | the loops decide: listed small prime, or no small factor and a strong probable prime to all twelve bases |
| Vdf.PassesBase | rust/src/core/vdf.rs:163-182 | the squaring loop for one base decides a^d = 1 or a^(d·2^i) = -1 for some i < s |
| Vdf.OddPartTwos | rust/src/core/vdf.rs:155-161 | n-1 = d·2^s with d odd is what the halving loop finds |
| Vdf.PrimesPassEveryBase | rust/src/core/vdf.rs:163-182 | every prime is a strong probable prime to every base below it |
| Vdf.PrimesAreAccepted | rust/src/core/vdf.rs:135-184 | the test never rejects a prime |
| Vdf.AcceptedSatisfiesFermat | rust/src/core/vdf.rs:163-184 | an accepted n satisfies Fermat's congruence for each of the bases below it |
| Vdf.StrongIff | rust/src/core/vdf.rs:155-183 | one base passes if and only if Fermat's congruence holds and halving the exponent meets no square root of 1 other than 1 and -1 |
| Vdf.AcceptedIff | rust/src/core/vdf.rs:135-184 | accepted are exactly the first twelve primes and the numbers that none of them divides or finds anything against |
| Vdf.ExactBelow1681 | rust/src/core/vdf.rs:135-153 | below 41² the test accepts exactly the primes |
| Arithmetic.Euclid | rust/src/core/vdf.rs:163-182 | a prime that divides a product divides a factor |
| Arithmetic.SquareRootsOfOne | rust/src/core/vdf.rs:168-178 | modulo a prime only 1 and -1 square to 1 |
| Arithmetic.Fermat | rust/src/core/vdf.rs:163-182 | a^(p-1) = 1 modulo a prime p that does not divide a |
| Vdf.CandidateShape | rust/src/core/vdf.rs:121-126 | each candidate is odd and has exactly 128 bits, for every digest |
| Vdf.CandidateBytes | rust/src/core/vdf.rs:121-126 | the candidate is the first 16 digest bytes, big-endian, but for its highest and lowest bit |
| Vdf.FirstAccepted | rust/src/core/vdf.rs:109-133 | the counter loop finds the first accepted candidate, and none if and only if no 32-bit counter gives one |
| Vdf.HashToPrime | rust/src/core/vdf.rs:109-133 | a delivered l is accepted, odd, 128 bits long and belongs to the least accepted counter; none is delivered exactly when no counter has one |
| Vdf.HashToElement | rust/src/core/vdf.rs:96-106 | the element lies in [2, N-1) and is congruent to the digest plus 2 modulo N-3 |
| Vdf.WesolowskiEquation | rust/src/core/vdf.rs:310-317 | pi^l · x^(2^t mod l) = x^(2^t) modulo N for the honest proof, for all x, t, l and N |
| Vdf.ProofAcceptedIff | rust/src/core/vdf.rs:301-323 | any proof is accepted if and only if x, y and pi are in bounds and pi^l · x^(2^t mod l) = y modulo N |
| Vdf.OneOutputAccepted | rust/src/core/vdf.rs:310-321 | for fixed x, pi, t and l at most one output is accepted |
| Vdf.HonestAcceptedIff | rust/src/core/vdf.rs:301-323 | the check accepts the honest solver exactly when y and pi are at least 2 |
| Vdf.ShortDelaysAreRejected | rust/src/core/vdf.rs:301-304 | with a 128-bit l and t at most 127 the honest proof is 1 and out of bounds |
| CanonicalJson.CanonicalJson | rust/src/services/phantom_crypto.rs:15-37 | the recursive printer with its part-collecting loops prints the canonical text |
| CanonicalJson.StringReadsBack | rust/src/services/phantom_crypto.rs:23-27 | a reader written from RFC 8259 reads a printed string literal back, whatever follows |
| CanonicalJson.ShortestLiteral | rust/src/services/phantom_crypto.rs:35 | no string literal with the same characters is shorter than the printed one |
| CanonicalJson.ControlSpelling | rust/src/services/phantom_crypto.rs:35 | control characters without a short form are spelled with lower-case hexadecimal digits |
| CanonicalJson.NumberReadsBack | rust/src/services/phantom_crypto.rs:35 | printed integers read back, and carry a sign only when negative |
| CanonicalJson.ReadsBack | rust/src/services/phantom_crypto.rs:15-37 | the reader reads every printed value back, with the keys of every object strictly ascending |
| CanonicalJson.SameMeaningSameText | rust/src/services/phantom_crypto.rs:19-35 | values equal with objects read as maps print the same, whatever the insertion order |
| CanonicalJson.UniqueReading | rust/src/services/phantom_crypto.rs:15-37 | equal texts, even inside a longer text, come from values of equal meaning |
| CanonicalJson.CanonicalIff | rust/src/services/phantom_crypto.rs:15-37 | same text if and only if same meaning |
| CanonicalJson.CanonicalPrekeyBundleText | rust/src/services/phantom_crypto.rs:54-62 | removing the two signature keys from the local map and printing gives the signed text |
| CanonicalJson.SignedTextIff | rust/src/services/phantom_crypto.rs:54-62 | two bundles have the same signed text if and only if they agree on every other field |
| CanonicalJson.SignedTextReads | rust/src/services/phantom_crypto.rs:54-62 | the signed text is JSON for an object with exactly the six unsigned members and their values, keys ascending |
| DeadDrop.DeadDropStore.LiveCount | rust/src/services/phantom.rs:106-108 | the number of queued envelopes over all slots |
| DeadDrop.DeadDropStore.LiveBytes | rust/src/services/phantom.rs:110-116 | the ciphertext length of all queued envelopes |
| DeadDrop.DeadDropStore.SweepExpired | rust/src/services/phantom.rs:126-141 | every queue loses its expired front, emptied queues go, and the count is the number removed |
| DeadDrop.DeadDropStore.Deposit | rust/src/services/phantom.rs:143-175 | push, per-slot cap, sweep when over the cap, then evictions from a slot of minimal front expiry until within the cap |
| DeadDropRuns.DepositKeepsWhatFits | rust/src/services/phantom.rs:143-154 | below the global cap, or into a full slot: the slot keeps all its envelopes below sixteen, all but the oldest at sixteen, then the new one for a day; every other slot is untouched |
| DeadDropRuns.DepositAtTheCapSweeps | rust/src/services/phantom.rs:155-156 | at the global cap every slot first loses exactly its expired envelopes |
| DeadDropRuns.PushEvictsOnlyFromFullSlots | rust/src/services/phantom.rs:151-153 | in runs the per-slot cap evicts nothing below sixteen and one envelope at sixteen |
| DeadDrop.DeadDropStore.TryDeposit | rust/src/services/phantom.rs:118-124 | refuses exactly when the byte budget would be exceeded, and then changes nothing |
| DeadDrop.DeadDropStore.Claim | rust/src/services/phantom.rs:178-193 | returns and removes the first live envelope of the slot, and the expired ones before it |
| DeadDrop.DeadDropStore.Poll | rust/src/services/phantom.rs:269-294 | exactly `want` frames (at most 8): sequential claims of the first names, then none; refused above 64 names |
| DeadDropRuns.ApplyRefinesStore | rust/src/services/phantom.rs:118-193 | the steps of a run are the store's operations |
| DeadDropRuns.EveryRunFromEmpty | rust/src/services/phantom.rs:106-193 | in every run queues are suffixes of the deposit history, nothing is claimed twice, deposited = live + claimed + expired + evicted, and the three bounds hold |
| DeadDropRuns.EveryRunKeepsInv | rust/src/services/phantom.rs:106-193 | the same from any state that satisfies the invariant |
| DeadDropRuns.QueuesSorted | rust/src/services/phantom.rs:143-147 | with a non-decreasing clock every queue is sorted by expiry |
| DeadDropRuns.SweepIsExact | rust/src/services/phantom.rs:126-141 | a sweep keeps exactly the unexpired envelopes and counts exactly the others |
| DeadDropRuns.ClaimIsOldestUnexpired | rust/src/services/phantom.rs:178-193 | a claim returns the oldest queued unexpired deposit, at the history position the ledger notes, or none when there is none |
| DeadDropRuns.EvictionIsMinimal | rust/src/services/phantom.rs:157-173 | in every invariant state the front of an oldest slot expires no later than any live envelope |
| DeadDropRuns.DepositEvictsMinimal | rust/src/services/phantom.rs:143-175 | the one victim of a deposit expires no later than every envelope live at that moment |
| DeadDropRuns.AtMostOneEviction | rust/src/services/phantom.rs:155-174 | a deposit evicts at most one envelope across slots |
| DeadDrop.SomeQueueNonEmpty | rust/src/services/phantom.rs:157-166 | while anything is live there is an oldest slot, so the eviction loop never takes its break |
| DeadDrop.EmptyQueueLeftIff | rust/src/services/phantom.rs:178-193 | after a claim the slot is present and empty if and only if it was present and everything in it had expired |
| DeadDrop.OnlyClaimsLeaveEmptyQueues | rust/src/services/phantom.rs:126-175 | no sweep leaves an empty queue, and no deposit adds one |
| SingleUse.NullifierStore.VerifyAndConsume | rust/src/core/rln.rs:100-145 | window, signature and nullifier checks in order, pruning above 10 000 entries, one insertion |
| SingleUse.CallAcceptedIff | rust/src/core/rln.rs:100-137 | a call is accepted if and only if its token is signed, the nullifier is the right digest, the epoch is open and the nullifier is not remembered |
| SingleUse.CallRemembers | rust/src/core/rln.rs:125-142 | an accepted nullifier is remembered for 180 seconds, and nothing unexpired is forgotten |
| SingleUse.AcceptedAtMostOnce | rust/src/core/rln.rs:100-145 | each (ticket, epoch, action) is accepted at most once in a run of any length, if gap plus delay stays within 90 000 ms |
| SingleUse.LongerStallsReplay | rust/src/core/rln.rs:105-145 | for every gap and delay above 90 000 ms together, a run from the empty table that accepts one quota twice |
| SingleUse.SingleUseIff | rust/src/core/rln.rs:105-145 | with a digest that tells tickets apart, single use holds over all runs if and only if gap plus delay is at most 90 000 ms |
| SingleUse.TableSizeIff | rust/src/core/rln.rs:128-142 | an accepted call leaves at most 10 001 entries if and only if at most 10 000 entries are still live |
| SingleUse.FillingFills | rust/src/core/rln.rs:128-142 | calls for different quotas within one TTL are all accepted, and each adds an entry |
| SingleUse.VdfReplayNeedsDeadline | rust/src/core/vdf.rs:224-249 | a challenge is accepted twice only after some locked section ran at or past its expiry |
| SingleUse.VdfReplayInRunIff | rust/src/core/vdf.rs:231-248 | over runs: the next use is accepted if and only if its clock, or that of a section in between that pruned, has reached the expiry |
| SingleUse.VdfReplayIff | rust/src/core/vdf.rs:231-248 | directly after its first use a challenge is free again exactly from its expiry on |
| CapTokens.CapServer.Redeem | rust/src/core/cap.rs:131-194 | success conditions, the issued token with its expiry, and what a failed redemption has already consumed |
| CapTokens.RedeemedIff | rust/src/core/cap.rs:131-172 | a redemption succeeds if and only if each of its conditions on request and stores holds |
| CapTokens.CapServer.ConsumeToken | rust/src/core/cap.rs:196-231 | accepted exactly when unexpired, well signed and stored; a well-signed token is removed either way |
| CapTokens.OneTokenPerQuota | rust/src/core/cap.rs:158-187 | whatever the interleaving, two cap tokens never come from one (quota token, scope) |
| CapTokens.SpendsAreBacked | rust/src/core/cap.rs:158-231 | every accepted cap token was issued, is accepted once, and used up a quota of its own |
| RateLimit.RateLimiter.RateLimitHit | rust/src/core/security.rs:246-271 | pruning, bucket creation, window reset and saturating count, with the whole new table |
| RateLimit.PruningInvisible | rust/src/core/security.rs:255-257 | in every run the pruned and the never-pruned limiter give the same answers |
| RateLimit.NotRefusedWithinLimit | rust/src/core/security.rs:258-271 | a call is not refused while its key has had at most `limit` calls, this one included, in the window up to now |
| RateLimit.BurstExact | rust/src/core/security.rs:258-271 | of n calls at one moment exactly the first `limit` are accepted |
| RateLimit.FewerThanTwiceTheLimit | rust/src/core/security.rs:258-271 | for a key with one window and limits up to a bound, any interval of one window length holds fewer than twice the bound of accepted calls |
| RateLimit.BoundedIff | rust/src/core/security.rs:258-271 | that holds over all runs if and only if the limit is below u32::MAX |
| RateLimit.MaximalLimitNeverLimits | rust/src/core/security.rs:270-271 | at limit u32::MAX the saturating counter never exceeds the limit |
| NonceStore.MemoryNonceStore.Reserve | rust/src/services/privacy_pass.rs:87-109 | refuses a known nonce, else evicts the lowest sequence number when full and inserts with the next one |
| NonceStore.MemoryNonceStore.Commit | rust/src/services/privacy_pass.rs:111-119 | succeeds exactly on a reserved nonce and changes only its state |
| NonceStore.MemoryNonceStore.Release | rust/src/services/privacy_pass.rs:121-128 | frees a reserved nonce, never a committed one |
| NonceStore.ReserveEffect | rust/src/services/privacy_pass.rs:87-109 | which nonces a reserve adds and drops: none unless the store is full, then the one with the lowest number |
| NonceStore.CommitEffect | rust/src/services/privacy_pass.rs:111-119 | a commit makes its nonce committed under the same number and changes nothing else |
| NonceStore.ReleaseEffect | rust/src/services/privacy_pass.rs:121-128 | a released reservation can be reserved again at once, a committed nonce cannot |
| NonceStore.CommitSecures | rust/src/services/privacy_pass.rs:87-128 | from a successful commit to the next reserve of its nonce at least 100 000 other reserves have succeeded since its own |
| NonceStore.RunValid | rust/src/services/privacy_pass.rs:75-128 | sequence numbers unique and below next_seq, at most 100 000 entries, next_seq counts the successful reserves |
| NonceStore.ReuseDistance | rust/src/services/privacy_pass.rs:87-128 | a committed nonce is reserved again only after at least 100 000 later successful reserves |
| RoomRoles.UpdateKeepsRoles | rust/src/websocket/protocol.rs:3271-3332 | each handler's update keeps one Administrator (the owner), no stored Member, at most 5 Moderators and 3 SubAdministrators |
| RoomRoles.EveryRunKeepsRoles | rust/src/websocket/protocol.rs:3271-3915 | so does every persisted record in every interleaving of reads and writes, lost updates included |
| RoomRoles.TransferKeeps | rust/src/websocket/protocol.rs:3641-3664 | a transfer keeps the caps and the single Administrator |
| RoomRoles.UpdateEffect | rust/src/websocket/protocol.rs:3292-3915 | who may update, every user's role after each update, and whom bans and timeouts reach |
| RoomRoles.UpdateGrantedIff | rust/src/websocket/protocol.rs:3271-3915 | an update succeeds if and only if the room is a community and the request is granted by rank, permission and role limits |
| RoomRoles.SettingsAfterUpdate | rust/src/websocket/protocol.rs:3271-3915 | every other field of the record after each update |
| RoomRoles.OthersCannotReachOwner | rust/src/websocket/protocol.rs:2818-2887 | nobody else's update moves, demotes, bans or times out the owner |
| RoomRoles.OwnerUntouched | rust/src/websocket/protocol.rs:2818-3664 | from a state whose record and pending writes keep the owner, with no deletion pending, no run without an owner action or a server-admin deletion changes owner or owner role, or bans or times out the owner |
| RoomRoles.OwnerKeptIff | rust/src/websocket/protocol.rs:2818-3664 | and only from such a state: the owner is kept by all those runs if and only if record and pending writes are safe and no deletion is pending |
| RoomRoles.CreatedIsProtected | rust/src/websocket/protocol.rs:3146-3198 | a room created while nothing is pending starts out in such a state |
| RoomRoles.SyncUnseatsOwner | rust/src/websocket/protocol.rs:5013-5030 | a run in which a refresh that began before the creation unseats the owner |
| RoomRoles.BanSurvivesIff | rust/src/websocket/protocol.rs:3345-3443 | a ban outlasts every run in which nobody lifts it or starts deleting the room, if and only if record and pending writes hold it and no deletion is pending |
| RoomRoles.BanCanBeLost | rust/src/websocket/protocol.rs:3345-3383 | a run from no room at all in which a persisted ban disappears without being lifted |
| RoomJoin.NoBannedSessionRemains | rust/src/websocket/protocol.rs:340-388 | after every harmless run, with no join or ban in flight, no session of a banned account is in the room |
| RoomJoin.StepIff | rust/src/websocket/protocol.rs:340-388 | a step keeps the invariant if and only if it is harmless: no session inside takes on a banned account uncovered, no late write bans an account inside uncovered |
| RoomJoin.EndsCleanIff | rust/src/websocket/protocol.rs:2975-2984 | from any state: all harmless runs that end with nothing in flight end clean if and only if nobody is exposed at the start |
| RoomJoin.EveryRunCovers | rust/src/websocket/protocol.rs:2975-2984 | in every harmless run a banned session inside is covered by an operation in flight |
| RoomJoin.StaleWriteIff | rust/src/websocket/protocol.rs:3379-3385 | a late record write keeps the invariant if and only if it bans nobody who is inside and uncovered |
| RoomJoin.IdentifyIff | rust/src/websocket/protocol.rs:340-388 | identifying again keeps it if and only if the session is outside, the account not banned, or the session covered |
| RoomJoin.ReidentifyingBreaksIt | rust/src/websocket/protocol.rs:340-388 | a run in which a session inside takes on a banned account and stays |
| RoomJoin.StaleWriteBreaksIt | rust/src/websocket/protocol.rs:3379-3385 | a run that fails because a write brings back a lifted ban |
| MessagePreviews.PreviewsAreCurrent | rust/src/websocket/protocol.rs:1243-1316 | in every run of harmless edits a stored preview was requested for the current version; a deleted message holds no text, attachment, ciphertext or preview |
| MessagePreviews.EditIff | rust/src/websocket/protocol.rs:1737-1783 | an edit keeps previews and tasks current if and only if no pending task of the message looks for its timestamp |
| MessagePreviews.StaysCurrentIff | rust/src/websocket/protocol.rs:1118-1316 | from any sane state: previews stay current in all harmless runs if and only if previews and tasks are current |
| MessagePreviews.LateReturnIff | rust/src/websocket/protocol.rs:1300-1316 | from every state: an edit and then the return of any earlier task leaves that task's preview if and only if the edit carries the timestamp it looks for |
| MessagePreviews.PatchesIffCurrent | rust/src/websocket/protocol.rs:1822-1839 | a returning task patches exactly when its message is live and unedited since the request, and has room for a preview |
| MessagePreviews.EveryRunKeepsInv | rust/src/websocket/protocol.rs:1118-1137 | the invariant behind it, over all interleavings |
| MessagePreviews.DeletedStaysDeleted | rust/src/websocket/protocol.rs:1578-1588 | a deleted message stays deleted in every run |
| MessagePreviews.StaleIffSameStamp | rust/src/websocket/protocol.rs:1737-1840 | from every state: an edit, a second edit and the first one's task leave a stale preview if and only if the timestamps are equal, and none otherwise |
| MessagePreviews.SameMillisecondGoesStale | rust/src/websocket/protocol.rs:1737-1840 | a run from the empty server in which that happens |
| Reactions.ChatMessage.ToggleReaction | rust/src/websocket/protocol.rs:4800-4831 | the list stays valid and changes by exactly one (emoji, user) pair |
| Reactions.DeterminedByPairs | rust/src/websocket/protocol.rs:4800-4831 | a valid list is determined by its set of pairs |
| Reactions.ToggleTwiceRestores | rust/src/websocket/protocol.rs:4800-4831 | toggling twice gives back the very same list |
| Reactions.TogglesCommute | rust/src/websocket/protocol.rs:4800-4831 | two toggles in either order give the same list |
| EditDistance.LevenshteinDistance | rust/src/core/database.rs:2295-2315 | the two-row loop returns the least length of an edit script |
| EditDistance.FillRow | rust/src/core/database.rs:2307-2313 | the inner loop turns row i of the table into row i+1 |
| EditDistance.LevIsLeast | rust/src/core/database.rs:2295-2315 | the recurrence is the minimum over all insert, delete and substitute scripts |
| EditDistance.ZeroIffEqual | rust/src/core/database.rs:2295-2315 | the distance is zero exactly for equal strings |
| EditDistance.Symmetric | rust/src/core/database.rs:2295-2315 | the distance is symmetric |
| EditDistance.Triangle | rust/src/core/database.rs:2295-2315 | the triangle inequality |
| LikePattern.EscapeIsOnePass | rust/src/core/database.rs:2288-2293 | the three chained replaces are one character-wise pass |
| LikePattern.PrefixSearchExact | rust/src/core/database.rs:1682 | escape(v)% matches exactly the strings that start with v |
| LikePattern.SubstringSearchExact | rust/src/core/database.rs:1683 | %escape(v)% matches exactly the strings that contain v |
| UserCursor.TimeRoundTripIff | rust/src/core/database.rs:294-332 | when a printed time cursor decodes to its position, for every row |
| UserCursor.NameRoundTripIff | rust/src/core/database.rs:310-322 | when a printed name cursor decodes to its position; colons in the name are harmless |
| UserCursor.LegacyTimeAccepted | rust/src/core/database.rs:323-332 | the older untagged time cursor is still read |
| UserCursor.AcceptedForms | rust/src/core/database.rs:294-332 | every accepted cursor is a tagged time, an untagged time or a tagged name, and says what it is decoded to |
| Pagination.DecodeStoredRows | rust/src/core/database.rs:1756-1785 | the decodable rows in order, and how many were skipped |
| Pagination.FetchPage | rust/src/core/database.rs:2005-2021 | one page, the row its cursor names, and the skip count |
| Pagination.PageIs | rust/src/core/database.rs:2009-2021 | a page is the beginning of the decodable rows, as long as the limit and the first limit+1 rows allow, and when it has a cursor |
| Pagination.ChainExactIff | rust/src/core/database.rs:2005-2021 | following the pages returns exactly the decodable rows if and only if there is no gap of limit+1 malformed rows before one |
| Pagination.BrowseIsChain | rust/src/core/database.rs:1792-2021 | over an unchanged table the printed cursors follow those pages, and browsing stops unless a cursor is rejected |
| Pagination.NoRowTwice | rust/src/core/database.rs:1873-1900 | with inserts and deletes between pages the returned rows are strictly increasing, so none comes twice |
| Pagination.PresentThroughoutIsReturned | rust/src/core/database.rs:1873-1900 | a row present throughout a finished chain is returned |
| UserListing.ListUsersPage | rust/src/core/database.rs:1792-2021 | cursor check, page, printed cursor and skip count of one request |
| UserListing.KeysetStrict | rust/src/core/database.rs:1873-1900 | each of the three keyset conditions is a strict order, total on rows with different ids |
| UserListing.KeysetIsOrderBy | rust/src/core/database.rs:1873-1900 | the keyset clause at a row's position selects exactly the rows that the ORDER BY clause puts behind it |
| UserListing.PageInOrder | rust/src/core/database.rs:1970-1974 | the rows of a page come newest first, oldest first, or by lower-cased name |
| UserListing.BrowsedInOrder | rust/src/core/database.rs:1970-1974 | so do all rows of a browsing session, over changing tables too |
| UserListing.StartCoversAll | rust/src/core/database.rs:1802-1811 | the start position of each sort lies before every row with a decimal id |
| UserListing.CursorResumesIff | rust/src/core/database.rs:2009-2021 | a printed cursor is accepted and selects exactly the rows behind its row, if and only if the row is representable in that sort |
| UserListing.NegativeTimeBreaksCursor | rust/src/core/database.rs:2009-2021 | a negative creation time prints a cursor that is rejected |
| UserListing.FixedTableExactIff | rust/src/core/database.rs:1792-2021 | for each sort, whatever malformed rows there are: following honest nextCursors over a fixed table stops unless one is rejected, and then is exact if and only if the start lies before every decodable row and there is no gap |
| UserListing.RepresentableIsHonest | rust/src/core/database.rs:2009-2021 | representable decodable rows are enough for all printed cursors to be honest |
| UserListing.RepresentableNotRejected | rust/src/core/database.rs:294-332 | no representable row's cursor is rejected |
| UserListing.ChangingTables | rust/src/core/database.rs:1792-2021 | for each sort, over changing tables and with honest cursors, no row comes twice and rows present throughout are returned |
| ImageStrip.StripImageMetadata | rust/src/services/user.rs:129-213 | by MIME type the PNG filter, the JPEG filter or nothing; never longer than the input |
| ImageStrip.StripPngMetadata | rust/src/services/user.rs:131-166 | the chunk loop prints the parsed chunks without the metadata types |
| ImageStrip.StripJpegMetadata | rust/src/services/user.rs:167-212 | the segment loop prints the parsed segments without the metadata markers, and the ending |
| ImageStrip.PngRoundTrip | rust/src/services/user.rs:131-166 | re-parsing the result gives the input's chunks minus metadata, in order |
| ImageStrip.PngIdempotent | rust/src/services/user.rs:131-166 | stripping twice is stripping once, and never lengthens |
| ImageEncoding.StrippedPng | rust/src/services/user.rs:131-166 | on an encoded PNG file exactly the chunks whose name is none of the seven survive, byte for byte |
| ImageStrip.JpegRoundTrip | rust/src/services/user.rs:167-212 | re-parsing the result gives the input's segments minus metadata, in order, and the same ending |
| ImageStrip.JpegIdempotent | rust/src/services/user.rs:167-212 | stripping twice is stripping once, and never lengthens |
| ImageEncoding.StrippedJpeg | rust/src/services/user.rs:167-212 | on an encoded JPEG file exactly the segments with none of the four markers survive, without fill bytes, and the ending |

## Left out

- Soundness of the delay function and of Miller-Rabin: composites above 1680 may be accepted, and nothing is claimed about forged proofs.
- Vdf.FirstAccepted: does not prove that a candidate is found. The result is none when the 32-bit counter overflows; whether the program then stops or starts over depends on how it was built.
- Vdf.HashToPrime: inherits that result; nothing says how often it is none.
- Vdf.HonestAcceptedIff: covers the arithmetic part of `verify_vdf`; hex parsing, the size bound, signature, target and expiry checks are not part of this model. `modpow` is x^e mod n.
- CanonicalJson.CanonicalJson: numbers are integers (no float printing) and text is scalar values instead of bytes. The reader of `JsonText` has no insignificant white space.
- LikePattern.SubstringSearchExact: LIKE is case-sensitive here; the server lowers both sides before matching.
- DeadDrop.DeadDropStore.Deposit: `now + TTL` does not wrap around; times are unbounded naturals throughout the project.
- DeadDrop.DeadDropStore.Poll: the rate limit in front of the claim loop is not modelled.
- RateLimit.FewerThanTwiceTheLimit: each key is used with one window; limits may differ between callers, as they do for room icons. A successful login removes its own bucket (rust/src/server/routes.rs:415), which no modelled run does.
- NonceStore.ReuseDistance: fewer than 2^64 reserves.
- CapTokens.OneTokenPerQuota: the interleaved machine has the quota call, the issue and the spend as steps; the delay and key checks between them only abandon a redemption.
- RoomRoles.EveryRunKeepsRoles: handlers that change only title, icon or member list appear without their authority checks, and rate limits and broadcasts are omitted; kicks change no record.
- RoomRoles, RoomJoin, MessagePreviews: interleaved handlers are transition systems on values, not objects with aliasing; that locks make each section atomic is taken from the source.
- RoomJoin.NoBannedSessionRemains: one community room; the limit on rooms per player is not modelled.
- MessagePreviews.PreviewsAreCurrent: message authorship checks, profiles and reactions of a message are not part of that machine; ids are unique over the life of the server.
- UserListing.FixedTableExactIff: asks that the cursors actually printed and accepted are honest (`CursorResumesIff` says which rows' are); what a cursor that comes back with another id leads to is not followed further.
- UserListing.ChangingTables: the same.
- UserListing.ListUsersPage: the database's part is the selection of matching rows in order; filter conditions, ranks and SQL rendering are not modelled, and LOWER is any function that keeps the empty string empty.
- Pagination.PresentThroughoutIsReturned: a chain that ends on a page cut off by malformed rows promises nothing; `complete` names the other endings.
- Voice and call state, message history limits, badges, statistics, configuration, link-preview fetching and file storage.
- Argon2, HMAC, ECDSA, ML-DSA and ML-KEM.

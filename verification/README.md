# UXSP protocol core in Dafny

A model of the stateful protocol core of UXSP, the encrypted messaging and session library, with machine-checked
proofs of what it is for. `dafny verify dfyconfig.toml` checks everything.

- `Bytes`, `BindFields`, `Sorting`, `Intervals`, `Wrappers`, `Ideal`: byte strings, the canonical length-prefixed
  encoding, the stable sort, logs of admission times, and the idealised cryptography.
- `Sessions`: the session as a value with one function per locked section, and as an object changed in place.
  `ReplayWindow` (the filter alone), `WindowRuns` (the filter inside whole sessions), `Channel` (two strict-order
  sessions over a hostile network) and `Budget` (any number of threads) are about runs of it.
- `NonceStore`, `ReplayGuard`, `Tiered`: the stores that make things happen at most once.
- `Handshake`, `HandshakeObject`, `Agreement`: the three-step handshake and its runs among any number of parties.
  `SecureChannel` joins it to the channel.
- `Live`: the streaming ratchet. `SlidingLimiter`, `FixedWindowLimiter`, `TokenBucket`: the three limiters.
- `Chunks`, `Chunking`, `Reassembly`, `ChunkingJs`: chunked transfer in Python and JavaScript.
- `Envelopes`, `Engine`: sealed envelopes and whole-payload sending and receiving.
- `Certificates`: signed cards, revocation lists, trust store. `Domains`: what keeps all signed messages apart.
- `KeyStoreCache`: the two-tier key store.
- `WebSocket`: the session manager of a WebSocket connection.

Every mutable object of the source is a class whose methods are proved against pure functions; the theorems are about
those functions and about whole runs of them. Ghost fields (admission logs, known sessions) never influence results.

## Assumptions

Stated once, here and in `Ideal`:

- Secrets are symbolic terms, so key derivation and key exchange are injective and both ends of an exchange arrive at
  the same term. Signatures are symbolic: signer and message. Integrity of the AEAD is assumed per delivered ciphertext:
  what opens under an honest key was sealed under it with the same associated data. HMAC is collision free; SHA-256 is
  any function to 64 lower-case hex digits.
- A signature of an honest party on the network was made by it, for a handshake message, an envelope, a card or a list;
  cards are genuine; session ids (UUIDs) and the ephemeral keys of answers are fresh.
- Sizes are those of AES-256-GCM, X25519, Ed25519, ML-KEM-768 and ML-DSA-65.
- The clock is a parameter of every call and does not go back between calls; times are exact reals. Where a call reads
  the clock twice, both readings are parameters and the theorems say how far apart they may be.
- Text is its UTF-8 bytes, JSON and hex are decoded before the model begins, and missing or ill-typed fields are values
  of the model. The chunk header codec is any pair with decode after encode the identity.
- A locked section is one step. Code outside the lock is interleaved where the source releases it.

## Where the code decides the hypothesis

- Window mode prunes before it rolls a failed decryption back (`uxsp/core/session.py:406-408`, `419-423`). The filter is
  unharmed exactly when that pruning drops nothing inside the window; `ForgedNumberReopensWindow` is a run where it does.
- The guard's freshness test and the store's expiry test are both closed and meet at one instant, so at-most-once needs
  the timestamp, plus any gap between the two clock readings of a commit, strictly below clock + skew, and holds exactly
  then.
- `f"{cert_id}:{date}:{reason}"` can be read as another entry exactly if the id extends a shorter id by `:<integer>` and
  then ends or goes on with a colon, or the reason starts like the rest of a longer id followed by an integer and a
  colon: `("a", 1, "2:x")` reads like `("a:1", 2, "x")`. Lists in which no id has a colon are never confused with each
  other; against arbitrary lists a verifier can check the condition on the entries it received.
- The comment at `uxsp/secure/_engine.py:77` is not true: the envelope takes `overhead + 2 * payload` bytes of JSON, and
  with two 36-character ids the overhead is 9340. Payloads of 28099 to 30720 bytes take the single-envelope branch and
  are always refused; `SealReturnsExactly` says which seals return.
- Whether a package is chunked is not signed. Clearing the mark of a chunked package makes the receiver accept its session
  key as the payload (`ClearedMarkDeliversKey`); with the mark in place the payload is whole (`AcceptedIsWhole`).
- A HELLO is answered, and a handshake completed, at most once as long as no call lets more than 29 s pass between its
  freshness reading and its mark, and no longer (`LongerDelaysAnswerTwice`, `LongerDelaysCompleteTwice`); no code enforces
  that. Agreement, and that exactly one session mirrors a completion, do not depend on it.
- A forged live frame of a later epoch fails but moves the ratchet: genuine frames of earlier epochs are lost, later ones
  open (`ForgedFrameSkipsExactly`).
- A revocation between the two parts of `encrypt` seals the message under the wiped key (`SealedUnderSendKey`).
- The comment of the fixed-window limiter speaks of a short burst at the boundary; the exact bound is
  2 * max_requests - 1 per window length, attained for every limit and window.
- `close()` raises instead of revoking when the session has expired; the session stays attached but never gets ready.
- A durable-tier failure after the fast mark leaves a nonce that every call is refused for as long as the fast tier neither
  fails nor loses data. A fresh nonce is won at all exactly if the first effective durable access answers.
- A cache read is stale exactly after a backend change that did not bring a differing cached entry along.

## Model

| member | source | states |
|---|---|---|
| Agreement.Agreement | uxsp/core/handshake.py:530-597 | In every run over a network that drops, repeats, reorders and forges all but honest signatures, each session complete() returns with an honest responder mirrors a session that responder made: same id, swapped parties, equal final secret, and swapped directional keys exactly when both configured the same key_info |
| Agreement.InjectiveAgreement | uxsp/core/handshake.py:456-597 | In every such run each completion with an honest responder is mirrored by exactly one responder session, however slow the calls |
| Agreement.MirroredAtMostOnce | uxsp/core/handshake.py:253-305 | Whoever is honest and however slow the calls, at most one responder session mirrors an outcome, since every answer draws its own exchange |
| Agreement.CompletedAtMostOnce | uxsp/core/handshake.py:564-565 | With both parties honest a handshake is completed at most once, when no call takes more than 29 s from its freshness reading to its mark |
| SecureChannel.HandshakenSessionsDeliverInOrder | uxsp/core/handshake.py:456-597 | From HELLO to plaintext: a completion with an honest responder and the one session mirroring it, under strict order and equal key_info, deliver in each direction a prefix of what the other side sent |
| SecureChannel.MirroredAreEndpoints | uxsp/core/handshake.py:509-526 | The mirrored sessions are exactly the two endpoints an ordered channel starts from |
| Agreement.OneResponderSession | uxsp/core/handshake.py:491-494 | With the same bound on delays, a responder makes at most one session from one HELLO, whoever sent it, and at most one per session id of an honest initiator, per nonce store |
| Agreement.LongerDelaysAnswerTwice | uxsp/core/handshake.py:176-186 | For every delay over 29 s there is a run, with each call within that delay, in which a responder makes two sessions with different exchanges from one HELLO: the bound is exact |
| Agreement.LongerDelaysCompleteTwice | uxsp/core/handshake.py:564-565 | Likewise, for every longer delay there is a run in which one handshake is completed twice with one ACK |
| Agreement.ResponderAgreement | uxsp/core/handshake.py:456-526 | A session made by respond() for an honest initiator belongs to a handshake that party began with this responder, resting on the same first secret |
| Agreement.SecondAcceptanceIsMarked | uxsp/core/handshake.py:147-185 | Freshness against lifetime: two acceptances of one timestamp (30 s either way on truncated clocks) fall within the 90 s of the mark, for up to 29 s between the clock readings of a call |
| Agreement.AckedMirrors | uxsp/core/handshake.py:391-405 | The HMAC proof pins the responder's first secret to the initiator's, so the answer behind an accepted ACK mirrors the completion |
| Agreement.SameFinalSameExchanges | uxsp/core/handshake.py:504-583 | A completion and an answer with equal final secrets rest on the same two exchanges, the first from the HELLO and the second from the ACK, for the same id and parties, with nobody honest and nothing assumed of the MAC |
| Agreement.EqualFinalsMirror | uxsp/core/handshake.py:504-583 | Over every run, whoever is honest: a completion and an answer with equal final secrets are mirrored and rest on both of the same exchanges |
| Agreement.HelloComesFromInitiate | uxsp/core/handshake.py:105-144 | A HELLO under an honest signature repeats the session id, parties, timestamp and key material of a handshake its signer began |
| Agreement.AckComesFromRespond | uxsp/core/handshake.py:253-305 | An ACK under an honest signature repeats the fields of an answer its signer gave |
| Agreement.StepKeepsCore | uxsp/core/handshake.py:413-597 | Every event of a run, of any duration, keeps what agreement rests on: what each record says, and where honest signatures come from |
| Agreement.StepKeepsOnce | uxsp/core/handshake.py:491-494 | Every prompt event keeps the marks alive and the records unique |
| Agreement.DirectionKeysAgree | uxsp/core/session.py:221-243 | Two configurations derive the same directional key exactly when their key_info agrees |
| Handshake.HelloBytesDetermine | uxsp/core/handshake.py:119-128 | Equal signed HELLO bytes force equal session id, parties, key material, timestamp and joined version list |
| Handshake.AckBytesDetermine | uxsp/core/handshake.py:278-288 | Equal signed ACK bytes force equal version, session id, parties, proof, key material and timestamp |
| Handshake.HelloIsNoAck | uxsp/core/handshake.py:119-128 | No signed HELLO has the bytes of a signed ACK |
| Handshake.FinalSecretDetermines | uxsp/core/handshake.py:504-583 | Equal final secrets come from equal first and second secrets and equal session ids |
| Handshake.KeysNeedBothExchanges | uxsp/core/handshake.py:504-583 | Whoever was not handed the final or a directional key can derive it if and only if both exchange secrets are known to them |
| Handshake.HelloSays | uxsp/core/handshake.py:105-144 | The HELLO built for a responder carries the given fields and clock and is signed by its initiator over exactly its own fields |
| Handshake.HelloAcceptedExactly | uxsp/core/handshake.py:147-241 | A HELLO is accepted if and only if type, age of at most 30 s either way, both ids, a common version and the signature over its fields are in order; out of age it is reported expired, otherwise unauthentic |
| Handshake.AckSays | uxsp/core/handshake.py:253-305 | The ACK carries version, ids, clock and the MAC of the first secret over the session id, signed over exactly its own fields |
| Handshake.AckAcceptedExactly | uxsp/core/handshake.py:308-388 | The same exact condition for an ACK |
| Handshake.RespondExactly | uxsp/core/handshake.py:483-528 | When respond() answers, when it leaves a mark, which error it raises, and that the session has the given configuration and is active |
| Handshake.CompleteExactly | uxsp/core/handshake.py:547-597 | When complete() succeeds, when it leaves a mark, which error it raises, and that the session has the configuration given to initiate() and is active |
| Domains.KindsAreApart | uxsp/crypto/hybrid.py:525-535 | HELLO, ACK, envelope, card and revocation list are told apart by first field, number of fields, or the colon every list entry has and a card lacks, without exception |
| Domains.HandshakeBytesAreTheirOwn | uxsp/core/handshake.py:119-128 | The bytes signed for a handshake message are those of no other kind of message |
| HandshakeObject.Handshake.Initiate | uxsp/core/handshake.py:434-453 | The object left by initiate() holds exactly the pending handshake the pure step describes |
| HandshakeObject.Handshake.Respond | uxsp/core/handshake.py:455-528 | Order of checks, the store mark, ACK and active session of respond(), with the store state on every path |
| HandshakeObject.Handshake.Complete | uxsp/core/handshake.py:530-597 | Order of checks, the store mark and active session of complete(); refused without initiate(), and a failure leaves the object's session |
| ReplayWindow.WindowRefinesUnbounded | uxsp/core/session.py:388-428 | Window mode makes the same decision as remembering every accepted number for ever, over whole runs in which no failed decryption forgets a number inside the window; at most 256 are held |
| ReplayWindow.RefinesExactly | uxsp/core/session.py:388-428 | Throughout a run the window decides about every number like the unbounded filter if and only if no failed decryption of the run forgets |
| ReplayWindow.FailureKeepsFilter | uxsp/core/session.py:406-423 | A failed decryption leaves every later decision unchanged if and only if the pruning before the rollback dropped nothing inside the window |
| ReplayWindow.GuardedRunsRefine | uxsp/core/session.py:400-423 | A run whose failed attempts start below 256 entries or do not exceed the maximum decides like the unbounded filter throughout |
| ReplayWindow.ForgedNumberReopensWindow | uxsp/core/session.py:406-423 | From any fresh window-mode session, receiving 0..255 and then a forged 256 makes the accepted number 128 pass again |
| ReplayWindow.NoNumberTwice | uxsp/core/session.py:388-398 | In such a run no sequence number is accepted twice |
| ReplayWindow.MemoryBounded | uxsp/core/session.py:400-423 | Whatever arrives, the held set stays within 256 entries and the maximum is its maximum, or -1 |
| ReplayWindow.ReceiveIsStep | uxsp/core/session.py:369-428 | The locked section of decrypt on an active session is one step of the filter |
| WindowRuns.RunDecides | uxsp/core/session.py:297-431 | The same refinement inside runs of whole sessions with any interleaving of encrypts, decrypts, expiry and revocation: a genuine payload is handed up exactly when its number was never accepted and is not below the window |
| WindowRuns.SectionAgrees | uxsp/core/session.py:369-428 | Each locked section keeps agreement with the unbounded record and hands up exactly what the record admits |
| Channel.OrderedDelivery | uxsp/core/session.py:369-384 | Strict-order mode, two sessions, arbitrary injected payloads: in each direction the delivered plaintexts are a prefix of those sent and the counters count them |
| Channel.OrderedDecrypt | uxsp/core/session.py:333-431 | A rejected or failing payload leaves everything but an expiring state as it was; a success advances recv_seq by one |
| Channel.NextPayloadArrives | uxsp/core/session.py:297-327 | The peer's next payload, unaltered, is delivered as the plaintext that was encrypted |
| Channel.DirectionsDiffer | uxsp/core/session.py:221-243 | The two directions never share a key |
| Budget.BudgetHolds | uxsp/core/session.py:253-327 | Any interleaving of the locked sections of any number of threads: numbers handed out plus plaintexts handed up stay within max_messages and are what the counters count, no two encrypts share a number, the state never moves back |
| Budget.SpentBudgetStops | uxsp/core/session.py:253-264 | Once the budget is used up no section hands out a number or accepts a payload |
| Budget.OutlivedStops | uxsp/core/session.py:253-264 | Once every clock reading is past creation plus max_lifetime_seconds, no sequence of sections hands out a number or accepts a payload |
| Budget.StepKeepsInv | uxsp/core/session.py:253-295 | One locked section keeps the budget, the numbering and the order of states |
| Sessions.SessionObject.Encrypt | uxsp/core/session.py:297-327 | With no other thread in between, one call allocates the next number, seals under the send key with "<id>:<seq>" and evaluates expiry, or refuses by state |
| Sessions.SessionObject.AllocateNumber | uxsp/core/session.py:313-316 | The locked section: a refusal by state, or the next number |
| Sessions.SessionObject.SealNumbered | uxsp/core/session.py:316-319 | Outside the lock: the ciphertext under whatever key the session holds by then |
| Budget.SealedUnderSendKey | uxsp/core/session.py:313-320 | With any sections of other threads between the two parts of encrypt, the ciphertext is under the send key if and only if none of them revoked; otherwise under the wiped key |
| Sessions.SessionObject.Decrypt | uxsp/core/session.py:333-431 | Validation, in-place marking, decryption, rollback and expiry together have the closed-form effect of the pure step |
| Sessions.SessionObject.Admit | uxsp/core/session.py:371-408 | Both modes: passes exactly the expected or unseen in-window number and leaves the mark, otherwise changes nothing |
| Sessions.SessionObject.RollBack | uxsp/core/session.py:413-423 | Discarding the mark after a failed decryption reaches the closed-form state that pruned first |
| Sessions.AcceptThenForget | uxsp/core/session.py:399-423 | Marking, pruning, then discarding a number equals the closed form of a failed decryption |
| Sessions.SessionObject.RemainingMessages | uxsp/core/session.py:484-496 | While active remaining_messages is positive and remaining_messages + message_count = max_messages; otherwise zero |
| Sessions.SessionObject.CheckActive | uxsp/core/session.py:253-284 | Expiry by age or count, then the refusal that matches the state |
| Sessions.SessionObject.EvaluateExpiry | uxsp/core/session.py:253-264 | An active session expires exactly when older than max_lifetime_seconds or at max_messages; any other stays |
| Sessions.EncryptsExactlyWhileAlive | uxsp/core/session.py:253-327 | An active session encrypts if and only if it is within its lifetime and below the cap; otherwise it expires and raises SessionExpiredError |
| Sessions.DecryptsExactlyWhileAlive | uxsp/core/session.py:253-431 | The same for a well-formed payload, and which of the three results a living session gives |
| Sessions.EndedSessionsRefuse | uxsp/core/session.py:274-284 | A session that is not active refuses both calls with the error of its state and does not change |
| Sessions.MalformedIsRefusedFirst | uxsp/core/session.py:341-368 | A malformed payload is refused in every state and changes nothing, the state included |
| Sessions.ExpiresAtOnce | uxsp/core/session.py:320-430 | The call that uses up the budget or outlives the session still succeeds and leaves it expired |
| Sessions.SessionObject.Activate | uxsp/core/session.py:247-251 | Activation succeeds exactly from PENDING |
| Sessions.SessionObject.Revoke | uxsp/core/session.py:286-291 | Revocation is immediate, from any state, and wipes both keys |
| ReplayGuard.AtMostOnce | uxsp/core/replay.py:191-206 | An envelope first committed with its timestamp below clock + skew (less any gap between freshness reading and mark) is never committed again under any interleaving of prechecks, is_seen deletions, cleanups and other marks |
| ReplayGuard.AtMostOnceExactly | uxsp/core/replay.py:147-206 | For every gap allowed between freshness reading and mark, at-most-once holds if and only if timestamp + gap is strictly below clock + skew |
| ReplayGuard.ClosedEndsMeet | uxsp/core/replay.py:147-160 | At timestamp = clock + skew a precheck and a commit at the instant of expiry open the envelope a second time |
| ReplayGuard.FreshnessMeans | uxsp/core/replay.py:147-160 | Fresh if and only if clock - window <= timestamp <= clock + skew; before that stale, after it in the future |
| ReplayGuard.CommitExactly | uxsp/core/replay.py:191-206 | A commit succeeds if and only if the envelope is usable, in time, its nonce not blocked by a mark and the store not full of live ones |
| ReplayGuard.PrecheckExactly | uxsp/core/replay.py:173-189 | A precheck succeeds if and only if the envelope is usable, in time and its nonce has no live mark |
| ReplayGuard.RefusalNames | uxsp/core/replay.py:117-206 | Every refusal of commit names its reason: malformed, stale, future, duplicate, store full |
| ReplayGuard.CommitsAreInTime | uxsp/core/replay.py:191-206 | Over runs: every commit of an envelope read a clock in [timestamp - skew, timestamp + window] |
| ReplayGuard.Guard.Commit | uxsp/core/replay.py:191-206 | Freshness as two comparisons with the clock, then mark_used with TTL window + skew, error by error |
| ReplayGuard.Guard.Precheck | uxsp/core/replay.py:173-189 | Freshness as two comparisons with the clock, then is_seen, error by error |
| ReplayGuard.Guard.CheckFreshness | uxsp/core/replay.py:117-160 | Succeeds exactly for usable envelopes with clock - window <= timestamp <= clock + skew; otherwise malformed, stale or future |
| NonceStore.MemoryNonceStore.MarkUsed | uxsp/core/nonce.py:144-166 | Periodic and full-store cleanup, duplicate test, capacity error and insertion, with the whole new store |
| NonceStore.MemoryNonceStore.IsSeen | uxsp/core/nonce.py:168-183 | Reports a live mark and deletes an expired one |
| NonceStore.MemoryNonceStore.Cleanup | uxsp/core/nonce.py:185-195 | Removes exactly the entries whose expiry has come and counts them |
| NonceStore.MarkUsedFacts | uxsp/core/nonce.py:144-166 | A mark reported first was absent or expired before, is stored with its expiry, the store stays within capacity, and no other live mark is lost |
| NonceStore.MarkUsedExactly | uxsp/core/nonce.py:144-166 | False exactly for a nonce still held after the periodic cleanup, an error exactly for a new one with 100000 live marks, otherwise True |
| NonceStore.MarkUsedKeeps | uxsp/core/nonce.py:144-166 | No other mark appears or changes its expiry, and every thousandth call leaves live marks only |
| Tiered.AtMostOneWinner | uxsp/storage/noncestore.py:499-511 | Any interleaving, any failures of either tier: no two mark_used calls on one nonce return True |
| Tiered.ExactlyOneWinner | uxsp/storage/noncestore.py:499-511 | With the durable tier answering and the fast tier failing, losing data or recovering at any step, exactly one completed call returns True |
| Tiered.WinnerExactly | uxsp/storage/noncestore.py:499-511 | With failures of either tier anywhere, somebody wins a fresh nonce if and only if the first access that takes effect in the durable tier answers |
| Tiered.TrueReturnedExactly | uxsp/storage/noncestore.py:499-511 | Once all calls have finished, one of them returned True exactly under that condition |
| Tiered.DurableFailureSpendsNonce | uxsp/storage/noncestore.py:499-511 | A durable failure without effect after the fast mark: however many calls follow, none wins for as long as the fast tier neither fails nor loses data |
| Tiered.SpentStaysRefused | uxsp/storage/noncestore.py:499-511 | A nonce marked in the fast tier with nobody on the way to the durable one is refused to everybody while the fast tier holds |
| Tiered.SpentIsWonByRetry | uxsp/storage/noncestore.py:499-511 | If the fast tier then fails or loses the mark and the durable tier does not hold the nonce, the next call wins |
| Tiered.TieredNonceStore.MarkUsed | uxsp/storage/noncestore.py:499-511 | One undisturbed call performs exactly the events of the interleaving model and touches no other nonce |
| SlidingLimiter.SlidingRateLimiter.WindowBound | uxsp/core/rate_limit.py:235-261 | In every reachable state every half-open interval of length window holds at most max_requests admissions of a key |
| SlidingLimiter.SlidingRateLimiter.Check | uxsp/core/rate_limit.py:235-261 | Decision, retry_after and new admission log; an admission means the full log had fewer than max in the last window |
| SlidingLimiter.SlidingRateLimiter.Record | uxsp/core/rate_limit.py:251-261 | The pruned deque equals the full admission log cut at the window; refuse or append |
| SlidingLimiter.SlidingRateLimiter.Cleanup | uxsp/core/rate_limit.py:268-284 | Prunes every deque, drops the empty ones and counts them |
| SlidingLimiter.SlidingRateLimiter.Remaining | uxsp/core/rate_limit.py:286-304 | remaining() is max minus the admissions of the last window, and changes nothing |
| SlidingLimiter.CleanupKeepsDecision | uxsp/core/rate_limit.py:268-279 | A cleanup at any earlier moment does not change the decision for a tracked key |
| SlidingLimiter.RetryAfterSuffices | uxsp/core/rate_limit.py:255-259 | After waiting retry_after with no other call to the key it is admitted, whatever cleanups and other keys did, if and only if the table has room for it |
| SlidingLimiter.RetryAfterIsLeast | uxsp/core/rate_limit.py:255-259 | Before retry_after has passed the key is still refused |
| SlidingLimiter.CleanedExactly | uxsp/core/rate_limit.py:268-279 | A key survives a cleanup exactly if it was admitted after the cutoff, and only such admissions remain |
| SlidingLimiter.SlidingRateLimiter.Reset | uxsp/core/rate_limit.py:263-266 | Forgets one key and nothing else |
| FixedWindowLimiter.RateLimiter.WindowBound | uxsp/core/rate_limit.py:136-182 | Window starts of a key are at least window apart even across cleanups, any half-open interval of that length admits at most 2 * max_requests - 1, and the table keeps its capacity |
| FixedWindowLimiter.BoundIsReached | uxsp/core/rate_limit.py:136-165 | For every limit and window a run of admissions attains 2 * max_requests - 1 within one window length |
| FixedWindowLimiter.RateLimiter.Check | uxsp/core/rate_limit.py:136-165 | Cleanup, capacity, count and window start on every path, with the retry_after of a refusal |
| FixedWindowLimiter.RateLimiter.Cleanup | uxsp/core/rate_limit.py:172-182 | Drops exactly the counters of finished windows |
| FixedWindowLimiter.RateLimiter.Remaining | uxsp/core/rate_limit.py:184-194 | Between 0 and max, positive exactly when the next check would admit (room in the table given) |
| FixedWindowLimiter.AdmitKeepsHistory | uxsp/core/rate_limit.py:150-165 | An admission, in the running window or opening a new one, keeps the history grouped by windows that lie apart |
| FixedWindowLimiter.DecidesExactly | uxsp/core/rate_limit.py:146-165 | Admitted if and only if the limit is positive, the key known or the table not full, and a running window not used up |
| FixedWindowLimiter.AdmissionCounts | uxsp/core/rate_limit.py:153-165 | An admission counts in the running window or opens one at the present moment |
| FixedWindowLimiter.WaitIsExact | uxsp/core/rate_limit.py:157-160 | A known key refused now is admitted at a later moment if and only if retry_after has passed |
| FixedWindowLimiter.CleanedExactly | uxsp/core/rate_limit.py:172-177 | A counter survives a cleanup, unchanged, exactly if its window is running |
| TokenBucket.RateLimiter.IntervalBound | sdks/js/src/rateLimit.ts:37-59 | Tokens stay in [0, capacity] and any interval admits at most capacity + refillRate * length |
| TokenBucket.RateLimiter.RefusedOnlyWhenSpent | sdks/js/src/rateLimit.ts:37-59 | The lower bound: a refusal at t means that since some moment s more than capacity - 1 + rate * (t - s) requests of the key were admitted |
| TokenBucket.RateLimiter.IdleKeyIsFull | sdks/js/src/rateLimit.ts:37-43 | A key left alone for capacity / rate seconds has its full burst back |
| TokenBucket.RateLimiter.IsAllowed | sdks/js/src/rateLimit.ts:45-59 | In terms of the fields: allowed exactly when the tokens left and those refilled since make a whole one, a full bucket standing in for an unknown key; one token and one bucket change, no other |
| TokenBucket.RateLimiter.Refill | sdks/js/src/rateLimit.ts:37-43 | tokens becomes min(capacity, tokens + seconds elapsed * rate) when the clock has moved on; the clock only goes forward |
| TokenBucket.RefillKeeps | sdks/js/src/rateLimit.ts:37-43 | Refilling keeps the potential: tokens left plus admissions since any moment are paid by one full bucket and the refill since |
| TokenBucket.SpendKeeps | sdks/js/src/rateLimit.ts:54-57 | Spending a token keeps the potential |
| Live.LossyAgreement | uxsp/core/live.py:52-111 | Of the first 2^32 frames of an encrypting session any strictly increasing selection is decrypted by a session that started with the same key, frame i under the key of epoch i div 65536 |
| Live.ReceiverStep | uxsp/core/live.py:76-111 | A receiver not ahead of frame i opens it with its key and is afterwards at most at position i + 1 |
| Live.SenderStep | uxsp/core/live.py:52-74 | Frame i is sent with epoch i div 65536 exactly while i < 2^32 and refused from then on |
| Live.FailureKeepsState | uxsp/core/live.py:93-102 | A frame that fails to authenticate leaves the session unchanged if and only if its epoch is not ahead |
| Live.ForgedFrameSkipsExactly | uxsp/core/live.py:97-102 | After a forged frame of a later epoch, of the genuine frames still to come exactly those from that epoch on are opened |
| Live.UnpackInvertsPack | uxsp/core/live.py:52-98 | Frame bytes unpack to their metadata, epoch, nonce and ciphertext |
| Live.PackInvertsUnpack | uxsp/core/live.py:83-98 | Whatever unpacks is the packing of what was read |
| Live.MetadataIsVisible | uxsp/core/live.py:113-124 | extract_metadata returns the metadata of a packed frame |
| Live.ReplayRefused | uxsp/core/live.py:94-105 | Once a frame was opened under number n, any frame under a number up to n is refused as a replay and changes nothing |
| Live.LastNumber | uxsp/core/live.py:94-105 | The last number moves exactly with an opened numbered frame, always upwards, and a replay is reported exactly for a number not above it |
| Live.OpenedNumbersRise | uxsp/core/live.py:76-111 | Over runs with any forged and failing frames in between, the numbers of opened frames strictly increase |
| Live.OpenedWasSent | uxsp/core/live.py:76-111 | With ideal encryption whatever is opened is a frame and metadata the sender sent, under the epoch it was sent in |
| Live.LiveSession.EncryptFrame | uxsp/core/live.py:52-74 | Bytes and new ratchet state of one encrypted frame, with both size errors |
| Live.LiveSession.DecryptFrame | uxsp/core/live.py:76-111 | Result and new ratchet state, including the catch-up that outlives a failure |
| Live.LiveSession.CatchUp | uxsp/core/live.py:97-98 | The loop ends at the frame's epoch with the key iterated that many times |
| BindFields.EncodedInjective | uxsp/crypto/hybrid.py:296-311 | Equal bytes come from equal field lists of whatever arity |
| BindFields.ParseInvertsEncoded | uxsp/crypto/hybrid.py:296-311 | The explicit reader returns the fields that were bound |
| BindFields.EncodedInvertsParse | uxsp/crypto/hybrid.py:296-311 | Whatever the reader accepts is the binding of what it returns |
| BindFields.BindFieldsPy | uxsp/crypto/hybrid.py:296-311 | The accumulating loop yields the canonical bytes, and fails exactly on a field over 2^32 - 1 bytes |
| BindFields.BindFieldsJs | sdks/js/src/utils.ts:48-59 | The preallocated buffer with a moving offset holds the canonical bytes of every list the Python version accepts |
| Certificates.ReorderedVerifiesAlike | uxsp/core/signing.py:546-569 | A list verifies or fails alike after its dictionary was reordered |
| Certificates.CrlFieldsIgnoreOrder | uxsp/core/signing.py:925-947 | The signed fields are the same for every order of entries with distinct ids |
| Certificates.EntriesAscend | uxsp/core/signing.py:938-939 | The signed texts appear in ascending order of their ids |
| Certificates.CrlBytesDetermine | uxsp/core/signing.py:925-947 | If no id of either list is ambiguous, colon-free ones in particular, equal bytes force equal issuer, number, date and entries, whatever the reasons are |
| Certificates.UnmistakableBytesDetermine | uxsp/core/signing.py:925-947 | If the entries of one list are unmistakable, equal bytes force the other list to have the same content, with nothing known of it |
| Certificates.CollidesExactlyWhenMistakable | uxsp/core/signing.py:938-939 | Another entry has the same text if and only if the id extends a shorter id by ":<integer>" and then ends or goes on with a colon, or the reason starts like the rest of a longer id, an integer and a colon |
| Certificates.OneEntryDeterminesExactly | uxsp/core/signing.py:925-947 | A list of one entry shares its fields with another list of one entry exactly under that condition |
| Certificates.ColonFreeIsUnmistakable | uxsp/core/signing.py:938-939 | Entries with a colon-free id and a colon-free reason are unmistakable |
| Certificates.ColonFreeIsUnambiguous | uxsp/core/signing.py:938-939 | Colon-free ids, such as the UUIDs issue() draws, extend no shorter id |
| Certificates.AmbiguousLists | uxsp/core/signing.py:938-939 | Two different one-entry lists with the same signed bytes |
| Certificates.VerifiedListWasIssued | uxsp/core/signing.py:546-569 | A list with unmistakable entries that verifies under an honest anchor has the content of one it issued, whatever else the key signed |
| Certificates.VerifiedColonFreeListWasIssued | uxsp/core/signing.py:546-569 | So has any list with colon-free ids, whatever its reasons, under an anchor that listed only colon-free ids |
| Certificates.CrlSignable | uxsp/core/signing.py:925-947 | The loop over sorted entries binds exactly the canonical fields |
| Certificates.Collect | uxsp/core/signing.py:260-282 | From a list or a dictionary, the collected dictionary has distinct ids and holds, per id, exactly its last entry |
| Certificates.IssueCrl | uxsp/core/signing.py:241-299 | An issued list verifies under the issuer and holds the last entry of every id; refused as a bad entry exactly when there is one |
| Certificates.RawEntryMeans | uxsp/core/signing.py:261-277 | What each accepted form of an entry stands for, with the defaults, and which forms are refused |
| Certificates.OmittedDefaultsVerifyAlike | uxsp/core/signing.py:551-555 | Leaving a date or reason at its default verifies like writing it out |
| Certificates.CardBytesDetermine | uxsp/core/signing.py:899-922 | Equal card bytes force equal card, validity and certificate id |
| Certificates.CardIsNoCrl | uxsp/core/signing.py:899-947 | The signed bytes of a card are never those of a revocation list |
| Certificates.TrustStore.AddCrl | uxsp/core/signing.py:713-737 | Added exactly when allowed by issuer and signature; every listed id is then revoked and no revocation is lost |
| Certificates.MergedKeepsLast | uxsp/core/signing.py:735-737 | The last entry of an id in a list is the one the store holds afterwards |
| Certificates.TrustStore.VerifyCard | uxsp/core/signing.py:739-812 | A card passes exactly if its issuer is trusted, it is not revoked, expected, in time and signed over all its fields |
| Certificates.RefusedUntilUnrevoked | uxsp/core/signing.py:659-773 | A revoked certificate is refused after any calls, added lists and exchanged anchors included, but an unrevoke of it |
| Reassembly.RoundTrip | uxsp/core/chunking.py:300-491 | Packed chunks of any data and chunk size, received in any order, give the data back if the description is acceptable and are refused otherwise |
| Reassembly.CompleteIsDense | uxsp/core/chunking.py:467-475 | Pigeonhole: the checks leave exactly the indices 0 to total - 1, once each |
| Reassembly.AssembledMeans | uxsp/core/chunking.py:438-491 | What reassembly returns matches the announced digest, and every chunk carries the announced transfer, total, description and digest |
| Reassembly.Reassemble | uxsp/core/chunking.py:429-491 | Decoding, metadata, duplicate, count and hash checks, sort and join have the effect of the specification |
| Chunks.FromBytesInvertsToBytes | uxsp/core/chunking.py:155-292 | Unpacking a packed chunk gives it back, or refuses it exactly when its fields are unsound |
| Chunks.DecodedIsSound | uxsp/core/chunking.py:192-292 | Every decoded chunk has an index below its total, a valid description and a body matching its digest |
| Chunks.DecodedMeans | uxsp/core/chunking.py:211-292 | An accepted chunk is magic, big-endian header length of at most 64 KiB, header and body, and every field is what that header says |
| Chunks.PackingFailsExactly | uxsp/core/chunking.py:174-179 | Packing fails exactly for a header over 64 KiB |
| Chunking.CreateChunkedTransfer | uxsp/core/chunking.py:300-352 | The packed slices, or an error exactly for a bad size or an oversized header |
| Chunking.CreateChunkedStream | uxsp/core/chunking.py:355-426 | The two-pass generator yields the same chunks as the one-shot function |
| Chunking.SliceAt | uxsp/core/chunking.py:329-333 | Slice i is data[i * size .. min((i + 1) * size, len)] |
| Chunking.SliceCountIsCeil | uxsp/core/chunking.py:379 | The number of slices is the ceiling the generator announces, one for no data |
| Chunking.JoinSlices | uxsp/core/chunking.py:329-333 | Joining the slices gives the data |
| ChunkingJs.CreateChunkedTransfer | sdks/js/src/chunking.ts:183-222 | The JavaScript slices are the same chunks, up to its defaulting of empty options |
| ChunkingJs.DefaultedMeans | sdks/js/src/chunking.ts:74-76 | Which options are replaced by defaults and which are kept |
| ChunkingJs.ReassembleChunkedTransfer | sdks/js/src/chunking.ts:224-269 | Succeeds exactly when the sorted chunks fit and the digest matches, and the filled buffer equals the join |
| ChunkingJs.AcceptedMeans | sdks/js/src/chunking.ts:224-266 | Accepted chunks have one transfer and digest, indices 0 to total - 1, and join to the announced digest |
| ChunkingJs.PythonIsStricter | sdks/js/src/chunking.ts:224-251 | On decoded chunks Python's structural checks hold if and only if the JavaScript ones do and all chunks carry one total and description |
| ChunkingJs.PythonToJs | sdks/js/src/chunking.ts:224-269 | Any order of chunks created by Python reassembles in JavaScript |
| Engine.PositionBinding | uxsp/secure/_engine.py:184-197 | Under the key of one send a list of sealed chunks is accepted only if it opens, place by place, to all the chunks that were sent, and then yields the payload |
| Engine.AcceptedIsWhole | uxsp/secure/_engine.py:118-201 | End to end: an accepted package carrying the signature of a chunked send delivers its payload, whatever became of the chunks, if and only if it is still marked as chunked; otherwise it delivers the session key |
| Engine.AcceptedAsAsked | uxsp/secure/_engine.py:158-186 | A package that is received names this sender and receiver and has the expected type, and so does its envelope the parties |
| Engine.MismatchRefused | uxsp/secure/_engine.py:158-185 | The refusals of wrong parties, wrong type, missing envelope, missing chunks and oversized envelopes, in this order, leave the guard as it was |
| Engine.FailuresNamed | uxsp/secure/_engine.py:202-207 | How failures of opening are translated: duplicate, expired, invalid sender |
| Engine.PiecesOf16K | uxsp/secure/_engine.py:94 | A chunked send has one sealed chunk per 16 KiB begun |
| Engine.WrongSizesOpenNothing | uxsp/secure/_engine.py:192-194 | A key not of 32 bytes or a nonce not of 12 opens no chunks |
| Engine.ClearedMarkDeliversKey | uxsp/secure/_engine.py:173-178 | The package of any chunked send with the unsigned mark cleared is accepted in time and hands up the session key |
| Engine.SentIsReceived | uxsp/secure/_engine.py:47-201 | Every send that returns is received, in the single-envelope and in the chunked branch |
| Engine.SendFitsExactly | uxsp/secure/_engine.py:77-91 | The envelope of a send is sealed if and only if the card and ids are in order and overhead + 2 * content fits 65536 bytes |
| Engine.SingleLimitIsTooHigh | uxsp/secure/_engine.py:77-79 | Between 36-character ids exactly the payloads of 28099 to 30720 bytes are refused as too large |
| Engine.SendPayload | uxsp/secure/_engine.py:75-112 | Branch on 30 KiB, package contents of both branches, the exact condition for the chunked branch to return, and the key array wiped on every path |
| Engine.ReceivePayload | uxsp/secure/_engine.py:118-207 | Order of checks, error translation and guard state of receive |
| Engine.ReceiveUnder | uxsp/secure/_engine.py:186-201 | Opens the chunks in order, reassembles, and wipes the key array on every path |
| Engine.NumberedDetermines | uxsp/secure/_engine.py:97 | The associated data "<nonce>:<seq>" determines both nonce and position |
| Envelopes.OpenInvertsSeal | uxsp/core/identity.py:234-295 | A seal that returns is opened by its recipient to the plaintext, given a valid card, an unused nonce and fresh readings |
| Envelopes.CheckAndOpenInvertsSeal | uxsp/core/replay.py:212-253 | So does check_and_open |
| Envelopes.SealSays | uxsp/core/identity.py:234-255 | A sealed envelope carries version, parties, clock and the given nonces and key material, is signed by its sender and fits 65536 bytes |
| Envelopes.OpenedMeans | uxsp/core/identity.py:257-295 | What opening establishes: a living card, the right parties and version, all three clock readings within [timestamp - skew, timestamp + window], the signature of the card, and the plaintext under the exchanged key |
| Envelopes.CheckedMeans | uxsp/core/replay.py:212-253 | The same for check_and_open, with its two readings |
| Envelopes.CardProblems | uxsp/core/identity.py:244-270 | Revoked and expired cards are refused on both sides, with the error that says which |
| Envelopes.WrongPartyRefused | uxsp/core/identity.py:279-282 | An envelope for or from another party is refused and leaves no mark |
| Envelopes.LiveMarkRefuses | uxsp/core/replay.py:173-253 | While its mark lives an envelope is refused as a duplicate by both ways of opening |
| Envelopes.SealReturnsExactly | uxsp/core/identity.py:234-255 | A seal returns if and only if the card is valid, both ids are non-empty and overhead + 2 * payload is at most 65536 |
| Envelopes.SizeDecides | uxsp/core/envelope.py:247-252 | Otherwise well-formed, it is refused as too large exactly above that size |
| Envelopes.SealedLength | uxsp/core/envelope.py:247-252 | The compact JSON of a sealed envelope is its overhead plus two characters per payload byte |
| Envelopes.UsualOverhead | uxsp/core/envelope.py:247-252 | Between 36-character ids the overhead is 9340 |
| Envelopes.OpenedWasSealed | uxsp/crypto/hybrid.py:170-227 | With ideal signatures an opened envelope is, field for field, one its sender sealed, whatever else that key signed |
| Envelopes.OpenedOnce | uxsp/core/identity.py:284-295 | An envelope opened through precheck and commit is never committed again |
| Envelopes.OpenedOnceExactly | uxsp/core/identity.py:284-295 | For every gap of other commits, it is opened at most once exactly under that condition |
| Envelopes.CheckedOnceExactly | uxsp/core/replay.py:212-253 | The same for check_and_open |
| Envelopes.CheckedOnce | uxsp/core/replay.py:212-253 | check_and_open, with no second freshness check before the mark, still opens at most once up to that gap |
| Envelopes.CheckThenOpen | uxsp/core/replay.py:212-253 | Order of checks and guard state of check_and_open |
| Envelopes.Open | uxsp/core/identity.py:257-295 | Card checks, order of checks and guard state of open_from |
| Envelopes.EnvelopeBytesDetermine | uxsp/crypto/hybrid.py:525-535 | The signed bytes determine every field of an envelope |
| KeyStoreCache.ReadsAgreeExactly | uxsp/storage/keystore.py:879-904 | Reads agree with the backend throughout a run if and only if no step changes the backend under a differing cached entry without bringing the cache along |
| KeyStoreCache.GetsSeeTheBackend | uxsp/storage/keystore.py:879-904 | When the cache write of put and the eviction of delete take effect, every get returns what the backend holds, whatever the cache forgot or failed to read or back-fill, and after puts refused as duplicates or by a backend that raises without effect |
| KeyStoreCache.CoherenceExactly | uxsp/storage/keystore.py:879-904 | One step keeps the cache coherent if and only if it does not change the backend under a differing cached entry without bringing the cache along |
| KeyStoreCache.CoherentIffReadsAgree | uxsp/storage/keystore.py:884-895 | The cache is coherent exactly when every read agrees with the backend |
| KeyStoreCache.LostEvictionServesDeleted | uxsp/storage/keystore.py:897-901 | One lost eviction serves a deleted card |
| KeyStoreCache.CachingKeyStore.Put | uxsp/storage/keystore.py:879-882 | Backend first, cache only after success, cache failure suppressed |
| KeyStoreCache.CachingKeyStore.Get | uxsp/storage/keystore.py:884-895 | Cache, then backend with back-fill |
| KeyStoreCache.CachingKeyStore.Delete | uxsp/storage/keystore.py:897-901 | Backend first, then the eviction |
| KeyStoreCache.DuplicateRefused | uxsp/storage/keystore.py:879-882 | A put without overwrite of an id on file changes nothing and is reported |
| KeyStoreCache.PutFiles | uxsp/storage/keystore.py:879-882 | An undisturbed put is found in both tiers |
| KeyStoreCache.DeleteRemoves | uxsp/storage/keystore.py:897-901 | An undisturbed delete leaves the id in neither tier |
| KeyStoreCache.MissFills | uxsp/storage/keystore.py:884-895 | After a miss the card is served with the backend down |
| WebSocket.ClosedStaysClosed | uxsp/transport/websocket.py:562-620 | After close or handle_close dealt with a session that had begun, returning or raising, no sequence of calls makes that session ready again |
| WebSocket.PerformAll | uxsp/transport/websocket.py:304-620 | No sequence of calls lowers the state rank of any session the socket knows |
| WebSocket.UXSPWebSocket.Pong | uxsp/transport/websocket.py:542-560 | Decrypts the ping whatever comes of it, then encrypts the echo; without a session echoes in plain |
| WebSocket.UXSPWebSocket.Ping | uxsp/transport/websocket.py:529-540 | Encrypts the stamp when there is a session |
| WebSocket.UXSPWebSocket.HandleComplete | uxsp/transport/websocket.py:428-457 | Succeeds exactly once per held session for the handshake's id, and attaches that session whatever its state |
| WebSocket.UXSPWebSocket.Close | uxsp/transport/websocket.py:562-569 | Seals the reason and revokes, or raises and keeps the session when it can no longer encrypt |
| WebSocket.UXSPWebSocket.HandleClose | uxsp/transport/websocket.py:571-602 | Always revokes, whether or not the closing message is authentic |
| WebSocket.UXSPWebSocket.HandleResume | uxsp/transport/websocket.py:459-497 | Attaches only an active session whose id and receive-side tag the frame carries |
| WebSocket.UXSPWebSocket.CompleteResume | uxsp/transport/websocket.py:368-388 | Succeeds exactly for an active session, its id and its tag |
| WebSocket.ResumeBetween | uxsp/transport/websocket.py:347-388 | Between sockets holding living mirrored sessions, RESUME, its answer and its completion always succeed and attach the session |
| WebSocket.BacksExactly | uxsp/transport/websocket.py:347-388 | A resume tag is accepted exactly by a session with the same id whose receive key is the send key it was made under, and for its own kind of frame |
| WebSocket.TagCoversClaim | uxsp/transport/websocket.py:356-387 | One tag backs one claim: number and nonce cannot be exchanged under it |
| WebSocket.UXSPWebSocket.StartResume | uxsp/transport/websocket.py:347-366 | Succeeds exactly for an active session and claims its id and recv_seq under the send key |
| WebSocket.UXSPWebSocket.HandleHello | uxsp/transport/websocket.py:394-426 | Refused a second time; on success holds a fresh active responder session |
| WebSocket.UXSPWebSocket.CompleteHandshake | uxsp/transport/websocket.py:323-345 | On success attaches the fresh active initiator session |
| WebSocket.UXSPWebSocket.StartHandshake | uxsp/transport/websocket.py:304-321 | Replaces any pending handshake by a fresh one to the configured peer; refused without one |
| WebSocket.UXSPWebSocket.IsReady | uxsp/transport/websocket.py:616-620 | Ready exactly when a session is attached and active after expiry |
| WebSocket.EncryptFailsOnlyWhenOver | uxsp/core/session.py:274-284 | Encrypting fails exactly when the session is not active, which for a session that had begun means expired or revoked |

## Left out

- Cryptographic primitives, key generation, Argon2, memory zeroisation and constant-time comparison: idealised above; the
  wiping of the session key arrays of the engine and of revoked sessions is modelled as the assignment it is.
- Wiping a key byte by byte while another thread copies it; the wipe is one step.
- Constructor checks that raise `ValueError` (limits, lifetimes, `clock_skew < window_seconds`) appear as preconditions.
- JSON text, UTF-8 and hex syntax, Envelope, payload and package dictionary conversions, `str(...)` of ill-typed JSON values.
- Classical-only envelopes. Keys in a received envelope dictionary beyond the eleven, which would add to its length; the
  parsing of a card's `valid_until`.
- The `key_prefix` of the rate limiters, which only renames keys.
- JavaScript session, seal, sliding limiter and reconnecting socket, and the `uxsp/aio` duplicates: same ideas with
  event-loop timing.
- Redis, Postgres and file back ends, Lua scripts and file locks; the tiers of `TieredNonceStore` are abstract atomic
  stores within one TTL, and its `is_seen` and `cleanup` are queries that only add easy members.
- A `LiveSession` that both encrypts and decrypts shares one frame counter; the model uses one direction per object.
  Voice frames are metadata on top.
- Backward clock jumps and floating-point rounding.
- The frame JSON and its size limit; the rate limiter of a socket is its verdict.
- Output files, dispatch to transports and the global context of the engine; middlewares, CLI, HTTP clients, schemas.
- Timestamps and version lists of the handshake are typed; the fallback of `max(common)` cannot be reached with one
  supported version.
- Agreement.CompletedAtMostOnce: assumes at most 29 seconds between the freshness reading and the mark of one call, which no
  code enforces; `LongerDelaysCompleteTwice` shows the bound cannot be raised.
- Agreement.OneResponderSession: rests on the same bound, which `LongerDelaysAnswerTwice` shows cannot be raised.

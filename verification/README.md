# A verified model of the Zenth relay server

The server keeps messages, keys and small blobs for its users until they fetch
them. Its handlers are short; what matters is what they guarantee together, over
whole runs in which handlers, timers, cleanups and disconnects interleave. This
project models those state machines in Dafny and proves those guarantees.

`dafny verify dfyconfig.toml` checks the whole project.

| files | machine |
|---|---|
| `RateLimit`, `RateLimitHistory`, `RateLimitBound`, `RateLimitFairness`, `MessageTiers`, `TierVerdicts`, `ConcurrentLimits` | the fixed-window rate limiter, exactly what it admits, its sliding bounds, its cleanup, the two size tiers of message sending, and the composed bounds when handlers overlap |
| `Mailbox`, `MailboxAnswers`, `MailboxHistory`, `MailboxFetches`, `MailboxExpiry`, `MailboxQuota`, `MailboxClient` | the relay mailbox and the sync blobs, what each request is answered, expiry cleanup, the rows one sender can keep alive, and a client that fetches and acknowledges |
| `ConnectionManager`, `FileRelay`, `WebSocketHandler`, `WebSocketAnswers`, `WebSocketHub` | WebSocket connections, broadcast channels and file transfers |
| `Prekeys`, `PrekeyRuns` | the pool of one-time prekeys, statement by statement |
| `Schema`, `Login`, `SocialGraph`, `Erasure`, `Database`, `AccountAnswers`, `AccountRuns`, `SessionRuns`, `ProofRuns`, `IdentityRuns`, `GraphRuns`, `PollRuns`, `FriendViews`, `ReplyRuns`, `OrphanRuns`, `Uninterrupted` | accounts: challenges, sessions, recovery, friend requests and responses, deletion |
| `Messages`, `MessageStore`, `MessageRuns`, `SendAnswers`, `MessageHistory`, `MessageFetches`, `MessageDrain`, `MessagePaging`, `MessageClient` | the message store, what sends and fetches are answered, its pages, and the clients that empty it |
| `UpdateChunk` | chunked download of updates |
| `Cleanup` | the periodic task over all that it cleans |
| `Prelude`, `Ordering`, `Latches` | bytes, the clock, division; ordered listings of row ids; things gained and lost along a run |

Handlers that change state are methods of classes, each proved against a function
on values; the theorems are about those functions and their runs, in terms that do
not name them: the conditions of a request, the earlier requests, and numbers. A run
is either a sequence of events or a sequence of states with the steps between them.

Every lemma carries `{:induction false}`: inductions are written out as recursion, and
no proof uses an induction hypothesis that Dafny adds by itself.

## Assumptions

- One process and one clock, in nanoseconds, that never goes back. Handlers do not
  panic, and the limiters and registries have been initialised.
- Each SQL statement is atomic and succeeds unless a table constraint forbids it.
  Serial ids are assigned and become visible together, and do not run out; the
  message pages alone use that row ids fit their 32-bit column.
- Handlers run one at a time, except where interleaving is the point: prekey fetches
  are split into their statements, as are logins in `ProofRuns`, replies in
  `ReplyRuns`, and sends and erasures in `OrphanRuns`; WebSocket loops are split into
  their steps, and a limiter call into its reading of the clock and its turn at the
  lock; in `ConcurrentLimits` pushes and sends overlap.
- Signature checks are booleans that come with the request (`verified`). Random
  challenge ids, nonces and tokens are arguments, which may repeat: a repeated one
  meets the primary key and is refused. `ProofRuns` takes them to be fresh.
- The freshness of a request's timestamp is a boolean (`timely`), except for relay
  and blob requests, where it is computed. The comment in `src/timestamp.rs` speaks
  of five minutes; the code, and this model, allow fifteen.

## Model

| member | source | states |
|---|---|---|
| RateLimit.BucketsMerge | src/rate_limit.rs:42-44 | two keys share a counter if and only if their first 32 bytes, padded with zeros, agree: truncation only merges |
| RateLimit.ElapsedIsExact | src/rate_limit.rs:50 | comparing whole elapsed seconds with the window is exact to the nanosecond |
| RateLimit.KeyRateLimiter.IsAllowed | src/rate_limit.rs:38-59 | the call answers and updates the map as the decision function says, for any instant read before the lock and any instant after it |
| RateLimit.KeyRateLimiter.Cleanup | src/rate_limit.rs:62-66 | keeps exactly the entries younger than two windows |
| RateLimit.CountersBounded | src/rate_limit.rs:50-58 | over any run a counter never exceeds the limit, save for the one request with which a window reopens, and is never empty |
| RateLimit.RunSimulates | src/rate_limit.rs:48-66 | along any run the cleaned limiter simulates the uncleaned one: an absent entry stands for one at least two windows old |
| RateLimit.CleanupTransparentExactly | src/rate_limit.rs:48-66 | cleanup at arbitrary times changes no answer of any run if and only if the limit is at least one or the window is zero; with a limit of zero the reset branch, which does not consult the limit, gives it away |
| RateLimitBound.SlidingBound | src/rate_limit.rs:42-67 | when a call's reading of the clock may be up to `lag` old, any interval of length L admits at most max * ceil((L + W) / (W - lag)) requests of a bucket, wherever cleanups occur |
| RateLimitBound.SlidingBoundAtomic | src/rate_limit.rs:42-67 | without lag: at most max * (ceil(L / W) + 1), and 2 * max in any interval of one window |
| RateLimitBound.SpacingBound | src/rate_limit.rs:13-19 | limiters of one request per window admit at most ceil(L / W), and never two within a window |
| RateLimitHistory.AdmittedExactly | src/rate_limit.rs:38-59 | over every run, wherever cleanups occur and for any lag up to a window: a request is admitted if and only if it has a key and is among the first `max` requests of an open window of its bucket, where a window is opened by the first request that comes after all earlier ones have run out; neither counters nor answers are needed to tell |
| RateLimitFairness.RefusedOnlyWhenFull | src/rate_limit.rs:53-58 | the other side of the bounds: with any lag, a request with a key is refused only if as many as the limit were admitted within the last window |
| RateLimitFairness.SpacedExactly | src/rate_limit.rs:48-58 | a limiter of one request per window admits a request if and only if it admitted none of the bucket within the last window, wherever cleanups occur |
| MessageTiers.TierGate.CheckSize | src/handlers/method/send_message.rs:115-143 | the size check with its two limiters, large before mid |
| MessageTiers.TieredThroughput | src/handlers/method/send_message.rs:115-143 | messages over 1 MiB that one sender gets past the tiers in L seconds total at most 10 MiB * ceil(L / 10) + 15 MiB * ceil(L / 30) |
| MessageTiers.PassesSpacedOut | src/handlers/method/send_message.rs:127-143 | passed messages over 1 MiB are at least 10 s apart, those over 10 MiB at least 30 s |
| TierVerdicts.SlotsCounted | src/handlers/method/send_message.rs:127-143 | the slots of the mid limiter are exactly the passed messages over 1 MiB, those of the large one exactly the messages over 10 MiB that got past it, passed or not |
| TierVerdicts.VerdictExactly | src/handlers/method/send_message.rs:115-143 | over every run the verdict is known from earlier verdicts alone: too large over 25 MiB; refused by the large tier if and only if another message over 10 MiB got past it in the last 30 s; refused by the mid tier if and only if another over 1 MiB passed in the last 10 s; passed otherwise |
| TierVerdicts.MidRefusalSpendsLargeSlot | src/handlers/method/send_message.rs:127-143 | a message over 10 MiB refused by the mid limiter has spent the large slot: whatever happens in between, every message over 10 MiB of that sender is refused by the large tier for 30 s, although nothing was stored |
| TierVerdicts.MidRefusalHappens | src/handlers/method/send_message.rs:136-143 | it does happen: 2 MiB, then 11 MiB a second later |
| ConcurrentLimits.ConcurrentThroughput | src/handlers/method/send_message.rs:115-143 | when sends overlap, their clock readings up to `lag` old and their turns at the two limiters up to `delay` apart, messages over 1 MiB of one sender total in any interval of length L at most 10 MiB * ceil((L + 10 s) / (10 s - lag)) + 15 MiB * ceil((L + delay + 30 s) / (30 s - lag)) |
| Mailbox.Server.PushRelay | src/handlers/method/relay.rs:18-64 | checks, limiter before signature, lifetime clamped between a minute and a day, insert; every refusal in the source's order |
| Mailbox.Server.FetchRelay | src/handlers/method/relay.rs:66-106 | the first unexpired entries of the device after the cursor in id order, up to the limit |
| Mailbox.Server.AckRelay | src/handlers/method/relay.rs:108-141 | deletes the device's rows up to the id and nothing else |
| Mailbox.Server.PushBlob | src/handlers/method/sync_blob.rs:10-64 | checks, limiter, lifetime clamped between a minute and an hour, one blob per device |
| Mailbox.Server.FetchBlob | src/handlers/method/sync_blob.rs:66-121 | the unexpired blob of the device, or not found |
| Mailbox.Server.DeleteBlob | src/handlers/method/sync_blob.rs:123-157 | removes the device's blob and nothing else |
| Cleanup.Task.Tick | src/main.rs:75-112 | every turn cleans all four limiters and the transfer registry, every twelfth deletes the expired messages, relay rows and blobs as well, and nothing else changes |
| MailboxExpiry.OperationSimulated | src/handlers/method/relay.rs:87-105 | a relay or blob operation on a purged and an unpurged server answers the same and leaves states that still agree on everything unexpired |
| MailboxExpiry.CleanupUnobservable | src/main.rs:79-110 | every run of relay and blob operations returns exactly the responses of the run with all cleanups left out |
| MailboxQuota.AliveWithinSlots | src/handlers/method/relay.rs:31-59 | the unexpired rows of a sender never outnumber the limiter slots it was given in the last day |
| MailboxQuota.RelayQuota | src/handlers/method/relay.rs:31-59 | at any instant of any run at most 60 * (86400 / 60 + 1) = 86460 rows pushed by one sender are unexpired |
| ConcurrentLimits.ConcurrentRelayQuota | src/handlers/method/relay.rs:31-59 | when pushes overlap, their clock readings up to `lag` old and their expiry computed up to `delay` after the limiter, the unexpired rows of one sender number at most 60 * ceil((1 day + delay + 60 s) / (60 s - lag)) |
| MailboxAnswers.PushAnsweredExactly | src/handlers/method/relay.rs:18-64 | over every run, a push is stored, under the number of pushes stored so far, if and only if device, ciphertext, sender and signature are not empty, the nonce has 12 bytes, its time stamp is within 900 s of the clock, it is among the 60 requests that its sender's 60 s window admits, and its signature is right; and each of the six refusals has its exact condition |
| MailboxAnswers.BlobAnsweredExactly | src/handlers/method/sync_blob.rs:10-64 | the same for a blob, of which a window admits 20, with each of its refusals |
| MailboxAnswers.OwnerAnsweredExactly | src/handlers/method/relay.rs:66-141 | in any state, fetches, acknowledgements and deletions are served if and only if the device and the signature are not empty, the time stamp is within 900 s and the signature is right; each refusal has its exact condition |
| MailboxHistory.KeptExactly | src/handlers/method/relay.rs:45-57 | told from the requests alone: an unexpired row is in the table if and only if a push with just its device, ciphertext, nonce and clamped lifetime was stored under its id, and its owner has not acknowledged that id or a greater one since |
| MailboxHistory.BlobKeptExactly | src/handlers/method/sync_blob.rs:38-60 | told from the requests alone: an unexpired blob is a device's if and only if it is the last one stored for it, with just that content and clamped lifetime, and was not deleted by its owner since |
| MailboxFetches.FetchedExactly | src/handlers/method/relay.rs:87-105 | over every run, a fetch by the owner returns in the order of their ids exactly the rows pushed to the device after the cursor that are neither acknowledged nor expired, each with its ciphertext and nonce; or the first 50 of them if no limit is given, and never more than 200 |
| MailboxFetches.BlobFetchedExactly | src/handlers/method/sync_blob.rs:93-120 | over every run, a fetch of the blob by its owner returns ciphertext and signature of the last one stored for the device if it has neither expired nor been deleted, and `not found` if and only if there is none |
| MailboxClient.RunKeepsSound | src/handlers/method/relay.rs:87-136 | the invariant of a client that fetches after, and acknowledges up to, the last id it received, among arbitrary pushes, ticks, cleanups and other devices |
| MailboxClient.NoLossNoDuplicates | src/handlers/method/relay.rs:87-136 | in every reachable state the received ids strictly increase, each entry is a row stored for the device, and each row stored for it is in the table, received or expired |
| MailboxClient.ShortPageIsTheLast | src/handlers/method/relay.rs:82-101 | once a page came back shorter than its limit, every row ever stored for the device has been received or has expired |
| MailboxClient.ListingSplit | src/handlers/method/relay.rs:91-101 | the sorted mailbox is a page followed by the mailbox after its last id, also once the page was acknowledged |
| MailboxClient.Drain | src/handlers/method/relay.rs:66-141 | fetching and acknowledging ends, whatever the page limits; the pages make up exactly the sorted mailbox and none of it is left |
| FileRelay.Registry.Register | src/websocket/file_relay.rs:26-30 | the announcement replaces any earlier one of the id |
| FileRelay.Registry.Unregister | src/websocket/file_relay.rs:33-37 | takes out that id only |
| FileRelay.Registry.UnregisterBySender | src/websocket/file_relay.rs:40-44 | takes out all ids of the sender and no others |
| FileRelay.Registry.GetSender | src/websocket/file_relay.rs:47-53 | the sender of an entry less than ten minutes old |
| FileRelay.Registry.CleanupExpired | src/websocket/file_relay.rs:56-60 | keeps exactly the entries less than ten minutes old |
| FileRelay.SenderFromHistory | src/websocket/file_relay.rs:26-60 | the registry names h for an id if and only if the last announcement of the id was by h less than 600 s ago, with no later removal of the id and no later disconnect of h, wherever cleanups occur |
| ConnectionManager.Manager.Register | src/websocket/connection_manager.rs:38-49 | subscribes to the user's channel, or makes one and enters it |
| ConnectionManager.Manager.Unregister | src/websocket/connection_manager.rs:51-54 | removes the user's entry, whoever made it |
| ConnectionManager.Manager.SendToUser | src/websocket/connection_manager.rs:56-76 | true if and only if the user has an entry whose channel has a receiver |
| WebSocketHandler.AnnouncedAndForgotten | src/websocket/handler.rs:75-76 | the exit cleanup leaves the other senders' transfers, less the ids this connection announced over theirs |
| WebSocketHandler.HandleWebSocket | src/websocket/handler.rs:19-77 | a connection that authenticates leaves no entry, no receiver and no transfer of its user behind, whatever ends its loop, and its online checks find exactly its own user and whoever was connected before it; one that does not authenticate touches nothing |
| WebSocketAnswers.RepliesExactly | src/websocket/handler.rs:36-73 | an event is handled if and only if no earlier one is a closed socket, a closed channel or a failed write, so lag and other frames never end the loop; each online check among the handled events is answered, in order, with whether its target has an entry, and nothing else is |
| WebSocketAnswers.EnteredExactly | src/websocket/handler.rs:36-73 | once the loop ended, the registry holds under each id the last announcement of it among the handled events, with the instant of that event, and otherwise what it held before |
| WebSocketAnswers.AnnouncedExactly | src/websocket/handler.rs:36-73 | the ids that the exit cleanup takes out are those announced by handled events |
| WebSocketHub.StepKeepsSound | src/websocket/handler.rs:34-76 | every step of any loop, and account deletion, keeps the invariant: an entry's creating loop has not unregistered, receivers belong to exactly the loops that are not gone, transfers to loops that have not finished |
| WebSocketHub.RunKeepsSound | src/websocket/handler.rs:34-76 | so in every reachable state, with any number of connections per user |
| WebSocketHub.SentIffConnected | src/websocket/connection_manager.rs:56-81 | in every reachable state a message to a user is accepted if and only if the user is reported connected |
| WebSocketHub.LoopsSubscribed | src/websocket/connection_manager.rs:38-54 | every loop that is not gone is subscribed, to the channel of its user's entry if that channel still has a sender, and otherwise to one that lost it |
| WebSocketHub.TransfersHaveLoops | src/websocket/handler.rs:75-76 | in every reachable state a stored transfer is the one last announced under its id, and the very loop that announced it, one of its sender's, has not finished its exit cleanup |
| WebSocketHub.ClosedForever | src/websocket/connection_manager.rs:51-54 | a channel that lost its sender never gets one again |
| WebSocketHub.ConnectedExactly | src/handlers/method/delete.rs:89-91 | a user is connected if and only if someone connected as that user with no loop of that user unregistering, and no deletion of the account, since |
| WebSocketHub.RunningButOffline | src/websocket/handler.rs:75 | the converse fails: of two connections of a user, the end of the first takes the second offline although it still runs |
| Prekeys.IdsSurvive | src/handlers/method/fetch_prekey_bundle.rs:118 | prekey ids survive the casts into the table and out of it, and stay distinct |
| Prekeys.PrekeyTable.Upload | src/handlers/method/upload_prekeys.rs:8-94 | stores the new ids of the batch and answers with how many they are; refusals store nothing |
| Prekeys.PrekeyTable.InsertBatch | src/handlers/method/upload_prekeys.rs:82-87 | a batch insert that ignores conflicts adds one row per id not there before |
| Prekeys.PrekeyTable.Replenish | src/handlers/method/replenish_prekeys.rs:8-93 | the same insert, answered with the number of unused keys |
| Prekeys.PrekeyTable.FetchBundle | src/handlers/method/fetch_prekey_bundle.rs:103-120 | alone, a fetch puts the oldest unused key into the bundle, marks it used, and leaves the bundle as it is when there is none |
| Prekeys.InsertAllFaithful | src/handlers/method/upload_prekeys.rs:82-87 | the table holds exactly the ids ever uploaded, each with the public key first uploaded for it |
| PrekeyRuns.HandedOutOnceExactly | src/handlers/method/fetch_prekey_bundle.rs:103-116 | over every run of interleaved statements, each key is handed out at most once if and only if no fetch that finds a key selects while another fetch on the same target is between its statements |
| PrekeyRuns.HandedOutInOrder | src/handlers/method/fetch_prekey_bundle.rs:103-110 | without such overlap a user's keys go out in insertion order |
| PrekeyRuns.RaceHandsOutTwice | src/handlers/method/fetch_prekey_bundle.rs:103-116 | two overlapping fetches on one target do get the same key |
| PrekeyRuns.UsedForever | migrations/2026-04-07-000000_one_time_prekeys/up.sql:8 | a used id never becomes available again, whatever is uploaded |
| PrekeyRuns.Ledger | src/handlers/method/check_prekey_count.rs:65-70 | at every step without overlap, inserted = unused + handed out and marked, which is what the upload, replenish and count replies add up to |
| PrekeyRuns.HandedOutFirstKey | src/handlers/method/upload_prekeys.rs:82-87 | a key handed out is the public key first uploaded under its id |
| Database.Tables.HandleChallengeRequest | src/handlers/method/login.rs:114-177 | the old challenge goes, the new one is stored for five minutes |
| Database.Tables.HandleProofVerification | src/handlers/method/login.rs:180-294 | unknown, expired, wrong and right proofs, with what each does to the challenge and the sessions |
| Database.Tables.LogIn | src/handlers/method/login.rs:25-111 | the whole login, every refusal included |
| Database.Tables.PublishRecoveryKey | src/handlers/method/recovery.rs:13-58 | stores the recovery key and nothing else |
| Database.Tables.RecoveryClaim | src/handlers/method/recovery.rs:62-138 | replaces the identity and grants a session for thirty days; the identity stays replaced if the session cannot be stored |
| Database.Tables.Contact | src/handlers/method/contact.rs:11-157 | updates the pair's request or inserts one, and notifies only in the second case |
| Database.Tables.RespondFriendRequest | src/handlers/method/respond_friend_request.rs:10-158 | updates the request's response or inserts one, and notifies only in the second case |
| Database.Tables.DeleteUserData | src/handlers/method/delete.rs:96-151 | six statements after one another are the erasure; when responses agree with their requests nothing of the user is left and nothing else is gone |
| Database.Tables.DeleteAccount | src/handlers/method/delete.rs:28-94 | erases the user if and only if hash, signature, timestamp and user are in order, and changes no table otherwise |
| Erasure.ForeignKeysThroughout | src/handlers/method/delete.rs:97-148 | all foreign keys hold after each of the six statements |
| Erasure.ErasureExactly | src/handlers/method/delete.rs:96-151 | the erasure leaves precisely the rows that do not mention the user if and only if every response agrees with its request on mentioning the user, which the schema does not enforce |
| Erasure.SchemaAllowsDisagreement | migrations/2026-04-01-111545_initial_schema/up.sql:78-88 | the schema does allow a response that disagrees: with all foreign keys valid, erasing its responder leaves it behind, and erasing a user it does not mention removes it |
| AccountAnswers.LoginAnsweredExactly | src/handlers/method/login.rs:25-294 | in any database, an attempt is challenged, with the random id and nonce, if and only if it is of the current version, by a registered 32-byte hash, wants a challenge, and no other user's challenge has that id; it gets a session of 24 hours if and only if it proves the user's stored challenge before it expires and the random token is new; and each of the ten refusals has its exact condition |
| AccountAnswers.PublishAnsweredExactly | src/handlers/method/recovery.rs:13-58 | a recovery key is published if and only if the user is a registered 32-byte hash, key and signature are not empty, and the request is fresh and signed; each refusal has its exact condition |
| AccountAnswers.ClaimAnsweredExactly | src/handlers/method/recovery.rs:62-138 | a claim gets a session of 30 days if and only if it is in order, its user has a recovery key that is not empty, it is signed with it and the random token is new; each refusal has its exact condition |
| AccountAnswers.ContactAnsweredExactly | src/handlers/method/contact.rs:11-157 | a friend request is accepted if and only if its users are two different registered 32-byte hashes, signature and bundle are not empty and the signature is right; it is notified of if and only if no request of the pair was stored; each refusal has its exact condition |
| AccountAnswers.ReplyAnsweredExactly | src/handlers/method/respond_friend_request.rs:10-159 | a reply is accepted if and only if its responder is a registered 32-byte hash, its signature is right, it has a bundle if it accepts, and the request is stored; on a sound graph it is notified of if and only if the pair had no response; each refusal has its exact condition |
| SocialGraph.ContactKeepsSound | src/handlers/method/contact.rs:36-147 | keeps at most one request per ordered pair and none to oneself |
| SocialGraph.ReplyKeepsSound | src/handlers/method/respond_friend_request.rs:83-147 | keeps at most one response per request, by its target to its requester, with a bundle if it accepts, and never marked as delivered |
| SocialGraph.AcceptedOnce | src/handlers/method/fetch_my_accepted.rs:46-85 | nobody appears twice in a list of accepted requests: two rows that accept concern different requesters |
| SocialGraph.AnsweredOnce | src/handlers/method/fetch_friend_response.rs:48-80 | nobody appears twice in a list of responses either |
| SocialGraph.AcceptedBothWays | src/handlers/method/fetch_friend_response.rs:48-80 | for the same cutoff, u's accepted list shows r with a signature and a time if and only if r's responses show u's acceptance with them |
| GraphRuns.RequestExactly | src/handlers/method/contact.rs:94-147 | over every run the request between two users is exactly the last accepted one from the one to the other, with its bundle, signature, message and time, unless either was deleted since |
| GraphRuns.AnswerExactly | src/handlers/method/respond_friend_request.rs:98-147 | over every run the answer between two users is exactly the last one given, with its bundle and signature, unless either was deleted since; asking again does not take it back |
| FriendViews.MyAcceptedExactly | src/handlers/method/fetch_my_accepted.rs:46-85 | over every run, the list of what a user has accepted shows exactly the last answers it gave that accept, after the cutoff: each with the bundle of the last request it answers, the user's own last signature, and the time in seconds of its first answer |
| FriendViews.MyResponsesExactly | src/handlers/method/fetch_friend_response.rs:48-80 | over every run, the list of responses to a user shows exactly the last answers given to it, after the cutoff, with the responder's bundle and signature and the time in seconds of the first answer |
| ReplyRuns.OneResponseExactly | src/handlers/method/respond_friend_request.rs:98-147 | over every run of replies interleaved statement by statement, each request has at most one response if and only if no two first replies to it overlap between count and insert |
| ReplyRuns.RaceRepliesTwice | src/handlers/method/respond_friend_request.rs:98-147 | two overlapping replies do leave two responses to one request |
| PollRuns.DatedExactly | src/handlers/method/respond_friend_request.rs:105-147 | over every run an answer is dated by the first reply between its two users since neither was deleted, however often it was revised |
| PollRuns.PollShowsExactly | src/handlers/method/fetch_friend_response.rs:48-67 | a poll with a cutoff shows what a responder answered if and only if the first reply came after the cutoff |
| PollRuns.RevisionUnseen | src/handlers/method/fetch_friend_response.rs:48-67 | so whoever polls from a time at or after the first reply never sees a revision of it |
| AccountRuns.RunKeepsSound | migrations/2026-04-01-111545_initial_schema/up.sql:62-88 | every reachable database satisfies the social-graph invariant and all foreign keys, whatever handlers ran |
| AccountRuns.DeletionIsExact | src/handlers/method/delete.rs:96-151 | from every reachable state, deleting an account leaves exactly the rows of all tables that do not mention its user |
| OrphanRuns.NeverOrphansExactly | src/handlers/method/delete.rs:117-148 | over every run of sends and erasures interleaved statement by statement, no stored message ever mentions a deleted account if and only if no message is inserted after its user is gone, or between the statement that deletes the user's messages and the one that deletes the user |
| OrphanRuns.RaceOrphans | src/handlers/method/delete.rs:117-148 | such an insert does leave a message that survives its recipient |
| AccountRuns.ViewsAgree | src/handlers/method/fetch_my_accepted.rs:46-85 | in every reachable state the two views of accepted requests agree |
| SessionRuns.AcceptedExactly | src/websocket/handler.rs:273-291 | a token is accepted for a user at an instant if and only if the history holds its grant to that user by a login less than 24 hours or a recovery claim less than 30 days before, with no deletion of the account since |
| SessionRuns.StoredExactly | src/handlers/method/login.rs:125-146 | the challenge table is exactly the challenges issued and not withdrawn since, by a new request, a proof that was right or too late, or a deletion |
| SessionRuns.OneChallengePerUser | src/handlers/method/login.rs:128-131 | in every reachable state each user has at most one challenge, though the table would allow more |
| SessionRuns.LoginConsumesLatest | src/handlers/method/login.rs:186-255 | every login consumed the latest challenge issued to its user, no more than 300 s old |
| SessionRuns.LoginsWithinIssued | src/handlers/method/login.rs:186-271 | over every run a user's logins, and one more if a challenge is pending, never outnumber the challenges issued |
| ProofRuns.SpentOnceExactly | src/handlers/method/login.rs:186-255 | over every run of interleaved login statements, each challenge is spent at most once if and only if no two proofs that spend it overlap between select and delete |
| ProofRuns.SessionsWithinIssued | src/handlers/method/login.rs:186-271 | over every such run without overlap, a user's sessions never outnumber the challenges issued to it |
| ProofRuns.RaceLogsInTwice | src/handlers/method/login.rs:186-271 | two overlapping proofs of one challenge do yield two sessions |
| Uninterrupted.RequestUninterrupted | src/handlers/method/login.rs:128-146 | the statements of a challenge request, with nothing in between, store what the handler stores |
| Uninterrupted.ProofUninterrupted | src/handlers/method/login.rs:186-271 | the statements of a proof, with nothing in between, leave the challenges and the sessions as the handler does, and spend a challenge if and only if it gets that far |
| Uninterrupted.ReplyUninterrupted | src/handlers/method/respond_friend_request.rs:98-147 | the count and the write of a reply, with nothing in between, leave the responses as the handler does |
| Uninterrupted.FetchUninterrupted | src/handlers/method/fetch_prekey_bundle.rs:103-120 | the select and the mark of a prekey fetch, with nothing in between, hand out the oldest unused key as it is stored and take it, and no other, out of the unused ones |
| Uninterrupted.ErasureUninterrupted | src/handlers/method/delete.rs:117-148 | the two statements of an erasure taken apart are its third and its last |
| Uninterrupted.SendUninterrupted | src/handlers/method/send_message.rs:71-172 | the statements of a send, with nothing in between, store what the message store inserts |
| IdentityRuns.IdentityExactly | src/handlers/method/recovery.rs:106-114 | over every run a user's identity is exactly the one of its registration or of the last effective recovery claim, with no deletion since |
| IdentityRuns.RecoveryKeyExactly | src/handlers/method/recovery.rs:52-55 | over every run a user's recovery key is exactly the last one published, with no deletion since |
| IdentityRuns.ClaimNeedsPublication | src/handlers/method/recovery.rs:87-104 | no identity is replaced unless its user published the recovery key beforehand, and the account lived on in between |
| Messages.PageExactly | src/handlers/method/fetch_message.rs:53-76 | for any order of ties, a page is a first part of a listing in server-time order if and only if it has as many rows as asked for, in order, and nothing left out is earlier |
| Messages.PageAndRemaining | src/handlers/method/fetch_message.rs:53-117 | page length + remaining count = waiting messages after the cursor, if and only if the cursor is not zero, or the page is not cut short, or all waiting messages have positive server times |
| Messages.CursorStep | src/handlers/method/fetch_message.rs:60-62 | going on from the server time of the last row leaves nothing out and repeats nothing if and only if no row left out ties with it |
| Messages.TieLosesMessage | src/handlers/method/fetch_message.rs:53-62 | ties do lose messages: of two of one millisecond, a page of one row returns either, and the cursor after it selects neither |
| MessageStore.Server.SendMessage | src/handlers/method/send_message.rs:14-181 | refusals in order, the tiers charged even when the insert fails, the stored row with its server time and expiry |
| MessageStore.Server.FetchMessages | src/handlers/method/fetch_message.rs:12-127 | a page of the waiting messages after the cursor and the remaining count; an unknown user or a wrong signature gets an empty answer |
| MessageStore.Server.AckMessage | src/handlers/method/ack_message.rs:12-53 | removes the message with that id and recipient, or refuses and changes nothing |
| MessageStore.Server.DeleteExpired | src/main.rs:86-90 | removes exactly the expired messages |
| MessageDrain.Acknowledgeable | src/handlers/method/ack_message.rs:12-50 | a stored message can be acknowledged if and only if its id is not empty and its recipient is a user |
| MessageDrain.EmptyIdIsStored | src/handlers/method/send_message.rs:159-172 | sending does not demand an id: a message without one is stored like any other |
| MessageDrain.EmptyIdNeverEnds | src/handlers/method/ack_message.rs:13-29 | while a message with an empty id waits unexpired, no round of fetching and acknowledging gets an empty page, however many there are |
| MessageDrain.DrainEndsExactly | src/handlers/method/ack_message.rs:44-50 | at a fixed instant, after as many rounds as messages wait the page is empty if and only if none of them has an empty id; otherwise no page ever is |
| MessageDrain.DrainByAck | src/handlers/method/ack_message.rs:44-50 | if no message waiting for the user has an empty id, fetching and acknowledging ends while the clock moves on; every message is received once, oldest first, but for those that expired on the way, and the rest of the store stays |
| MessageClient.NoDuplicatesExceptUnnamed | src/handlers/method/ack_message.rs:44-50 | among any sends, cleanups, erasures and other users' acknowledgements, whatever a recipient receives was stored for it, and nothing comes in twice unless its id is empty |
| MessageClient.NoLossExactly | src/handlers/method/ack_message.rs:44-50 | over every such run, no message of the recipient ever leaves the table unread, unexpired and other than with an account if and only if the recipient never acknowledges an id by which an unread message goes |
| MessageClient.NoLossWithoutReuse | src/handlers/method/ack_message.rs:44-50 | in particular nothing is lost when ids are never used again |
| MessageClient.NoLossWhenPrompt | src/handlers/method/ack_message.rs:44-50 | nor when every message is still stored as it is acknowledged |
| MessageClient.ShortPageIsTheLast | src/handlers/method/fetch_message.rs:70-76 | once a page came back shorter than its limit, whatever is still stored unexpired for the recipient was itself received, and every other message ever stored for it and not lost was received, has expired or went with an account |
| MessageClient.ResentIsLost | src/handlers/method/ack_message.rs:44-50 | it does happen: a message sent again under the id of one that expired before it was acknowledged is acknowledged unread |
| MessagePaging.PageThrough | src/handlers/method/fetch_message.rs:53-76 | moving the cursor alone ends and receives messages in order, none twice; it receives all that wait if and only if in server-time order no tie straddles a boundary between full pages |
| MessagePaging.DistinctUnbroken | src/handlers/method/fetch_message.rs:53-76 | with distinct server times no boundary is straddled, so everything is received |
| MessageRuns.RunKeepsSound | migrations/2026-04-01-111545_initial_schema/up.sql:98-108 | in every reachable store message ids are unique and row ids are below their sequence |
| MessageRuns.PageAccounts | src/handlers/method/fetch_message.rs:64-117 | on every reachable store, page length + remaining count = waiting messages after the cursor, zero included, if the clock is past the first millisecond of 1970 |
| SendAnswers.SendAnsweredExactly | src/handlers/method/send_message.rs:14-181 | over every run, a send is stored, and answered with its id and the server's time in milliseconds, if and only if both users are known, it is signed, its content is at most 25 MiB, is at most 10 MiB or the one in 30 s, is at most 1 MiB or the one in 10 s, and no stored message has its id; each refusal has its exact condition, and the two limits are told from the earlier sends |
| MessageHistory.AckAnsweredExactly | src/handlers/method/ack_message.rs:12-53 | an acknowledgement is accepted if and only if id, recipient and signature are not empty, the recipient is known and the signature is right; each refusal has its exact condition |
| MessageHistory.WaitingExactly | src/handlers/method/send_message.rs:106-172 | an unexpired message is stored if and only if a send stored it, with just its id, users and content, the server's time in milliseconds, and an expiry at the end of 9999 or as many hours later as the sequence number says, and it was not acknowledged nor one of its users erased since; when expired rows are deleted makes no difference |
| MessageFetches.FetchedExactly | src/handlers/method/fetch_message.rs:49-79 | over every run and whatever order of ties, an authorised fetch returns oldest first and none twice exactly the messages stored for the user and kept, unexpired and after the cursor; or the first 100 of them if no limit is given, and never more than 200 |
| MessageFetches.RemainingExactly | src/handlers/method/fetch_message.rs:64-117 | on every reachable store past the first millisecond of 1970, the reply tells how many waiting messages its page leaves |
| UpdateChunk.AnsweredExactly | src/handlers/method/update_chunk.rs:24-75 | for any manifest and any files, what a chunk request is answered: the platform named, or the one for Debian; at most 524288 bytes from the offset, and no more than the manifest tells; the last one if it reaches the size told |
| UpdateChunk.ChunkExactly | src/handlers/method/update_chunk.rs:50-75 | within the file, a chunk is the part of it that was asked for, and is the last one if and only if nothing follows |
| UpdateChunk.Download | src/handlers/method/update_chunk.rs:50-75 | asking on from the bytes received until the last chunk yields the whole file in ceil(size / min(chunk, 524288)) requests, and succeeds if and only if file and chunks are not empty and the end of the last full chunk is still a `u64` |

## Findings

Each is proved by a member of the table, with the exact condition where there is one.

- A limiter with a limit of zero would admit one request per window, and cleanup would
  then be observable. None of the four limiters has such a limit.
- Two fetches of one user's prekey bundle that overlap hand out the same one-time key.
- The end of one WebSocket connection takes all others of the same user offline.
- A large message that the mid limiter refuses has used up the sender's large slot.
- Two proofs of one challenge that overlap both get a session.
- Completeness of an erasure rests on the handlers: a response whose user columns
  differ from its request's would be left behind or wrongly removed.
- A message may be sent with an empty id. It is never acknowledged, and until it
  expires a client that fetches and acknowledges never gets an empty page.
- A message id may be used again once its message has expired; an acknowledgement that
  is still due then deletes the new message unread. That is the only way to lose one
  (`NoLossExactly`).
- Two first replies to one friend request that overlap leave two responses.
- A revised answer keeps the date of the first, so a client that polls from its last
  poll never sees the revision.
- A message inserted between the third statement of an erasure and its last survives
  the account.
- A cursor at the last server time skips messages of the same millisecond that did not
  fit the page.
- With a cursor of zero the page is unfiltered but the count is not. No store of a
  server whose clock is past the first millisecond of 1970 shows the difference
  (`PageAccounts`).

## Left out

- UpdateChunk.GetUpdateChunk: an operation outside the range of `u64` is one outcome, `Overflow`; whether it panics or wraps depends on the build. Network and manifest errors are left out, and the body of an answer other than a satisfied range (section 14.1.2 of RFC 9110) is arbitrary.
- MessageStore.Server.SendMessage: the arithmetic of very large lifetimes, the sender's own timestamp and signature, and the notification of the recipient are not modelled.
- MessageStore.Server.FetchMessages: the decoding of contents as prekey or regular messages is not part of this model.
- Database.Tables.DeleteAccount: the removal of the user's connection afterwards is a step of `WebSocketHub`.
- SocialGraph.MyAccepted: the conversion of the `since` field to a date is a parameter, the cutoff; the request's own checks (hash, user, signature) are not modelled, nor are those of `SocialGraph.MyResponses`.
- PrekeyRuns.Ledger: account deletion during a run of prekey statements is not modelled; `AccountRuns` covers what deletion does to the keys.
- ReplyRuns.OneResponseExactly: requests do not go away among interleaved replies.
- OrphanRuns.NeverOrphansExactly: a send selects its two users in one step, and its insert is not refused for a message id already taken.
- ProofRuns.SessionsWithinIssued: account deletion among interleaved logins is not modelled.
- Cleanup.Task.Tick: the four limiters are cleaned at one instant, the turn counter does not wrap, and a turn always gets a database connection.
- ConcurrentLimits.ConcurrentThroughput: how the tiers of overlapping sends answer is not modelled, only that what passed had its turns.
- The deliveries on a broadcast channel, its capacity and lagging receivers: only whether a channel has receivers is modelled. Forwarding file chunks between connections is left out too. The requests a WebSocket loop passes on to other handlers are steps of those handlers.
- Rounding of times to microseconds by the database.
- Axum, TLS, framing, Diesel, the connection pool and the async runtime; Protobuf and the dispatcher.
- Registration beyond the user row, password commitments, proof types, the version lookup of the login, user lookup, friend-request listing, manifest fetch: single checks, not modelled.
- The random generators and the Dilithium implementation.

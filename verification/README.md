# claude-peers: a verified model

A Dafny model of the claude-peers broker and client: the routing and delivery state machine
over its three tables, the text timestamps those tables are compared by, token validation with
write-through persistence, the sliding-window rate limiter, the lifetime parser, and the client
that rebinds and pushes. Methods on objects do what the Go code does, statement by statement
and loop by loop, and are proved equal to functions on table values; the guarantees are then
proved about those functions, for all inputs and for whole runs.

| file | models |
|---|---|
| `TextOrder.dfy`, `Timestamps.dfy`, `Calendar.dfy` | byte order of text; the row and cutoff layouts of RFC 3339 and what comparing them decides; the Gregorian calendar they are written from |
| `Store.dfy`, `StoreLaws.dfy`, `StoreSteps.dfy` | the tables, every request as a function on them, the joint invariant, laws relating requests |
| `BrokerCore.dfy` | the broker object, its SQL statements as assignments to map fields |
| `BrokerRuns.dfy` | runs: sequences of timed requests from an empty database, restarts included |
| `Interleaving.dfy` | register and claim taken apart into single statements of concurrent callers |
| `RateLimiter.dfy` | the limiter on slices over arrays, and runs of it |
| `Tokens.dfy`, `TokenRuns.dfy`, `TokenValidator.dfy`, `TokenSetup.dfy` | checks and memory; interleaved runs; the validator object and its table; an instance of what the results assume |
| `Ttl.dfy` | the day rewrite and the lifetime parser |
| `Client.dfy`, `ClientRuns.dfy` | the client process composed with the broker object; its pushes and its recovery over whole runs |

## Assumptions

- A request is one atomic step, except in `Interleaving`, where registrations and claims are split.
- The methods of `Client.Process` make their calls with no other request between them; `ClientRuns`
  makes them separate steps of a run.
- A run is `Legal` when the clock does not run backwards, drawn session ids are new and nonempty,
  and polls carry a session id. `Store.RegisterKeepsValid` and `Store.PollKeepsValid` say exactly
  what breaks without the last two. An `Admitted` run may poll without a session id.
- Results about runs hold for every `Faithful` format, one whose texts compare as RFC 3339 row and
  cutoff texts do; `Calendar.UtcIsFaithful` shows the code's format is one.
- The clock shows 1970 to 9999; configured stale timeouts are below 2^63 nanoseconds.
- Hashing is injective and never empty; decoding, signature checks and signing are parameters of a
  `Setup`, and `TokenSetup.ExampleIsSound` gives one. The root token carries the full capability list and does not change during a run.
- The library's duration parser is a parameter that answers the sum of day-free integer terms, its
  negative behind a leading minus sign, and fails when the sum exceeds 64 bits or a minus sign
  stands behind a term; `Ttl.LibrarySums` gives such a parser.
- A sort leaves rows with equal keys in no particular order.

## Where the code does not do what is promised

- The comment at broker_core.go:610-613 and rule R4 of docs/ADR-001-agent-session-split.md promise a
  retry on a live session. No code resets a delivery while its session lives; see
  `BrokerRuns.RequeuedExactly` and `BrokerRuns.RedeliveryNeedsADeath`.
- Send order: text order is not time order within a second; see `Timestamps.TextSortableExactly` and
  `BrokerRuns.AnswersInSendOrder` for exactly when it is.
- "A session may claim exactly once": two overlapping claims of one session both succeed; see
  `Interleaving.OverlappingClaimsRename`, for exactly when a name changes `Interleaving.RenamedByOverlap`,
  and for when names are safe `Interleaving.NamesNeverChange`.
- "Only after ack is the message permanently marked as delivered": an ack that arrives before the
  delivery does not stop it; see `StoreLaws.AckQuietsDelivered`.
- An ack without a session id consumes a queued message nobody has seen; see
  `StoreLaws.NamelessAckTakesWaiting`, and `BrokerRuns.SeenOrKept` for what well-behaved clients get.
- A poll whose answer is lost has delivered its messages, and they stay out of reach while the session
  lives; see `Client.Process.CheckMessages` and `BrokerRuns.RequeuedExactly`.
- A poll without a session id takes every queued message out of every session's reach until somebody
  unregisters the empty id, which the endpoint accepts and which puts the unacked ones back; see
  `BrokerRuns.NamelessPollStrands` and `BrokerRuns.PutBackExactly`.
- The lifetime parser accepts some texts whose day counts overflow when multiplied by 24; see
  `Ttl.MeaningKeptExactly` for exactly which, and `Ttl.OverflowIsAccepted` for one.
- The limiter reads its clock before taking its lock; see `RateLimiter.LateReadingExactly` and
  `RateLimiter.LateAnswerExactly` for exactly which readings served late are harmless.

## Model

| member | source | states |
|---|---|---|
| `Calendar.GregorianDays` | types.go:218-220 | the year table behind the formatter counts leap days by the Gregorian rule |
| `Calendar.MonthsInClosedForm` | types.go:218-220 | the month table behind the formatter has the lengths of the calendar, in closed form |
| `Calendar.CivilRoundTrip` | types.go:218-220 | every existing date and time of day is the reading of exactly the second it stands for |
| `Calendar.NextDay` | types.go:218-220 | a day later the reading is the next date of the calendar, through the ends of months and years |
| `Calendar.Epoch` | types.go:218-220 | the clock's epoch reads as midnight of 1 January 1970 |
| `Calendar.EpochText` | types.go:218-220 | the epoch is written 1970-01-01T00:00:00 |
| `Calendar.StampReads` | types.go:218-220 | the fields of a whole-second text read back as its date, days from 1, and its time of day |
| `Calendar.RowReads` | types.go:218-220 | a row text is its second, a fraction that reads back as the nanoseconds and ends in no zero, or none at all, and a 'Z' |
| `Calendar.CutoffReads` | broker_core.go:358 | a cutoff text is its second and a 'Z', the fraction dropped |
| `Calendar.StampOrder` | types.go:218-220 | whole-second timestamp texts compare exactly as the seconds do, for all four-digit years |
| `Timestamps.TextOrderWithinASecond` | types.go:218-220 | inside one second two row texts compare in time order exactly when the earlier trimmed fraction is no prefix of the later one, and the wrong way round otherwise |
| `Timestamps.TextSortableExactly` | broker_core.go:619-626 | `ORDER BY sent_at` as text agrees with time for exactly the pairs in different seconds or without that prefix relation |
| `Timestamps.TextOrderCanReverse` | types.go:218-220 | two instants 20 ns apart whose row texts sort the wrong way round |
| `Timestamps.RowBelowCutoff` | broker_core.go:358-373 | a row is below a whole-second cutoff exactly when written in an earlier second, or later in the cutoff's own second |
| `Timestamps.AgeTestWithinOneSecond` | broker_core.go:304-309 | the age test deletes nothing younger than its span less one second and everything one second older than its span |
| `Calendar.UtcIsFaithful` | types.go:218-220 | the code's row and cutoff texts over the real calendar are one of the formats the broker and token results are about |
| `Store.RegisterKeepsValid` | broker_core.go:391-442 | registering keeps the joint invariant of the three tables exactly when the name is refused, or the drawn id is new and nonempty, or a colliding id has nothing to drain |
| `Store.ClaimKeepsValid` | broker_core.go:691-750 | a claim keeps the joint invariant, draining every message of the claimed name |
| `Store.HeartbeatKeepsValid` | broker_core.go:449-465 | a heartbeat keeps the joint invariant |
| `Store.SendKeepsValid` | broker_core.go:530-590 | a send binds or queues so that the joint invariant stays |
| `Store.PollKeepsValid` | broker_core.go:614-653 | a poll keeps the joint invariant exactly when it names a session or nothing is queued |
| `Store.AckKeepsValid` | broker_core.go:754-759 | an ack keeps the joint invariant |
| `Store.ReleaseKeepsValid` | broker_core.go:353-383 | ending any set of sessions at once keeps the joint invariant: names free, agent messages back on their queues |
| `Store.PurgeKeepsValid` | broker_core.go:304-309 | the periodic deletions keep the joint invariant |
| `Store.RestartKeepsValid` | broker_core.go:261-265 | the startup backfill keeps the joint invariant |
| `StoreLaws.UnregisterAllAtOnce` | broker_core.go:761-777 | unregistering sessions one by one, in any order and with repeats, depends only on the set unregistered |
| `StoreLaws.SweepIsUnregisterAll` | broker_core.go:353-383 | the sweep leaves sessions and messages exactly as unregistering every stale session would, in any order |
| `StoreLaws.UnregisterCommutes` | broker_core.go:761-777 | two unregistrations commute |
| `StoreLaws.ReleaseDisjoint` | broker_core.go:375-383 | the loop bodies of two dead sessions touch different messages |
| `StoreLaws.RegisterOutcome` | broker_core.go:391-442 | registration is refused exactly when the name is held, then changes nothing and describes the one holder; accepted, the session's row carries the request's name, machine, directory and time, and its next poll is the name's whole undelivered queue |
| `StoreLaws.ClaimOutcome` | broker_core.go:691-750 | each of the five answers to a claim exactly when it is due: no name, no such session, already named so, held by the described holder, or claimed with the name's queue; a refusal changes nothing |
| `StoreLaws.SendOutcome` | broker_core.go:530-608 | a send is refused, changing nothing, exactly when both addresses or neither is set or when a session alone is addressed that is not live; else it adds one message under the next number, one for a session bound to it with verdict `bound` |
| `StoreLaws.PollDrains` | broker_core.go:614-653 | after a poll the same session has nothing left to poll or peek |
| `StoreLaws.PollTakesOnlyOwn` | broker_core.go:620-626 | no session's poll takes an unacked message that another live session is owed |
| `StoreLaws.DeadAckChangesNoUnacked` | broker_core.go:754-759 | an ack under the id of no live session leaves every unacked message as it was |
| `StoreLaws.NamelessAckTakesWaiting` | broker_core.go:754-759 | an ack without a session id consumes a message exactly when one is queued and unbound under that number |
| `StoreLaws.AckQuietsDelivered` | broker_core.go:754-759 | an acked message is not polled again by its session exactly when it had been delivered before the ack |
| `StoreSteps.NameStep` | broker_core.go:702-726 | only a claim sets a live session's name, and never a second time |
| `StoreSteps.RowStep` | broker_core.go:391-465 | what any request makes of any session's row: created as requested, ended by leaving or by a sweep, renewed by a heartbeat, named by a claim, else unchanged |
| `StoreSteps.MessageStep` | broker_core.go:371-777 | what any request makes of any stored message: removed, delivered, stamped, requeued, handed to the new holder of its name, each exactly when due, else unchanged |
| `StoreSteps.AttemptsStep` | broker_core.go:637-645 | a poll that selects a message delivers it, binds it to the caller and counts one attempt; no other request does either |
| `StoreSteps.BoundStep` | broker_core.go:376-383 | a delivered message goes back on its queue exactly when it is unacked, for an agent, and its session ends; otherwise it is gone or still delivered to that session |
| `StoreSteps.StrandedStep` | broker_core.go:761-777 | a message delivered to the empty session id stays so until that id is unregistered, which puts it back if it is unacked |
| `StoreSteps.RemovalStep` | broker_core.go:304-309 | only a purge takes an agent message out of the table |
| `StoreSteps.DirectStep` | broker_core.go:375-376 | a direct message leaves the table exactly by an expired purge, or unacked when its session ends, and stays with its session until then |
| `StoreSteps.SeenStep` | broker_core.go:261-265 | a request adds to the history of names exactly the names it gives out and, at startup, those stored messages address |
| `StoreSteps.VerdictStep` | broker_core.go:561-590 | the verdict on an agent send against the stored row, the live holder and the history of names |
| `BrokerCore.Broker.constructor` | broker_core.go:185-257 | a new broker starts from empty tables that satisfy the joint invariant |
| `BrokerCore.Broker.Restart` | broker_core.go:257-265 | the startup backfill, equal to its specification, invariant kept |
| `BrokerCore.Broker.Register` | broker_core.go:391-442 | the statements of a registration compute its specification, including a refused duplicate id; the invariant is kept for a new id |
| `BrokerCore.Broker.ClaimAgent` | broker_core.go:691-750 | the statements of a claim compute its specification, invariant kept |
| `BrokerCore.Broker.Heartbeat` | broker_core.go:449-465 | renews a live session or answers `unknown_session` and changes nothing |
| `BrokerCore.Broker.SendMessage` | broker_core.go:530-608 | routes, stores under the next number and gives the verdict its specification says, invariant kept |
| `BrokerCore.Broker.SelectRows` | broker_core.go:619-635 | lists each undelivered row for the session or its name once, in order of the `sent_at` text |
| `BrokerCore.Broker.PeekMessages` | broker_core.go:657-684 | answers the selected rows as stored and changes nothing |
| `BrokerCore.Broker.PollMessages` | broker_core.go:614-653 | answers what a peek would, then its per-row updates deliver exactly those rows |
| `BrokerCore.Broker.AckMessage` | broker_core.go:754-759 | acks only under the session the message is bound to |
| `BrokerCore.Broker.Unregister` | broker_core.go:761-777 | frees the name, drops direct messages, requeues agent messages, invariant kept |
| `BrokerCore.Broker.CleanStalePeers` | broker_core.go:353-383 | the loop over dead ids computes the sweep's specification, whatever the order of the ids |
| `BrokerCore.Broker.PurgeMessages` | broker_core.go:304-309 | the two deletions compute the purge's specification, invariant kept |
| `BrokerRuns.AlwaysValid` | broker_core.go:391-777 | the joint invariant of sessions, messages and names holds after every step of every run |
| `BrokerRuns.NumbersOnlyGrow` | broker_core.go:205 | message numbers only grow, and one that left the table never comes back |
| `BrokerRuns.SendNumbersDiffer` | broker_core.go:205 | two accepted sends never share a number |
| `BrokerRuns.StoredCameFrom` | broker_core.go:583-591 | every stored message came from an accepted send whose addresses, text and time it still carries |
| `BrokerRuns.NoSilentLoss` | broker_core.go:304-309 | in every run a message accepted for an agent stays until a purge finds it last acked more than 59m59s ago, or unacked and sent more than 23h59m59s ago; while unacked it is with the live session of exactly that name, or unbound and undelivered with the name free |
| `BrokerRuns.AckedWhen` | broker_core.go:754-759 | the stamp of an acked message is the time of the last ack that hit |
| `BrokerRuns.PurgeExactly` | broker_core.go:304-309 | a purge takes a message exactly when its last ack lies below the cutoff an hour back, or unacked its send below the cutoff a day back: none a second younger, all a second older |
| `BrokerRuns.PurgeLeavesNothingOld` | broker_core.go:304-309 | after a purge no unacked message is left that was sent 86401s ago, no acked one whose last ack was 3601s ago |
| `BrokerRuns.HolderGetsEverything` | broker_core.go:614-653 | when the holder of a name polls, every message ever accepted for the name is purged, acked, in this answer, or was in an earlier answer to the same session |
| `BrokerRuns.SessionGetsEverything` | broker_core.go:614-653 | when a session polls, every message ever accepted for it is purged, acked, in this answer or in an earlier one to it, or was dropped at its end |
| `BrokerRuns.DeliveredWasReturned` | broker_core.go:637-645 | a delivered message was in the answer to a poll of the session it is bound to |
| `BrokerRuns.AckedByItsSession` | broker_core.go:754-759 | a message is acked only by the live session it is bound to, or, while it is queued, by an ack without a session id |
| `BrokerRuns.SeenOrKept` | broker_core.go:304-309 | if clients ack only what their polls returned, an accepted agent message is in its place unacked, or a poll has returned it, or a purge ran more than 23h59m59s after the send |
| `BrokerRuns.DirectMessageFate` | broker_core.go:371-376 | a message accepted for a session is with that session until a purge takes it, last acked more than 59m59s ago or unacked and sent more than 23h59m59s ago, or the session ends before acking it |
| `BrokerRuns.RequeuedExactly` | broker_core.go:376-383 | a delivered message goes back on its queue exactly when it is unacked, for an agent, and its session ends: never while the session lives |
| `BrokerRuns.AttemptsConserved` | broker_core.go:637-645 | attempts equal the polls that returned the message, and equal the sessions that ended while it was delivered to them unacked, plus one while delivered |
| `BrokerRuns.RedeliveryNeedsADeath` | broker_core.go:376-383 | between two polls returning the same message the first poller's session ended without having acked it |
| `BrokerRuns.NoDeliveryAfterAck` | broker_core.go:752-759 | once a delivered message is acked no later poll by anyone returns it |
| `BrokerRuns.NamelessPollStrands` | broker_core.go:614-653 | no poll can return a message that a nameless poll took until the empty id was unregistered while the message was unacked |
| `BrokerRuns.PutBackExactly` | broker_core.go:1088-1094 | a step makes a stranded message returnable again exactly when it unregisters the empty id and the message is unacked |
| `BrokerRuns.EndedStaysEnded` | broker_core.go:154-158 | an ended session id is never live again |
| `BrokerRuns.LateAckHarmless` | broker_core.go:375-383 | after a session ended no ack under its id changes any unacked message, whoever holds its name by then |
| `BrokerRuns.LastSeenIsLastContact` | broker_core.go:449-450 | a live session's `last_seen` is the text of its latest registration or heartbeat |
| `BrokerRuns.EvictionExactly` | broker_core.go:353-373 | with T the configured timeout in seconds, or 20, a sweep evicts a session exactly when its last contact is below the whole-second cutoff T seconds back: never at T - 1 seconds of silence, always at T + 1 |
| `BrokerRuns.NeverEvicted` | broker_core.go:353-373 | a session that no sweep finds silent for more than its timeout less one second, and that does not leave, lives on |
| `BrokerRuns.HeartbeatsKeepAlive` | config.go:168 | at the default 20s timeout a client heard from within 19s of every sweep is never evicted in any run |
| `BrokerRuns.SeenExactly` | broker_core.go:730-734 | the history of names holds exactly the names ever held and those a startup found messages for |
| `BrokerRuns.VerdictMatchesHistory` | broker_core.go:561-576 | `bound` means the stored row names a live session; `queued_unknown` exactly when no session ever held the name and no startup found a message for it |
| `BrokerRuns.OfflineMeansHeld` | broker_core.go:567-576 | without a restart before it, `queued_offline` means some session held the name, and none does now |
| `BrokerRuns.AnswersInSendOrder` | broker_core.go:619-626 | an answer lists two messages in send order exactly when their times are text-sortable, so always when sent in different seconds |
| `BrokerRuns.NameKept` | broker_core.go:702-713 | with whole requests a session's name, once set, never changes while it lives |
| `BrokerRuns.RowAsRegistered` | broker_core.go:416-422 | in every run a live session's row carries the machine, the directory and the time of its registration |
| `BrokerRuns.ConflictTells` | broker_core.go:404-410 | in every run a refused registration or claim is told the live holder with the machine, directory and time it registered with |
| `BrokerRuns.OnlyTheAddressee` | broker_core.go:614-684 | in every run a poll or peek shows a live session only messages sent to its id or to the name it holds |
| `Interleaving.NamesAlwaysUnique` | broker_core.go:202-203 | however registrations and claims interleave statement by statement, no two rows hold the same nonempty name |
| `Interleaving.RegisterAloneIsRegister` | broker_core.go:391-442 | the statements of a registration, uninterrupted, are the whole request |
| `Interleaving.ClaimAloneIsClaim` | broker_core.go:691-750 | the statements of a claim, uninterrupted, are the whole request |
| `Interleaving.RenamesExactly` | broker_core.go:726 | from any state only the unguarded UPDATE of a claim renames a session, exactly when the session has got another name by then and the claim's own is free |
| `Interleaving.RenamedByOverlap` | broker_core.go:702-726 | in every run a statement renames a session exactly when another claim named the session since this claim's lookup and this claim's name is another one, held by nobody else |
| `Interleaving.NamesNeverChange` | broker_core.go:702-726 | while no session has two claims under way no name ever changes, whatever else interleaves |
| `Interleaving.OverlappingClaimsRename` | broker_core.go:702-726 | from any state, two overlapping claims of one unnamed session both succeed and the second renames it |
| `Interleaving.RaceLoserDrainsToNobody` | broker_core.go:412-434 | a registration the name index refuses still drains the queue to its rowless id; the holder's next poll selects those messages all the same |
| `RateLimiter.Limiter.constructor` | rate_limiter.go:18-27 | a new limiter holds no logs |
| `RateLimiter.Limiter.Compact` | rate_limiter.go:38-43 | the in-place filter leaves, at the front of the same array, exactly the recent times in order |
| `RateLimiter.Limiter.Append` | rate_limiter.go:50 | append extends the log in place while there is room and in a new array otherwise |
| `RateLimiter.Limiter.Allow` | rate_limiter.go:29-52 | prunes, decides and records as specified, on slices compacted in place |
| `RateLimiter.Limiter.Cleanup` | rate_limiter.go:55-74 | compacts every log and deletes exactly the empty ones |
| `RateLimiter.StoredSeesAll` | rate_limiter.go:36-43 | for every cutoff that no call touching the log has gone beyond, the pruned log shows what the never-pruned log of accepted requests shows |
| `RateLimiter.AnswersAsTheFullLog` | rate_limiter.go:29-52 | a request served behind no later reading of its own log is allowed exactly when fewer than `limit` earlier requests of its address were accepted in the window ending now |
| `RateLimiter.SlidingBound` | rate_limiter.go:29-52 | every window of the configured length, wherever it starts, holds at most `limit` accepted requests of an address |
| `RateLimiter.TicksChangeNoAnswer` | rate_limiter.go:55-74 | a cleanup inserted anywhere changes no answer to an address, provided its requests stay in the order of readings behind it |
| `RateLimiter.CleanupLeavesRecent` | rate_limiter.go:55-74 | a cleanup leaves no empty log and no time outside the window |
| `RateLimiter.LogsStayShort` | rate_limiter.go:45-50 | no stored log is ever longer than the limit |
| `RateLimiter.LateReadingExactly` | rate_limiter.go:30-34 | a request that read `r`, served after a call that read `late`, leaves the bound intact in every history exactly when `late <= r`, or nothing is ever let in, or the window has no length |
| `RateLimiter.LateAnswerExactly` | rate_limiter.go:30-34 | such a request gets the full log's answer in every history exactly when `late <= r`, or nothing is ever let in, or the window has no length and the limit is above one |
| `Tokens.ValidateExactly` | auth_ucan.go:281-347 | each verdict of the ordinary check exactly when it is due: malformed, 30 seconds past the expiry or more than 30 before the start, wrong subject, not the root's, unknown proof, more than the parent, accepted |
| `Tokens.ValidateWithGraceExactly` | auth_ucan.go:213-279 | each verdict of the lenient check exactly when it is due, only more than the grace past its expiry being out of date |
| `Tokens.LearnKeepsAgreement` | auth_ucan.go:335-344 | writing a token through keeps map and table in agreement |
| `Tokens.BootAgrees` | broker_core.go:274-285 | after startup the map equals the surviving rows and knows the root token with every capability |
| `Tokens.DroppedExactly` | broker_core.go:1222-1226 | a row with a whole-second expiry is dropped exactly when that second is over: none still ahead, all expired by a second |
| `Tokens.RestartTransparent` | auth_ucan.go:160-173 | a restart changes a verdict only from having passed to the parent check to unknown proof, and only when the parent's row had expired, the root token being known in full |
| `Tokens.GraceCoversLeeway` | auth_ucan.go:213-279 | whatever the ordinary check accepts the one-hour check accepts with the same claims |
| `Tokens.RefreshIsGrace` | broker_core.go:891-900 | the endpoint's two checks are the one-hour check alone while their readings are within 59m30s |
| `Tokens.RefreshGrantedExactly` | broker_core.go:891-955 | a refresh is granted exactly when one of the two checks accepts, the audience and issuer are different readable keys and the root token has every capability; denied, nothing is learned beyond the accepted token |
| `Tokens.RefreshKeepsCapabilities` | broker_core.go:902-955 | a refreshed token has the old capabilities and audience, the root token as parent and the configured lifetime |
| `Tokens.RefreshedValidates` | broker_core.go:948-955 | the granted token validates at once and exactly until its leeway ends |
| `Tokens.RefreshChainKeepsCapabilities` | broker_core.go:891-960 | any chain of refreshes, whatever happens in between, keeps the capability list |
| `TokenRuns.MemoryMatchesTable` | auth_ucan.go:335-344 | after every step of every interleaved run, restarts included, known tokens and saved rows agree as sets |
| `TokenRuns.AcceptedIsGrounded` | auth_ucan.go:313-333 | what a look-up accepts is root-issued or the child of a token an earlier step learned, even though its write comes later |
| `TokenRuns.KnownExactly` | auth_ucan.go:160-173 | a hash is known exactly when a step learned it and no start since its last write has read a clock past the expiry written then, and with the capabilities learned last |
| `TokenRuns.ForgottenExactly` | broker_core.go:1222-1226 | a start forgets a token with a stated expiry exactly when that whole second is over |
| `TokenRuns.ForgottenAfterADay` | auth_ucan.go:175-194 | a token without a stated expiry is forgotten by no start up to 86399s after its write and by any 86401s after |
| `TokenRuns.AcceptedExactly` | auth_ucan.go:281-347 | in every run a token is accepted exactly when it is genuine, timely, of the right subject, and root-issued or the child, no more able, of a token learned earlier and not forgotten by a start since |
| `TokenRuns.RootAlwaysKnown` | broker_core.go:274-285 | from the first start on the root token is known with every capability |
| `TokenRuns.RootOpensEveryEndpoint` | broker_core.go:963-1111 | from the first start on the root token is known with the capability every endpoint demands |
| `TokenRuns.RestartInRuns` | auth_ucan.go:160-173 | in every run a restart changes a verdict only from having passed to the parent check to unknown proof, and only when the parent's row had expired |
| `TokenRuns.RefreshInRuns` | broker_core.go:891-955 | in every run a refresh is granted exactly for a genuine, timely token with a living parent or the root's issue, different audience and issuer keys and no capability outside the full list; a token issued to its own issuer is denied |
| `TokenRuns.RefreshIsRegistered` | broker_core.go:948-955 | what a refresh registers is a child of the root token and no more able |
| `TokenRuns.UninterruptedIsValidate` | auth_ucan.go:213-347 | the look-up and the write of a run, uninterrupted, are the whole validation |
| `TokenRuns.LearnedHasParent` | auth_ucan.go:313-347 | whatever a step learned is root-issued or has a parent learned by an earlier step with at least its capabilities |
| `TokenRuns.ChainExists` | auth_ucan.go:313-347 | every learned token has a finite chain of earlier-learned parents ending in a root-issued token |
| `TokenRuns.ChainAttenuates` | auth_ucan.go:328-332 | along a chain steps go strictly back and capability sets only shrink towards the token |
| `TokenRuns.KnownWithinRoot` | auth_ucan.go:281-347 | every known set lies within that of the root-issued token its chain ends in |
| `TokenRuns.WithinAllCapabilities` | broker_core.go:947-953 | if the root key issues nothing outside the full list, nothing outside it is accepted and no refresh is refused for want of a capability |
| `TokenValidator.TokenTable.Save` | broker_core.go:1199-1215 | the upsert replaces exactly one row |
| `TokenValidator.TokenTable.Load` | broker_core.go:1222-1250 | deletes the expired rows and lists each other row |
| `TokenValidator.RestoreOfListing` | auth_ucan.go:160-173 | restoring a listing of the table gives the map the table stands for |
| `TokenValidator.Validator.constructor` | auth_ucan.go:140-145 | a new validator knows nothing and writes nowhere |
| `TokenValidator.Validator.WithPersister` | auth_ucan.go:149-154 | attaches the table |
| `TokenValidator.Validator.Restore` | auth_ucan.go:160-173 | the loop computes the restored map, later rows replacing earlier ones |
| `TokenValidator.Validator.PersistKnown` | auth_ucan.go:196-205 | saves the set in any order with the token's own expiry, or a day without one |
| `TokenValidator.Validator.RegisterToken` | auth_ucan.go:349-359 | learns the token with the given capabilities in map and table |
| `TokenValidator.Validator.CheckChain` | auth_ucan.go:309-333 | the capability-by-capability loop decides set inclusion in the parent |
| `TokenValidator.Validator.Validate` | auth_ucan.go:281-347 | gives the specified verdict and learns exactly the accepted token |
| `TokenValidator.Validator.ValidateWithGrace` | auth_ucan.go:213-279 | gives the specified verdict under the grace window and learns exactly the accepted token |
| `TokenValidator.Start` | broker_core.go:274-285 | load, restore, attach, register the root token: the memory is that of a start |
| `TokenValidator.Refresh` | broker_core.go:891-960 | the two checks, the refusals, the minting and the registration, each at its own clock reading, compute the refresh's specification |
| `TokenSetup.ExampleIsSound` | auth_ucan.go:80-138 | what the token results ask of keys, hashing and signing can be met, by signed texts that give their claims back |
| `Ttl.ParseFlexibleDuration` | ttl.go:35-83 | the parser with its scanning loop computes the specified answer and terminates |
| `Ttl.RewriteDays` | ttl.go:47-70 | the two-index scan and its growing output compute the rewrite |
| `Ttl.DefaultChildTTL` | ttl.go:90-99 | the default is the configured lifetime if it parses, else a day, and always between a minute and a year |
| `Ttl.AcceptedInRange` | ttl.go:76-82 | every accepted lifetime is between a minute and a year |
| `Ttl.RewriteTouchesDaysOnly` | ttl.go:43-46 | the rewrite leaves a text alone exactly when no digit in it is followed by a 'd' |
| `Ttl.DaysKeepTheirMeaning` | ttl.go:22-34 | a text of integer terms whose day counts fit is accepted exactly when its sum, a day being 24h, is in range, with that sum as the answer |
| `Ttl.AnswerToTerms` | ttl.go:35-83 | the answer to every text of integer terms, error cases included: unreadable counts, machine products of either sign, sums beyond 64 bits |
| `Ttl.AcceptedExactly` | ttl.go:56-82 | a text of integer terms is accepted exactly when its day counts are readable, none has a negative machine product and the sum of machine hours is between a minute and 365 days, with that sum as the answer; each refusal has its exact condition |
| `Ttl.AnswerBetweenSpaces` | ttl.go:36 | spaces, tabs and line ends around a text of terms change no answer |
| `Ttl.EmptyExactly` | ttl.go:36-39 | a text is refused as empty exactly when it has nothing but spaces |
| `Ttl.DocumentedExamples` | ttl.go:25-30 | the four documented examples mean what is documented |
| `Ttl.MeaningKeptExactly` | ttl.go:22-34 | the answer is the promised one exactly when the day counts fit or the text with its wrapped hours would not be accepted |
| `Ttl.OverflowIsAccepted` | ttl.go:56-61 | 768614336404564651 days and twelve hours are accepted as twenty hours |
| `Ttl.LibrarySums` | ttl.go:71 | what is asked of the library's parser is met by a parser of integer terms |
| `Client.Process.constructor` | fleet_server.go:914-917 | a process starts with no session and nothing pushed |
| `Client.Process.Rebind` | fleet_server.go:450-483 | with nothing served between its calls, re-registers under the configured name when it is free and without a name when it is held; the session id changes only to a live new one |
| `Client.Process.HeartbeatTick` | fleet_server.go:537-559 | with nothing served between its calls, after an answered `unknown_session` and answered registrations the current id is live; if the name was free it holds it again and its next peek has every undelivered message for the name |
| `Client.Process.WriteNew` | fleet_server.go:950-973 | the push loop writes exactly the answered messages whose numbers it has not written before |
| `Client.Process.PollAndPush` | fleet_server.go:926-974 | never writes a number to the channel twice and, when the peek is answered, leaves no peekable number unpushed, writing under each new one the message as stored |
| `Client.Process.AckAll` | fleet_server.go:882 | acks exactly the answered messages whose acks arrive |
| `Client.Process.CheckMessages` | fleet_server.go:846-883 | the drain delivers exactly what the poll returned and acks each of them unless its ack is lost; a poll whose answer is lost has delivered its rows and acks none |
| `ClientRuns.NotesDistinct` | fleet_server.go:905-917 | over all ticks, rebinds and requeues no number is written to the channel twice, and what was written stays |
| `ClientRuns.NoteCameFrom` | fleet_server.go:944-973 | what was pushed under a number is what one accepted send stored under it |
| `ClientRuns.PushedStaysTheMessage` | fleet_server.go:905-917 | over a whole run a pushed number denotes one message for ever: whatever the table holds under it is what was written |
| `ClientRuns.EachSendPushedOnce` | fleet_server.go:950-952 | no two notifications come from one accepted send |
| `ClientRuns.NoneSkipped` | fleet_server.go:926-974 | after an answered tick every peekable message itself has been written |
| `ClientRuns.RecoversInRuns` | fleet_server.go:450-483 | with any requests of others between heartbeat and registrations, the new session id is new and live; if the name was free it holds it for life and every peek of it shows all undelivered messages for the name, else it is live without a name |

## Left out

- Interleaving.NamesAlwaysUnique: at single-statement granularity only name uniqueness, name changes and
  the losing registration are stated; the placement of messages is stated for whole requests.
- Tokens.RefreshToken: the new lifetime must end before the year 10000, and one refresh runs undisturbed;
  `TokenRuns` interleaves look-ups and writes.
- Ttl.AnswerToTerms: texts of integer terms only; signs and fractions in the text itself, and so fractional
  days, are not modelled.
- Ttl.TrimSpace: strips the Latin-1 spaces only.
- Issuer and audience alignment along a chain, and children outliving their parents: the code does not
  enforce either.
- HTTP routing, JSON, status codes, authentication errors, logging and the event publisher.
- The SQL engine, its errors and its files; Ed25519, SHA-256 and JWT encoding.
- TLS, key files, configuration loading and printing.
- Events, fleet memory, summaries, peer listings, git and language-model calls, session-state files and
  the transport to the editor: no hard invariant.
- Process ids, terminals, projects and branches of a session, and when a name was first seen: stored and
  returned, never decided on.
- The schema migration at startup: it only drops tables of an older layout.

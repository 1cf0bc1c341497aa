# Proofs about a blog API and its social-feed SQL

This project models the stateful core of a small blog back end written in Go and of the SQL design that accompanies it,
and proves what that code is meant to guarantee.

| files | what they model |
|---|---|
| `EventBus.dfy`, `Bus.dfy` | the in-process publisher: a bounded queue, any number of `Publish` calls, a worker pool while and after it is started, and any number of `Shutdown` calls, interleaving freely; the protocol, and the object proved against it |
| `RateLimit.dfy` | the token-bucket limiter, its retry times and its janitor |
| `Comments.dfy`, `CommentLocks.dfy`, `CommentDrift.dfy` | comment threads and the denormalised `comment_count`: whole calls; creates and post deletes statement by statement under the post's lock; and comment deletes statement by statement beside them, under row locks |
| `Posts.dfy`, `Slug.dfy`, `PostList.dfy` | posts with unique slugs allocated by retrying, slug generation, and the paginated listing |
| `Sessions.dfy`, `SessionSnapshots.dfy`, `SessionStore.dfy` | refresh-token rotation with replay detection, a `Refresh` split wherever others may come between; rotations and revoke-alls statement by statement; the repository and service objects |
| `Feed.dfy`, `FeedReader.dfy`, `CommentPath.dfy`, `Reactions.dfy` | the SQL design: the two-branch cursor-paginated feed, comment paths, trigger-maintained tallies |
| `Migrations.dfy`, `MigrationNames.dfy`, `MigrationText.dfy`, `Migrator.dfy`, `MigrationLock.dfy` | the migration runner: what `Up` and `Down` compute, the file names it accepts, which edits of a file it notices, the loops that compute it, and any number of runners competing for the lock and crashing |
| `Tallies.dfy`, `Runs.dfy` | sums over goroutines, and runs of a state machine |

Shared state that several callers change is a state machine whose steps are single accesses of the original: an atomic
load, a channel operation, one turn of the loop that starts the workers, one SQL statement. An object whose methods update
its fields is a class whose methods are proved equal to runs of those steps. A database transaction run by `InTx`
(internal/platform/postgres/postgres.go:98-122) is one step, except in `CommentLocks`, `CommentDrift`,
`SessionSnapshots` and `Posts`, where each statement is. Clocks, random bytes, new ids, lower-casing, full-text search and
the hash function are parameters.

## What the code does not do

These promises hold only under a condition; each has a lemma that states the condition exactly, and most a concrete state
in which the promise fails.

- `Shutdown` reports a complete drain on a bus that had no worker when its `Wait` returned: one never started, or one whose
  `Start` has passed its compare-and-swap but not its first `wg.Add` (`EventBus.ShutdownTrueMeansDrained`,
  `EventBus.UnstaffedShutdownReportsTrue`). A worker added between the `Wait` and the answer does not make the answer
  right (`EventBus.LateWorkerShutdownReportsTrue`); one added before the `Wait` returned does
  (`EventBus.StaffedWaitIsRight`).
- The `Retry-After` header can be one nanosecond's wait too short (`RateLimit.WaitingTheHeaderIsEnough`,
  `RateLimit.HeaderCanFallShort`).
- Two overlapping deletes of one thread take it off the counter twice (`CommentDrift.CounterShortByDrift`,
  `CommentDrift.OverlapUndercounts`).
- A reply that commits between a delete's snapshot and its commit stays live under the deleted comment
  (`CommentDrift.CommitKeepsNoOrphansIff`, `CommentDrift.StrandedReplyArises`).
- A rotation that commits between a revoke-all's snapshot and its update leaves its replacement live
  (`SessionSnapshots.SweepEndsEverySessionIff`, `SessionSnapshots.ReplacementSurvives`).
- A feed page can miss a visible row when a blocked author fills a branch (`Feed.PageExactIff`,
  `Feed.BlockedAuthorHidesRow`), and the reader then never sees it; a reader also stops early at a page-long run of posts
  deleted since they were fanned out (`FeedReader.ReaderCompleteIff`, `Feed.HydratedWalkCompleteIff`).
- Publishing a post that another request has just unpublished is refused by a CHECK constraint and surfaces as an internal
  error (`Posts.CheckFiresIffStale`, `Posts.StalePublishArises`); publishing one that another request has just published
  moves its publication time (`Posts.PublicationMovesIffStale`, `Posts.PublicationMoves`).
- A page number that passes validation can overflow the offset and show the first page again (`PostList.ListedExactIff`,
  `PostList.WrappedOffsetShowsFirstPage`).

A reply to an already deleted comment is accepted, because the foreign key ignores `deleted_at`
(`Comments.CreateKeepsNoOrphansIff`), and a page past the end reports a total of zero
(`PostList.PastTheEndTotalIsZero`).

## Model

| member | source | states |
|---|---|---|
| EventBus.AcceptedIsConserved | internal/platform/events/events.go:107-227 | in every state of every interleaving, accepted events are exactly the queued, the in-flight and the dispatched ones, in order; the queue never exceeds its capacity and the channel is never closed twice |
| EventBus.EveryPublishCountedOnce | internal/platform/events/events.go:163-199 | each Publish adds to exactly one of published and dropped; counters lag by at most the calls still under way and are exact once none is |
| EventBus.NothingAcceptedAfterClose | internal/platform/events/events.go:163-194 | after the channel is closed no run accepts another event |
| EventBus.SizesAreKept | internal/platform/events/events.go:82-97 | over every run the capacity is the buffer asked for and the pool the workers asked for, either of them one where less than one was asked |
| EventBus.SendGoesThroughIff | internal/platform/events/events.go:178-194 | a send puts the event behind all others exactly when the channel is open and holds fewer events than the buffer asked for, at least one |
| EventBus.EitherCaseMayBeTaken | internal/platform/events/events.go:212-226 | after the Wait the select may still take either case: true, or the expired context's false |
| EventBus.ShutdownTrueMeansDrained | internal/platform/events/events.go:206-227 | at the instant the Wait of a Shutdown finds the group empty, every accepted event has been through every handler exactly once and nothing is queued, if and only if Start had added a worker by then or nothing was accepted |
| EventBus.StaffedWaitIsRight | internal/platform/events/events.go:206-227 | if Start had added a worker when the Wait returned, or nothing was accepted, the bus is drained whenever the answer is given and ever after |
| EventBus.DrainedForGood | internal/platform/events/events.go:206-227 | once closed and drained the bus stays drained, whatever is called later |
| EventBus.UnstaffedShutdownReportsTrue | internal/platform/events/events.go:107-117 | reachable states in which the Wait returns with an event still queued: without a Start, and with one between its compare-and-swap and its first wg.Add |
| EventBus.LateWorkerShutdownReportsTrue | internal/platform/events/events.go:212-220 | a reachable state in which Shutdown has answered true while a worker added after the Wait has the event still to take |
| EventBus.StepUsesOnlyPoolMoves | internal/platform/events/events.go:109-154 | once closed, a measure over queue, handlers left, panics to recover from, live workers and workers still to be added falls by one with each step of the pool, and with no other step |
| EventBus.PoolNeverStuck | internal/platform/events/events.go:109-154 | while the measure is positive the pool can move; at zero the bus is drained and the wait group empty |
| EventBus.EveryScheduleDrains | internal/platform/events/events.go:109-154 | whatever the schedule, the number of the pool's steps is bounded by the measure at the start, and using it up means drained |
| Bus.InvokedServes | internal/platform/events/events.go:128-141 | after n turns of the handler loop exactly the first n handlers have had the event once more and nothing else moved |
| Bus.PanicsAreIsolated | internal/platform/events/events.go:145-154 | the call and its deferred function lead to the same state whether the handler panics or returns: it has had the event and the worker goes on |
| Bus.RangedServes | internal/platform/events/events.go:119-124 | n turns of the range loop take the first n queued events through every handler exactly once |
| Bus.LastExitDrains | internal/platform/events/events.go:119-124 | the last worker to leave the range loop leaves a drained bus |
| Bus.PublishSteps | internal/platform/events/events.go:163-194 | the closed check, the send and the count of a Publish nobody interrupts amount to one change |
| Bus.StartSteps | internal/platform/events/events.go:109-117 | so do the compare-and-swap and n turns of the loop of Start |
| Bus.ShutdownSteps | internal/platform/events/events.go:206-227 | so do the steps of a Shutdown, the first or a later one |
| Bus.Bus.NewBus | internal/platform/events/events.go:82-97 | the capacity is the buffer asked for if that is at least one and otherwise one, likewise the workers; everything else is empty |
| Bus.Bus.Subscribe | internal/platform/events/events.go:100-105 | panics and changes nothing exactly once started; otherwise one handler more, that has missed nothing: none has been called yet |
| Bus.Bus.Start | internal/platform/events/events.go:109-117 | panics and changes nothing exactly once started; otherwise ends with size workers receiving, all counted in the wait group, none still to be added |
| Bus.Bus.Publish | internal/platform/events/events.go:163-194 | accepts the event, behind all others, exactly when the bus is open and has room; exactly one counter rises, by one; workers, handlers and the closing are untouched |
| Bus.Bus.Dispatch | internal/platform/events/events.go:128-141 | the handler loop, any of them panicking, gives each handler the event exactly once and is the composition of the protocol's steps |
| Bus.Bus.Work | internal/platform/events/events.go:119-124 | after close, wherever the other workers stand, the loop empties the queue, raises what each handler has had by exactly the events queued, leaves the others alone and exits; the last to leave leaves a drained bus |
| Bus.Bus.Close | internal/platform/events/events.go:206-211 | the channel is open when it is closed, so closing never panics, and a later call finds it closed |
| Bus.Bus.Shutdown | internal/platform/events/events.go:206-227 | afterwards closed for good and never crashed; false only when the context expired; true only with an empty wait group, and then drained if and only if a worker had been added or nothing was accepted |
| RateLimit.RateLimiter.Allow | internal/middleware/ratelimit.go:87-116 | answer, retryAfter and new bucket of the key as specified; every other key untouched |
| RateLimit.RateLimiter.EvictIdle | internal/middleware/ratelimit.go:153-163 | a key keeps its bucket, unchanged, exactly when it was last seen no longer than idleTTL ago; every other one is removed |
| RateLimit.LevelThroughout | internal/middleware/ratelimit.go:87-116 | the lazily kept tokens always equal the tightest window's remaining room |
| RateLimit.GreedyOverAllWindows | internal/middleware/ratelimit.go:87-116 | a request is admitted if and only if every window opening at an earlier request of its key stays within burst plus rate times its length |
| RateLimit.AdmissionsBoundedUnderAnyClock | internal/middleware/ratelimit.go:88-116 | for any clock readings, even backwards ones, admissions are at most burst plus the refill for the forward moves, and tokens stay between 0 and burst |
| RateLimit.TokensConserved | internal/middleware/ratelimit.go:88-116 | admissions plus tokens left never exceed that bound |
| RateLimit.ProbesCompose | internal/middleware/ratelimit.go:100-115 | rejected probes change nothing but the clock: their refills add up |
| RateLimit.AdmittedOnceExactWaitPassed | internal/middleware/ratelimit.go:100-115 | after a rejection, a later request is admitted if and only if the exact wait has passed, however many rejected probes came between |
| RateLimit.RetryAfterIsTight | internal/middleware/ratelimit.go:110-115 | rejected before now plus retryAfter, admitted from one nanosecond after it |
| RateLimit.RetrySecondsRoundsUp | internal/middleware/ratelimit.go:183-187 | the header is the least whole number of seconds, at least one, not below retryAfter |
| RateLimit.WaitingTheHeaderIsEnough | internal/middleware/ratelimit.go:183-187 | waiting the header's seconds suffices if and only if truncation did not cut a fraction off a whole number of seconds |
| RateLimit.HeaderCanFallShort | internal/middleware/ratelimit.go:183-187 | a configuration and three requests where it does not suffice |
| RateLimit.EvictionInvisibleIff | internal/middleware/ratelimit.go:153-163 | evictions anywhere in any run change no answer if and only if a bucket idle for one nanosecond over idleTTL has refilled completely |
| RateLimit.RateTimesTTLSuffices | internal/middleware/ratelimit.go:137-163 | rate times idleTTL at least burst makes the janitor invisible |
| Comments.CounterExactOverRuns | internal/comment/repository.go:63-102 | over every run of creates, deletes and post deletes each live post's comment_count is its number of live comments, a deleted post has none, and no pending delete can trip the non-negative CHECK |
| Comments.ThreadOnOnePost | internal/comment/repository.go:198-234 | a thread is live comments of one post and is empty exactly when its root is not live |
| Comments.ThreadIff | internal/comment/repository.go:204-214 | a thread is its root and, with any comment in it, the live replies to that one, and nothing else |
| Comments.DeleteKeepsInv | internal/comment/repository.go:198-234 | removing a thread keeps every counter exact, never fails the CHECK, and succeeds exactly on a live comment |
| Comments.DeleteKeepsInvIff | internal/comment/repository.go:218-230 | a delete given another post than the comment's keeps the counters exact if and only if it is refused |
| Comments.PostDeleteKeepsInv | internal/post/repository.go:296-315 | deleting a post with its comments keeps the counters of the others exact |
| Comments.DeleteUndoesCreate | internal/comment/repository.go:63-102 | deleting a comment just created restores all counters and all other comments |
| Comments.DeletesKeepNoOrphans | internal/comment/repository.go:195-234 | taken as whole calls, neither delete strands a live reply under a deleted comment |
| Comments.CreateKeepsNoOrphansIff | migrations/0001_init.up.sql:170-181 | a create strands its comment if and only if it replies to an already deleted one |
| Comments.CreateRefusals | internal/comment/repository.go:63-102 | for which input a create gives which answer: post not found, taken or self-referring id, missing account, parent that is missing or on another post, or success |
| Comments.CreatedRow | internal/comment/repository.go:63-102 | the stored comment is live, by the author, on the post and under the parent that were asked for; the counter of that post rises by one and no other row changes |
| Comments.DeletedRows | internal/comment/repository.go:198-234 | a successful delete marks the comments of the thread and takes their number off one counter; nothing else in any row changes |
| Comments.PostDeletedRows | internal/post/repository.go:296-315 | deleting a post marks it and every comment on it and leaves its counter |
| Comments.Repository.Create | internal/comment/repository.go:63-102 | counter first, then the insert with its constraints; any refusal leaves everything as it was |
| Comments.Repository.CollectThread | internal/comment/repository.go:204-214 | the recursive query ends and yields each live comment reachable from the root through live replies exactly once |
| Comments.Repository.Delete | internal/comment/repository.go:198-234 | marks exactly the thread and takes its size off the counter of the post it is given, or changes nothing; counters stay exact if and only if a successful delete was given the comment's own post |
| Comments.Repository.DeletePost | internal/post/repository.go:296-315 | marks the post and exactly its live comments, or answers not found |
| CommentLocks.CommitIsTheCall | internal/comment/repository.go:56-102 | a commit publishes exactly what the whole call would have done to the committed state at that instant |
| CommentLocks.RefusalIsTheCall | internal/comment/repository.go:63-102 | a statement that refuses its transaction answers what the whole call would have answered at that instant, and changes nothing |
| CommentLocks.InterleavingsSerialise | internal/comment/repository.go:56-80 | every interleaving of creates' and post deletes' statements under the row lock, with comment deletes that run undisturbed, leaves the state of the committed calls run one after the other: no live comment on a deleted post, every counter exact |
| CommentDrift.CounterShortByDrift | internal/comment/repository.go:198-234 | with comment deletes interleaving statement by statement too, no live comment is on a deleted post, no counter is negative, and a live post's counter falls short of its live comments by exactly the rows committed deletes marked a second time: exact if and only if there were none |
| CommentDrift.DriftGrowsByOverlap | internal/comment/repository.go:212-214 | a commit adds to that shortfall exactly the rows of its thread that were already deleted when it got their locks |
| CommentDrift.SearchFindsLive | internal/comment/repository.go:204-217 | the search of a delete goes on exactly when its comment is live, with the whole thread |
| CommentDrift.OnlyCommitsSucceed | internal/comment/repository.go:198-234 | no call is answered with success except by its own commit |
| CommentDrift.OverlapUndercounts | internal/comment/repository.go:212-230 | two deletes that both find a thread before either marks it both succeed and leave the counter too low |
| CommentDrift.SmallUndercounts | internal/comment/repository.go:212-230 | that run on a post with two top-level comments |
| CommentDrift.CommitKeepsNoOrphansIff | internal/comment/repository.go:195-214 | a committed comment delete strands a live reply if and only if a live comment outside the thread it found has its parent inside; a create its own if and only if the parent is deleted by then; a post delete never |
| CommentDrift.StrandedReplyArises | internal/comment/repository.go:195-214 | under every live comment: a reply that commits after the delete's snapshot stays live under it, and both calls succeed |
| CommentDrift.SmallStrandsReply | internal/comment/repository.go:195-214 | that run on a post with two top-level comments |
| Sessions.EveryLoginIsAChain | internal/user/repository.go:164-252 | over every run each login's sessions form one acyclic single-successor chain of one user, chains are disjoint and cover the table, and only a tail can be unrevoked |
| Sessions.UnrevokedWithinLogins | internal/user/repository.go:164-252 | a user never has more unrevoked sessions than logins |
| Sessions.RevocationIsFinal | internal/user/repository.go:235-252 | rows never vanish, keep what they were inserted with, and never change once revoked |
| Sessions.TokenSpentAtMostOnce | internal/user/repository.go:196-231 | however many Refresh calls race, a stored token is exchanged at most once |
| Sessions.SpendsIff | internal/user/repository.go:196-231 | a token is exchanged exactly when the replacement's id and hash are new, it expires later than now and its user exists, and the presented row is unrevoked and expires later than now |
| Sessions.ReadDecides | internal/user/service.go:166-211 | a read leads to a rotation exactly when the row exists, is unrevoked, expires later than now and its user exists; to revoking the user's sessions exactly when the row is revoked; and otherwise to a refusal |
| Sessions.SpendingSpends | internal/user/repository.go:196-231 | the presented row ends revoked at that time and linked to its successor, which is unrevoked with the user, hash and expiry asked for; every other row is as before |
| Sessions.LoserChangesNothing | internal/user/repository.go:196-231 | a Rotate that finds its token spent leaves the table unchanged and yields no session |
| Sessions.ReplayDetectedIff | internal/user/service.go:166-231 | a presented token counts as replayed if and only if its row is revoked, and an exchanged one always is, at any later time |
| Sessions.ReplayEndsEverySession | internal/user/service.go:217-231 | with each Rotate and revoke-all taken whole, after the revoke-all of a replay no Refresh in flight or later yields a live session of that user until a login |
| SessionSnapshots.SweepLeavesLateOnes | internal/user/repository.go:245-252 | statement by statement, a revoke-all leaves live exactly the user's sessions committed since its snapshot that are not revoked by then |
| SessionSnapshots.SweepRevokesWhatItSaw | internal/user/repository.go:245-252 | a sweep revokes, at its own time, the unrevoked sessions of its snapshot and touches nothing else |
| SessionSnapshots.SweepEndsEverySessionIff | internal/user/repository.go:245-252 | it ends every session of its user, until a login and whatever rotations are in flight, if and only if each session committed since its snapshot is revoked by then |
| SessionSnapshots.ReplacementSurvives | internal/user/repository.go:196-252 | on every live session: a rotation that has its row when the revoke-all takes its snapshot and then commits leaves its replacement live, and both calls succeed |
| SessionSnapshots.FirstLoginAllowsIt | internal/user/repository.go:164-231 | a user's only login is such a session |
| SessionSnapshots.RunKeepsInv | internal/user/repository.go:164-252 | statement by statement too, the sessions stay indexed by their hash and chained by their login |
| SessionSnapshots.CommitIsTheCall | internal/user/repository.go:196-231 | a rotation that got its row locked commits what the whole call would have done at that instant |
| Sessions.NoneComesBack | internal/user/service.go:258-270 | from any state without live sessions of a user, no run without a login of theirs produces one |
| SessionStore.SessionRepository.Create | internal/user/repository.go:164-175 | succeeds exactly when id and hash are new, the user exists and the expiry is later than now; then exactly one new row, with what was asked for, unrevoked and found under its hash, and one more live session of that user; otherwise nothing changes |
| SessionStore.SessionRepository.Rotate | internal/user/repository.go:196-231 | with an index that matches the rows and another hash for the replacement, succeeds exactly when the replacement can be inserted and the presented row is unrevoked and expires later than now; then that row is revoked and linked to the replacement and no other row changes; otherwise nothing does |
| SessionStore.SessionRepository.Revoke | internal/user/repository.go:235-241 | the presented session ends revoked, at the given time unless it was revoked before; every other row unchanged; nothing happens for an unknown token |
| SessionStore.SessionRepository.RevokeAllForUser | internal/user/repository.go:245-252 | revokes exactly the unrevoked rows of the user, at the given time, leaves the user no live session and reports how many there were |
| SessionStore.Service.Refresh | internal/user/service.go:166-245 | undisturbed, the whole flow is the protocol's read, rotate and revoke-all steps, and yields a new session exactly when the presented row is unrevoked and expires later than both clocks, its user exists and the replacement can be inserted |
| SessionStore.Service.Logout | internal/user/service.go:250-256 | afterwards the presented session is revoked and every other one as it was |
| SessionStore.Service.LogoutAll | internal/user/service.go:258-270 | ends all of them and counts them |
| Feed.LimitIsTop | database-assessment/queries.sql:329-357 | an ordered, limited branch holds exactly the rows with fewer than k rows before them |
| Feed.PageExactIff | database-assessment/queries.sql:327-377 | limiting the branches and then the merge gives the first k visible rows of the full feed if and only if each visible row cut off has k visible fetched rows above it |
| Feed.PageExactWithoutBlocks | database-assessment/queries.sql:327-377 | without a block relation to any author it always does |
| Feed.PageNewestFirst | database-assessment/queries.sql:366-377 | a page has at most k rows, newest first and by descending id at equal times |
| Feed.PageIsBelowCursor | database-assessment/queries.sql:327-377 | each of them comes from one of the two sources, is older than the cursor and not by a blocked author |
| Feed.BlockedAuthorHidesRow | database-assessment/queries.sql:366-377 | two rows for which it does not |
| Feed.PageAdvances | database-assessment/queries.sql:327-377 | a page is the next stretch of the feed and the next cursor leaves exactly what follows it |
| Feed.WalkListsEverything | database-assessment/queries.sql:327-377 | following the cursor ends and lists what is below it, in order |
| Feed.WalkListsEachRowOnce | database-assessment/queries.sql:327-377 | from the start it lists every row of both sources exactly once |
| FeedReader.ReaderCompleteIff | database-assessment/queries.sql:327-420 | with blocked authors and deleted posts the reader gets every visible row, in order, if and only if at each cursor it asks with every visible row is shown on the page or comes after the last row shown |
| FeedReader.CompleteReaderShows | database-assessment/queries.sql:327-420 | a reader that gets everything gets exactly the rows of both sources that are neither by a blocked author nor of a deleted post, each once |
| FeedReader.SkippedIsNeverShown | database-assessment/queries.sql:366-420 | a row that a page skips is never shown later |
| Feed.HydratedWalkIsSeqWalk | database-assessment/queries.sql:380-420 | with deleted posts dropped after the limit, the reader behaves like one over the plain ordered feed |
| Feed.HydratedWalkCompleteIff | database-assessment/queries.sql:380-420 | that reader sees every live post if and only if no page-long run of deleted posts stands before a live one |
| FeedReader.HydratedWalkIsReader | database-assessment/queries.sql:380-420 | without blocked authors the two readers are one |
| CommentPath.SegmentsCompare | database-assessment/schema.sql:278-282 | four-digit segments compare as the numbers they spell, and only then what follows |
| CommentPath.SegmentSpells | database-assessment/schema.sql:278-282 | a segment is four decimal digits that spell its number |
| CommentPath.ByteOrderIsReadingOrder | database-assessment/schema.sql:278-282 | byte order of stored paths is pre-order of the comment tree, in both directions |
| CommentPath.SubtreeRangeIsDescendants | database-assessment/queries.sql:226-243 | path above p and below p with a slash selects exactly the strict descendants of p |
| CommentPath.StoredOrderIsTheWalk | database-assessment/queries.sql:197-224 | sorting the stored strings lists a thread in the order a top-down walk prints it |
| CommentPath.WalkIsTheThread | database-assessment/queries.sql:197-224 | that walk holds exactly the comments of the thread |
| Reactions.TalliesExactOverRuns | database-assessment/schema.sql:639-670 | over every run of inserts, deletes and kind changes each tally is its kind's number of reactions, and the post's counter their number and the tallies' sum |
| Reactions.ChangeIsDeleteThenInsert | database-assessment/schema.sql:655-663 | a kind change has the effect of a delete and an insert |
| Reactions.KindsPartition | database-assessment/queries.sql:254-296 | the kinds partition a post's reactions, so the aggregate and the tallies agree |
| Reactions.Store.Insert | database-assessment/schema.sql:644-649 | row, counter and upserted tally move together; a duplicate changes nothing |
| Reactions.Store.Delete | database-assessment/schema.sql:650-653 | row, counter and tally move together |
| Reactions.Store.Change | database-assessment/schema.sql:655-663 | one tally to another, the counter unmoved; same kind changes nothing |
| Migrations.UpCarriesOutPendingPrefix | internal/platform/postgres/migrate.go:76-120 | however Up ends, it carried out a prefix of the pending migrations, oldest first, scripts and records alike, and never tried to record a version twice |
| Migrations.UpSucceedsIff | internal/platform/postgres/migrate.go:76-120 | Up succeeds if and only if no recorded file was edited and every pending script runs |
| MigrationText.NormalisedIsTheOnly | internal/platform/postgres/migrate.go:357-363 | any function that leaves texts without CRLF alone and turns each CRLF into LF, the parts around it by themselves, is the normalisation |
| MigrationText.ChecksumsEqualIff | internal/platform/postgres/migrate.go:357-363 | with a collision-free digest two texts have one checksum exactly when they are equal up to line endings |
| MigrationText.UpRefusesEditIff | internal/platform/postgres/migrate.go:102-107 | once a text is recorded, Up over another text of that version is refused exactly when they differ in more than line endings, and otherwise does nothing |
| MigrationText.FilesUneditedIff | internal/platform/postgres/migrate.go:102-107 | so for any number of recorded files |
| MigrationText.BlankIff | internal/platform/postgres/migrate.go:348-350 | a script counts as missing exactly when nothing is left of it after trimming both ends |
| MigrationText.BlankMeansSpaces | internal/platform/postgres/migrate.go:163-165 | which is when it consists of the twenty-five characters Unicode calls white space |
| Migrations.SecondUpAppliesNothing | internal/platform/postgres/migrate.go:76-120 | after a successful Up every file is recorded with its checksum, older rows are untouched, and the next Up does nothing |
| Migrations.DownRevertsPrefix | internal/platform/postgres/migrate.go:123-175 | however Down ends, it reverted a prefix of what was asked and took exactly those versions off the record |
| Migrations.DownRevertsNewest | internal/platform/postgres/migrate.go:123-175 | those are the newest recorded versions, min(n, applied) of them on success |
| Migrations.BadStepsIff | internal/platform/postgres/migrate.go:123-126 | Down refuses a number of steps exactly when it is not positive, and then touches nothing |
| Migrations.DownThenUpRestores | internal/platform/postgres/migrate.go:76-175 | with nothing pending, applied in order and down scripts that undo the newest min(n, applied), Down(n) then Up restores record, checksums and schema |
| Migrations.DescendingUnique | internal/platform/postgres/migrate.go:178-195 | newest first is one order only |
| MigrationNames.MatchIff | internal/platform/postgres/migrate.go:27-28 | a name is taken apart exactly when the pattern generates it, and into the digits, name and direction it was made of |
| MigrationNames.PatternCharacters | internal/platform/postgres/migrate.go:27-28 | the characters a version and a name may consist of |
| MigrationNames.ScriptsAreNamedFiles | internal/platform/postgres/migrate.go:312-327 | exactly the files, not directories, named by the pattern with a version that fits 64 bits are read, each as what its name says |
| MigrationNames.RefusedIff | internal/platform/postgres/migrate.go:316-327 | loading is ended by exactly the .sql names, not of directories, that no version of 64 bits has; a script has the file's text |
| MigrationNames.DecimalRoundTrip | internal/platform/postgres/migrate.go:324-327 | the number of a printed number is that number |
| MigrationNames.NumberOrderIsTextOrder | internal/platform/postgres/migrate.go:324-327 | versions of equally many digits are ordered as numbers exactly as they are as texts |
| MigrationNames.SameVersionIff | internal/platform/postgres/migrate.go:324-327 | two versions are one exactly when their digits agree after leading zeros |
| MigrationNames.LeadingZeros | internal/platform/postgres/migrate.go:324-327 | leading zeros do not make another version |
| Migrator.PairedHolds | internal/platform/postgres/migrate.go:305-355 | the up and down files of one version end up in one migration, and versions without files get none |
| Migrator.NamedByFirstFile | internal/platform/postgres/migrate.go:334-343 | a migration has the name of the first file read of its version |
| Migrator.Load | internal/platform/postgres/migrate.go:305-355 | one migration per version, oldest first, exactly when no .sql name is out of order and every version has an up script that is not blank; otherwise names a refused file or such a version |
| Migrator.LineEndingsIgnored | internal/platform/postgres/migrate.go:357-363 | a file checked out with CRLF has the checksum of the same file with LF |
| Migrator.Migrator.ApplyUp | internal/platform/postgres/migrate.go:220-236 | the script runs and the row holds name and checksum of the normalised text, or neither; refused exactly when the script fails or the version is recorded |
| Migrator.Migrator.Up | internal/platform/postgres/migrate.go:76-120 | the loop computes the specified result, record and schema |
| Migrator.Migrator.AppliedNewestFirst | internal/platform/postgres/migrate.go:178-195 | all recorded versions, newest first |
| Migrator.RevertAnswers | internal/platform/postgres/migrate.go:154-171 | a revert succeeds if and only if the version has a file with a down script that runs; then exactly that script has run and that row is gone, otherwise nothing has changed and the error says what was missing |
| Migrator.Migrator.Down | internal/platform/postgres/migrate.go:123-175 | the loop computes the specified result, record and schema |
| MigrationLock.RecordAlwaysMatchesSchema | internal/platform/postgres/migrate.go:279-302 | for any number of migrators taking the lock and dying between transactions, recorded versions are the scripts executed and not reverted, up and down scripts of a version alternate, at most one process is past the lock, and the primary key never has to refuse |
| MigrationLock.UpIsItsTurns | internal/platform/postgres/migrate.go:76-120 | a process that holds the lock and is not killed leaves record and log as Up computes them, script by script, and the lock free |
| MigrationLock.DownIsItsTurns | internal/platform/postgres/migrate.go:123-175 | and as Down does |
| Slug.MatchesIffTidy | migrations/0001_init.up.sql:110 | the CHECK's regular expression accepts exactly the non-empty texts of lower-case letters, digits and single inner hyphens |
| Slug.Slugify | internal/post/slug.go:24-51 | the builder loop yields the words of the lower-cased title joined by hyphens, cut to the longest tidy prefix of 200, or post- and a random suffix when fewer than three characters are left |
| Slug.WordsSplit | internal/post/slug.go:27-40 | the words are what lies between the characters that are not lower-case letters or digits |
| Slug.WordsAreTheParts | internal/post/slug.go:27-40 | splitting there, keeping groups whole and finding nothing in an empty text leaves no other function |
| Slug.SlugKeepsLettersAndDigits | internal/post/slug.go:28-40 | without its hyphens a slug that is not random is the lowered title's a to z and 0 to 9 from the start on, all of them unless it was cut |
| Slug.NothingLeftIsRandom | internal/post/slug.go:46-49 | a title that leaves less than three characters, such as one without any of them, becomes post- and the random suffix |
| Slug.CutIsLongest | internal/post/slug.go:42-45 | cutting and trimming keeps the longest tidy prefix and loses at most one character more |
| Slug.SlugPassesCheck | internal/post/slug.go:24-51 | for every title and every lower-casing the slug passes the CHECK within 3 to 200 characters |
| Slug.CheckedIff | migrations/0001_init.up.sql:110 | the CHECK is that regular expression and 3 to 220 characters |
| Slug.SlugFixedIff | internal/post/slug.go:24-51 | on a title lower-casing leaves alone, Slugify changes nothing if and only if it is a slug of 3 to 200 characters already |
| Slug.RetrySlugPassesCheck | internal/post/slug.go:55-57 | a suffixed slug passes the CHECK within 207 characters, differs from its base, and equals another only for the same base and the same top bits |
| Slug.SuffixOneToOne | internal/post/slug.go:59-76 | equal suffixes come from equal top thirty random bits and from nothing else (section 6 of RFC 4648) |
| Slug.SuffixCharacters | internal/post/slug.go:59-76 | each character is five consecutive bits of the four octets, taken out by shifts and masks, zero to twenty-five written a to z and the rest 2 to 7 |
| Slug.EverySuffixArises | internal/post/slug.go:59-76 | every six characters of the alphabet are a suffix |
| Slug.DecodeInvertsEncode | internal/post/slug.go:59-61 | decoding the characters gives the bits back |
| Posts.PostsAlwaysConsistent | internal/post/repository.go:64-84 | over every interleaving of creates, edits and deletes live slugs are unique, each passes its CHECK and is the slug of its own row's title, a post is published exactly when it has a publication time, and only those who may modify a post are editing it |
| Posts.CheckFiresIffStale | internal/post/service.go:186-247 | a CHECK refuses a statement if and only if the call read published, asks for published, and the row is a draft by now |
| Posts.StalePublishArises | internal/post/service.go:217-229 | on every live published post two requests reach that refusal |
| Posts.PublicationMovesIffStale | internal/post/service.go:217-221 | an edit moves the publication time of a post that was and stays published if and only if its caller read a draft and asks for published, at another instant |
| Posts.PublicationMoves | internal/post/service.go:217-221 | on every live draft two requests that both read it as one reach that move |
| Posts.InsertedRow | internal/post/service.go:56-99 | a successful insert stores author, title, status and time as asked, not deleted, and changes no other row; any other outcome changes nothing |
| Posts.AuthorIsTheInserter | internal/post/service.go:64-74 | over every later run the row stays and belongs to the author of the call that inserted it |
| Posts.EditLeavesTheRest | internal/post/repository.go:233-290 | field by field what an edit sets and what it leaves alone; author and deletion mark always |
| Posts.RemovedForGood | internal/post/repository.go:296-315 | a removed post keeps its row, marked, and no later call changes it or brings it back |
| Posts.RefusalsDiscloseNothing | internal/post/service.go:304-312 | whoever may not modify a post is answered about a draft as about no post at all, and forbidden exactly on a published one |
| Posts.CreateIsItsAttempts | internal/post/service.go:76-99 | the statements of a create that nothing interrupts take the first of three candidates that is free, or end in a conflict |
| Posts.EditIsItsAttempts | internal/post/service.go:186-274 | so do those of an edit with a new title, once authorize has let it through; refused, it changes nothing |
| Posts.Service.Create | internal/post/service.go:56-99 | stores the first of three candidate slugs that is free, with the author, title, status and time asked for, or reports a conflict and changes nothing when all are taken |
| Posts.Service.Edit | internal/post/service.go:186-247 | refuses as authorize says; otherwise changes what was asked for and nothing else, publication time included |
| Posts.Service.UpdateWithSlugRetry | internal/post/service.go:250-274 | the first free candidate for the new title, the row's own slug counting as free |
| PostList.ListingIsWhatTheCallerMaySee | internal/post/service.go:131-176 | the rewritten filter selects only what canView allows, and all of it except the caller's own drafts; those too if and only if the caller is privileged or has none |
| PostList.RefusedHidesOwnDraftsOnly | internal/post/service.go:162-170 | a refused request could have shown the caller's own drafts only, and asking by author shows exactly those |
| PostList.BuildQuery | internal/post/repository.go:139-186 | for every filter the conditions, each with the value its placeholder names, ask for exactly what the filter asks for |
| PostList.ListingUnique | internal/post/repository.go:143-169 | the order leaves one listing of any selection |
| PostList.ListingOrder | internal/post/repository.go:143-169 | without a search creation times never increase, with one ranks never do and times not at equal ranks; ids descend on ties |
| PostList.Scan | internal/post/repository.go:188-211 | the rows in order, and the count they carry, zero without a row |
| PostList.OffsetExactIff | internal/platform/httpx/pagination.go:31 | the 64-bit offset is right if and only if the product fits |
| PostList.QuotTruncates | internal/platform/httpx/pagination.go:47 | division rounds towards zero |
| PostList.TotalPagesExactIff | internal/platform/httpx/pagination.go:44-57 | total_pages is the least number of pages holding all items if and only if total plus limit minus one fits |
| PostList.ListedExactIff | internal/post/repository.go:173-211 | a requested page is right if and only if its offset fits or wraps to beyond the end |
| PostList.WrappedOffsetShowsFirstPage | internal/platform/httpx/pagination.go:31 | a valid page number far past the end that shows the first page |
| PostList.AnnouncedPagesAreExact | internal/platform/httpx/pagination.go:44-57 | on pages 1 to total_pages the offset fits, the page is exact and full unless last; page, limit, total_items and total_pages are right, has_next is true on all but the last and has_prev on all but the first |
| PostList.PagesListSelectionOnce | internal/post/service.go:153-176 | those pages one after the other are the caller's ordered selection, each post once and each allowed by canView |
| PostList.PastTheEndTotalIsZero | internal/post/repository.go:188-211 | a page past the end is empty and reports a total of zero, no next page and no previous one |

## Left out

- Bus.Bus.Work: stated for a worker that runs while the others stand still, because a method runs alone; workers interleaving is what EventBus states.
- Bus.Bus.Shutdown: stated from the moment it would stop waiting, because a method cannot wait; handlers that run on after the context expired are what EventBus states.
- Bus.Bus.Subscribe: the check and the append are one step; the source asks that it be called before Start.
- SessionStore.Service.Refresh: stated for a call nobody interrupts; interleavings are what Sessions states.
- Posts.Service.Create: stated for a call nobody interrupts, like Posts.Service.Edit; interleavings are what PostsAlwaysConsistent states. The title and content length CHECKs, the validation of the request and trimming are not modelled.
- CommentLocks.InterleavingsSerialise: a comment delete is one step there; its statements interleave in CommentDrift, where calls in commit order no longer describe the result.
- CommentDrift.CounterShortByDrift: a delete gets the locks of the rows it found at one instant, when the last of them is free; a deadlock ends in one transaction being aborted at any time.
- Sessions.ReplayEndsEverySession: a revoke-all and a Rotate are one step each there; their statements interleave in SessionSnapshots.
- SessionSnapshots.SweepLeavesLateOnes: a revoke-all gets the locks of the rows it saw at one instant, when the last of them is free; single-statement logins and logouts are one step.
- EventBus.ShutdownTrueMeansDrained: sync.WaitGroup may itself panic when an Add from zero races with a Wait that is just returning; that panic is not modelled.
- RateLimit.RateLimiter.Allow: reals instead of floating point, and whole nanoseconds without the saturation of 64-bit durations.
- Feed.PageExactIff: which celebrity posts the viewer may see is one given set; visibility, follows and the celebrity table are not modelled, and the snapshot does not change while a reader follows the cursor.
- CommentPath.ByteOrderIsReadingOrder: the database's collation is taken to compare bytes; sibling positions beyond 9999 do not fit the format.
- MigrationLock.RecordAlwaysMatchesSchema: a failing unlock that leaves the lock on a pooled connection is not modelled.
- The hash function, password hashing, access tokens and the quality of randomness: digests and new ids are given values, and ids are fresh.
- Hard deletes of users, posts and expired sessions, which cascade past these invariants.
- Feed entries' fan-out and trimming, conversations, messages and notifications of the SQL design.
- Handler timeouts and the time and request id stamped on an event.
- Ranking and matching of full-text search, which the listing takes as given functions.
- HTTP handling, JSON, configuration parsing, logging, health probes and start-up.

# message-sync: a verified model

message-sync is a chat bridge: a message posted in one group is copied to every other group of its
sync set, and later edits, reactions, poll votes and deletes follow it. This project models the parts
of the bridge whose guarantees depend on the order of persisted writes, on whole histories, or on
scanning loops that must equal a simple definition, and proves those guarantees in Dafny.

`dafny verify dfyconfig.toml` checks everything.

## How the model is built

Protocols are step machines. A state holds what is persisted and what lives in memory; an event is one
SQL statement or transaction, one provider call, one worker or handler step, a crash or a sweep; a run
is any sequence of events. Theorems speak of every run. Beside each machine stands imperative code with
the fields, branches and loops of the Go methods, and each of its methods is proved to take exactly the
machine's steps, so that what is proved of runs holds of the code. Loops over text, pages and rows are
methods proved against independent definitions.

| files | part of the program |
|---|---|
| `CreateProtocol`, `FanOutLedger`, `SafeMoments` | one copy of a message: fan-out, lane job, retries, create steps, ledger, crashes, replays, and what may be left when nothing is pending |
| `MessageCalls` | the deliveries of one message to HandleEvent |
| `CreateAttempt`, `CreateOutcome`, `WholeCalls`, `CreateJob` | whole attempts and whole calls, what they come to, and the router and store that make them |
| `Replays`, `Tombstones` | when a destination that was given up gets a new job, and what a delete stops |
| `MutationOrder`, `MutationRepeats`, `PendingMutations`, `MutationJob` | revisions of edits and reactions |
| `LaneProtocol`, `LaneManager`, `RetryLoop` | delivery lanes and the retry loop |
| `RecoveryCursor`, `RecoveryCoordinator`, `SettledCursor` | the per-stream cursor, and what it says about deliveries |
| `HistoryRecovery` | paging through a chat's history |
| `SlotPermutation`, `AliasNames`, `AliasPairs`, `AliasHistory`, `AliasAllocation` | permanent aliases |
| `Splice`, `AliasTokens`, `Utf16`, `Mentions` | reference tokens and mention entities in text |
| `PollTallies`, `PollCounts`, `ReactionSnapshots` | views that must agree with a simple definition |
| `RelayLimits`, `PrivateRelay`, `PrivateCleanup` | rate limits, duplicate suppression, the cleanup budget |
| `RoutingConfig`, `RoutingRows` | saving and loading routing rows |
| `Failures` | classes and send certainty of failures |
| `Wrappers`, `Basics`, `Collections` | optional values, powers of two and white space, sequence identities and ascending listings |

## Assumptions

Each is a precondition or a named predicate of the members it concerns.

- Adapters report an error as "definitely not sent" or "unknown", never as "accepted"
  (`CreateProtocol.Honest`); `SafeMoments.AcceptedErrorIsResent` shows what happens otherwise. One
  worker serves each endpoint.
- Deliveries of one message are handled one at a time, as the coordinator's lock on a stream has it
  (`MessageCalls`, `SettledCursor`). In `FanOutLedger` and `SafeMoments` they may overlap, as long as no
  two are at the same destination.
- Revisions of one key are recorded in the order they were assigned, which Handle calls taken one at a
  time do (`MutationOrder.SerialIsAscending`); `MutationOrder.OrderKeptIff` says that nothing less will do.
- Update calls of the lane manager are serialised, and its parent context is never cancelled.
- A history page is a contiguous run below its offset, and an empty page means nothing is left
  (`HistoryRecovery.Serves`); message ids and dates are positive and dates do not decrease with the id.
  `HistoryRecovery.RecoverTelegram` needs only the latter, and says what becomes of the rest.
- A database without a recorded alias ordering was issued sequentially (`AliasHistory.Legacy`); the
  word tables are free of duplicates, ignoring case (`AliasNames.Words.Valid`).
- Keyed hashes are injective. The relay's clock does not go back, and redeliveries of a message carry
  the same provider timestamp.

## Where the code does less than its comments or callers expect

- A message the bridge's own account sent, whose first delivery failed after its canonical row was
  written and before its fan-out was complete, is reported safe when it is delivered again, because the
  redelivery returns before the fan-out. The targets not reached then never get it as long as it is
  delivered as self-sent, and the recovery cursor moves past it: `MessageCalls.SelfSentYetSafe`,
  `MessageCalls.SelfSentIsLost`, `SettledCursor.CursorPassesUnsent`. A safe report means that every target
  is done except exactly when
  the call skips the fan-out (the message is self-sent and known, or no longer leaves its group), the
  message is not deleted, and a target has neither ledger row nor copy (`MessageCalls.SafeReportIff`,
  `CreateJob.Router.HandleEvent`, `SettledCursor.CursorMeansSettled`).
- An undeleted message can be safe to advance while a create is ambiguous: under a failed row, nowhere else;
  a companion also beside a stored copy (`SafeMoments.AmbiguousYetSafe`,
  `SafeMoments.AmbiguousCompanionBesideCopy`). `SafeMoments.StayAmbiguousIff` says which destinations can
  come to this.
- An undeleted message can be safe to advance while a job for it is queued or running, under a failed row
  or beside a stored copy (`SafeMoments.QueuedYetSafe`, `SafeMoments.QueuedBesideCopy`). Within a process this, or
  two jobs at once, comes about exactly when a fan-out offers a job although one is queued or running or
  nothing is pending (`SafeMoments.OverlapIffOfferedAgain`). From an undeleted destination at rest a
  moment with a job queued and nothing pending can be reached exactly if there is no copy
  (`SafeMoments.QueueUnseenIff`).
- When the copy is stored but its ledger row is not removed, the message stays pending for ever: replays
  pass the destination by (`SafeMoments.StoredYetPendingForever`). A destination at rest can come to
  have nothing pending exactly if it has nothing pending already or no copy (`SafeMoments.ComeToQuietIff`).
- A failure that is worth retrying awaits a replay once its attempts are over or the context is cancelled
  (`CreateOutcome.AttemptLeaves`), but not when the retry window has elapsed first, nor when a later job finds
  a step of unknown outcome: the row then stays retrying although no job is left. In every run
  the next fan-out that succeeds offers a destination without a copy a new job exactly if nothing was left
  behind in such a way, by a failed statement or by an end of the process (`Replays.ReplayIff`); with working
  statements those two ways are all (`Replays.TwoWays`, `Replays.WindowLeavesBehind`,
  `Replays.UnknownLeavesBehind`). What is left behind is passed by until the ledger is swept
  (`Replays.LeftForGood`).
- A reaction whose echo marker cannot be written is sent and accepted again
  (`MutationRepeats.LostMarkerIsResent`). In every run a revision that was accepted can be accepted again
  exactly while its worker is about to send it, or it is pending and its worker is not about to clear it
  (`MutationRepeats.AcceptedAgainIff`); accepted requests exceed one by the lost markers only
  (`MutationOrder.RevisionsInOrder`).
- An event whose cursor cannot be loaded is not recorded as failed, so the cursor may pass it
  (`RecoveryCursor.LoadErrorIsNotABlocker`). A delivery that fails leaves its position blocked exactly if
  it was blocked before or the event was routed (`RecoveryCursor.FailureBlocksIff`), and in every run
  exactly the positions beyond the cursor that are not open can be passed without being acknowledged
  (`RecoveryCursor.PassableIff`).
- The retry delay can overflow. Unless the provider asks for one, the delay after attempt n is the
  doubled base, up to the maximum, exactly if the doubled base is below 2^63 or a doubling before has come
  to the maximum in 64 bits (`RetryLoop.DelayDoubles`); all of the first n delays are, exactly if the n-th
  doubled base is below 2^63, or an earlier one, itself below 2^63, has come to the maximum
  (`RetryLoop.DelaysExactIff`). With a maximum of at most 2^62 only a base of 2^62 overflows
  (`RetryLoop.SmallMaximum`); with the largest maximum a base of 2^61 does
  (`RetryLoop.LargeMaximumOverflows`).
- A message accepted by the private relay can be accepted again when its provider timestamp is later
  than its arrival truncated to the millisecond: the seen row expires up to a millisecond before the
  age check refuses (`PrivateRelay.RepeatableIff`).
- Mention entities with overlapping ranges can make the splice loop slice past the end of the text
  (`Mentions.RepeatedRangePanics`): exactly when a range, taken from the right, ends beyond what the
  replacements before it have left (`Mentions.PanicsIff`; for the same mention twice,
  `Mentions.RepeatedMentionIff`). A range that replaces one half of a surrogate pair loses the other
  (`Mentions.SplitPairIsLost`), and for disjoint ranges only that makes the text inexact
  (`Mentions.NormalizedIsExactIff`).
- Validation accepts two sync sets with the same id; they come back merged
  (`RoutingConfig.SetsReadBackIff`).
- A history page of a hundred service entries looks like the end of the history
  (`HistoryRecovery.ServiceRunHides`). Recovery delivers all that is due exactly if nothing wanted lies
  below a full page of consecutive service entries above the cursor (`HistoryRecovery.RecoverTelegram`).
- Two provider calls for one private copy can come together although their claims are an hour apart
  (`PrivateCleanup.CallsCanCoincide`), and a call can come after its copy has expired. After a call made
  at most d after its sweep began, for d up to an hour, later ones come at least an hour less d after it,
  and no longer time is promised (`PrivateCleanup.SpacingIff`); such a call comes less than d past the
  expiry, and again nothing better holds (`PrivateCleanup.ExpiryIff`).

## Model

| member | source | states |
|---|---|---|
| CreateProtocol.NoBlindResend | internal/router/router.go:1050-1205 | over any run of retries, crashes, sweeps and replays, requests for the primary (and for the companion) that may have reached the provider exceed the interruptions between answer and record by at most one |
| CreateProtocol.BalancedRun | internal/router/router.go:1050-1205 | at every step such requests equal the interruptions, plus one exactly when the step is decided or being recorded; a request in flight always has a pending step |
| CreateProtocol.BalancedWork | internal/router/router.go:1066-1205 | every call of the create job keeps that balance |
| FanOutLedger.LedgerNext | internal/router/router.go:1039-1210 | every step keeps the ledger invariant: a destination with work begun has a ledger row or a copy, or the message is deleted; a copy implies its recorded step |
| FanOutLedger.LedgerRun | internal/router/router.go:1039-1210 | the ledger invariant holds in every run |
| FanOutLedger.SysRunProjects | internal/router/router.go:905-968 | in a run of a whole message each destination goes through a run of its own, so every per-destination theorem applies to it |
| FanOutLedger.NoBlindResendAnywhere | internal/router/router.go:1050-1205 | the send bound for every destination of every interleaving of a whole message |
| FanOutLedger.FannedOutStaysCovered | internal/router/router.go:905-968 | once a fan-out has passed a destination it stays covered at every later step |
| FanOutLedger.SafeToAdvanceIsSettled | internal/router/router.go:333-350 | with nothing pending, a destination is done (deleted, failed for good, or holding its copy with the step complete) exactly if it is deleted or a fan-out has passed it; undeleted, its create is ambiguous only under a failed row, its companion only there or beside a copy |
| SafeMoments.OverlapIffOfferedAgain | internal/router/router.go:1039-1060 | in every run, within a process, there is a moment with two jobs at once or with a job and nothing pending if and only if a fan-out has offered a job although one was queued or running or nothing was pending |
| SafeMoments.NoJobLeftBehind | internal/router/router.go:333-350 | with nothing pending for the message, a destination has a job queued or running only after such an offer |
| SafeMoments.WaysToBusyYetQuiet | internal/router/router.go:1066-1205 | step by step there are two ways into such a moment, and no other: a job offered while nothing is pending, or the running job closing the row while another one waits |
| SafeMoments.QueueUnseenIff | internal/router/router.go:905-968 | from an undeleted destination at rest a moment with nothing pending and a job queued can be reached if and only if it has no copy |
| SafeMoments.StayAmbiguousIff | internal/router/router.go:1107-1172 | a moment with nothing pending and an ambiguous create (or companion) can be reached from it if and only if that step is not complete and there is no copy, or the step is ambiguous beside the copy already |
| SafeMoments.ComeToQuietIff | internal/router/router.go:905-917 | a moment with nothing pending can be reached from it if and only if nothing is pending already or it has no copy |
| SafeMoments.AmbiguousYetSafe | internal/store/store.go:930-934 | a run in which the message is safe to advance although its create is ambiguous, under a failed row |
| SafeMoments.AmbiguousCompanionBesideCopy | internal/router/router.go:1106-1139 | a run in which it is safe to advance although the companion of a stored copy is ambiguous |
| SafeMoments.QueuedYetSafe | internal/store/store.go:930-934 | a run in which it is safe to advance while a job is queued under a failed row |
| SafeMoments.QueuedBesideCopy | internal/store/store.go:773-789 | a run, with a ledger sweep, in which it is safe to advance while a job is queued beside the stored copy |
| SafeMoments.StoredYetPendingForever | internal/router/router.go:1196-1200 | a run after which nothing ever makes the message safe to advance: the copy is stored and its ledger row is left |
| SafeMoments.AcceptedErrorIsResent | internal/router/router.go:1115-1172 | an adapter that reports acceptance as an error is asked twice without any interruption |
| MessageCalls.RunConsistent | internal/router/router.go:352-968 | in every run of deliveries, jobs, sweeps, deletes and restarts of a message, each step of Handle knows what it should: before the fan-out which targets are missing, in the loop which are passed, afterwards that all are |
| MessageCalls.SafeReportIff | internal/router/router.go:333-350 | when HandleEvent reports that it is safe to advance, every target is done if and only if the message is deleted, the call did not skip the fan-out, or no target lacked both row and copy when the call began |
| MessageCalls.LedgerIsRun | internal/router/router.go:352-968 | the ledger of a message goes through a run of its own, so the send bound and the coverage theorems hold of its deliveries |
| MessageCalls.SelfSentYetSafe | internal/router/router.go:816-818 | a self-sent message whose first delivery failed after resolveCanonical is reported safe when delivered again, with no target done |
| MessageCalls.SelfSentIsLost | internal/router/router.go:816-818 | and whatever happens afterwards, no delivery as self-sent ever starts a fan-out to a target it has not reached |
| CreateAttempt.FinishIsRun | internal/router/router.go:1066-1205 | every attempt, whatever the world does, is a run of the step machine |
| CreateAttempt.FinishLedger | internal/router/router.go:1066-1205 | every attempt keeps the ledger invariant |
| CreateOutcome.AttemptLeaves | internal/router/router.go:1066-1205 | an attempt whose statements work delivers, stops at a step of unknown outcome, or fails, as route, recorded steps and answers say; and leaves the copy without a row, a retrying row, a row that awaits a replay (unknown outcome, or retryable with the fourth attempt or the context over), or a failed row |
| CreateOutcome.NextAttemptIff | internal/delivery/lanes.go:207-242 | a job makes another attempt, on the rows as the last one left them, if and only if that one failed retryably with a known outcome, before the fourth, not cancelled and within the window |
| CreateOutcome.FourthAttemptDecides | internal/router/router.go:1082-1103 | after three such attempts there is a fourth, and what it comes to is what the job leaves |
| CreateOutcome.FailsForGoodOnlyIf | internal/router/router.go:1082-1103 | whatever statements fail, an attempt leaves a failed row only if the route is gone or the provider refused in a way that is not worth retrying |
| CreateOutcome.DroppedOnlyIf | internal/router/router.go:1173-1204 | whatever statements fail, an attempt drops its row only if the message is deleted, or the copy and its poll reference are stored |
| Replays.FanOutLeaves | internal/router/router.go:905-917 | what a fan-out leaves at a destination, whichever of its statements fail and whether or not the lane has room: it passes if and only if there is a copy, a job is under way, or rows and job could be seen to; the companion is for media only; a full lane leaves a row that awaits a replay; what is there already is not touched |
| Replays.UnderwayIff | internal/router/router.go:1039-1103 | in every run, at rest a row is still queued or retrying if and only if something was left behind under it: a loop ended with an error, a job stopped at an ambiguous step, a closing write failed, a fan-out failed half-way, or the process stopped |
| Replays.ReplayIff | internal/router/router.go:1039-1060 | in every run, the next fan-out that succeeds offers a destination at rest without a copy one new job, with all the rows it needs, if and only if nothing was left behind there |
| Replays.TwoWays | internal/delivery/lanes.go:207-242 | while the process goes on and statements work, something is left behind if and only if the window elapses under a failure to be retried, or a job finds an ambiguous step; exhausted and cancelled attempts and unknown answers are no such way |
| Replays.WindowLeavesBehind | internal/delivery/lanes.go:216-219 | a run in which every statement works and one retryable failure leaves a retrying row without a job |
| Replays.UnknownLeavesBehind | internal/router/router.go:1107-1172 | a run in which the replay of a job with an unknown outcome does |
| Replays.LeftForGood | internal/router/router.go:1050-1060 | and whatever is delivered afterwards, no job is offered there until the ledger is swept |
| Replays.SweptIsOffered | internal/store/store.go:773-789 | after the sweep the next fan-out that succeeds offers a new job |
| Tombstones.NothingSentAfterDelete | internal/router/router.go:1066-1075 | once the message is deleted and no attempt is past its first check, nothing is sent or stored at the destination again, whatever is fanned out, retried or replayed |
| Tombstones.NoCopyAfterDelete | internal/router/router.go:1173-1182 | a job that is already sending stores no copy either, unless it has passed its second check |
| Tombstones.DeletedIsDropped | internal/router/router.go:1066-1075 | an attempt of a deleted message drops its row and is over |
| Tombstones.DeletedOnTheWay | internal/router/router.go:1173-1182 | and so does one whose message is deleted while the provider is asked |
| CreateAttempt.FinishHandleLedger | internal/router/router.go:905-968 | a fan-out to one destination keeps the ledger invariant and, when it succeeds, covers the destination |
| CreateAttempt.FinishTriesLedger | internal/delivery/lanes.go:207-242 | a job run through all its attempts keeps the ledger invariant |
| WholeCalls.WholeCallIff | internal/router/router.go:333-350 | for a whole call, under everything the world may do, the same condition can be told before the call |
| WholeCalls.CallAnswers | internal/router/router.go:333-350 | a whole call answers with an error if and only if something it needs fails: the lookups, the author, the canonical row, the tombstone, the rest of Handle, a target in turn, or the pending query, each only on the branch that asks for it; and otherwise with whether nothing is pending |
| WholeCalls.FromTarget | internal/router/router.go:905-968 | in a whole call the loop treats each target as the fan-out machine does, and goes on only if that succeeded |
| CreateJob.Router.RunJob | internal/router/router.go:1066-1205 | one attempt of the create job ends in the machine's state and with its error, and touches no other destination |
| CreateJob.Router.SendSteps | internal/router/router.go:1104-1204 | from the route check on: companion, then primary, then the result, as the machine does |
| CreateJob.Router.EnsureStep | internal/router/router.go:1107-1172 | a step is sent only while pending; complete is skipped, ambiguous stops the job |
| CreateJob.Router.StoreResult | internal/router/router.go:1173-1204 | after the primary: recheck of the tombstone, copy, poll reference, end of the row |
| CreateJob.Router.FinishFailure | internal/router/router.go:1082-1103 | which failures retry, await a replay or fail for good: the returned error and the row, in terms of the failure, the attempt and the context |
| CreateJob.Router.HandleDestination | internal/router/router.go:905-968 | the fan-out to one destination ends in the machine's state and leaves all others alone |
| CreateJob.Router.EnqueueCreate | internal/router/router.go:1039-1211 | an active row is left alone; otherwise row, steps and job are ensured in that order |
| CreateJob.Router.FanOut | internal/router/router.go:905-968 | the loop over the targets takes the machine's steps, stops at the first error, and when it succeeds has passed every target and every target has a row or a copy, or the message is deleted |
| CreateJob.Router.HandleEvent | internal/router/router.go:333-350 | the call's answer and the tables after it are the message machine's; a safe answer means every target is done if and only if the message is deleted, the call does not skip the fan-out, or every target had a row or a copy before; and safe means that the message is unknown or no row of its ledger is queued, retrying or awaiting a replay |
| CreateJob.Router.Admit | internal/router/router.go:352-898 | Handle up to the loop, as the message machine has it: the lookups, the author's checks, resolveCanonical, the tombstone, the return for a self-sent message that is known |
| CreateJob.Router.WorkLane | internal/delivery/lanes.go:81-102 | the lane's worker takes the next job and runs its attempts to the machine's end; every destination keeps its invariant, and others only see a delete |
| CreateJob.Router.RunTries | internal/delivery/lanes.go:207-242 | the attempts of a job end in the machine's state |
| CreateJob.Router.ChangeMutation | internal/store/store.go:791-878 | a changed ledger row of an edit, a reaction or a delete is the message machine's step and touches no destination's create |
| CreateJob.Store.ResolveOrCreateCanonical | internal/store/store.go:432-484 | the canonical row and the source copy are created together, once |
| CreateJob.Store.CompleteCreateStep | internal/store/store.go:936-943 | the step row takes the recorded state, and only it |
| CreateJob.Store.UpsertDeliveryOperation | internal/store/store.go:791-805 | an existing ledger row is left as it is |
| CreateJob.Store.SetDeliveryOperationState | internal/store/store.go:861-878 | an update of a missing row has no effect |
| MutationOrder.RevisionsInOrder | internal/router/router.go:1384-1488 | when revisions are recorded in ascending order they reach the provider in nondecreasing order, each succeeds at most once, and is accepted at most once more than its echo marker was lost, flushed revisions included |
| MutationOrder.SentIsNewest | internal/router/router.go:1388-1393 | what is sent is the newest revision recorded when the attempt began, so a superseded one is never sent |
| MutationOrder.RunKeeps | internal/router/router.go:580-629 | the ordering, at-most-once and accounting invariants hold in every run that records in ascending order |
| MutationOrder.SerialIsAscending | internal/router/router.go:580-629 | Handle calls taken one at a time record their revisions in ascending order |
| MutationOrder.OrderKeptIff | internal/router/router.go:596-612 | an order of recording keeps every run's requests in order if and only if it is ascending |
| MutationRepeats.AcceptedAgainIff | internal/router/router.go:1384-1488 | in every run, a revision already accepted can be accepted again if and only if its worker is about to send it, or it is pending and its worker is not about to clear it |
| MutationRepeats.LostMarkerIsResent | internal/router/router.go:717-727 | a run in which a reaction is sent and accepted twice because its echo marker was lost |
| PendingMutations.NewestIsKept | internal/router/router.go:1384-1423 | in every run the newest revision recorded is pending until it has succeeded: a success never drops a newer one |
| PendingMutations.PendingIsAttended | internal/router/router.go:580-629 | in every run a pending revision has a job queued or running, or one about to be offered, unless it was put off: no copy yet, no room in the lane, or its job given up |
| PendingMutations.NewestAtRest | internal/router/router.go:1432-1474 | at rest the newest revision has succeeded or was put off; something is pending if and only if it was put off |
| MutationJob.AttemptComesTo | internal/router/router.go:1384-1423 | a superseded revision is dropped without request or failure; one still pending is sent if the attempt can begin, fails unless everything works, and is forgotten if and only if it succeeds |
| MutationJob.Router.HandleMutation | internal/router/router.go:580-629 | assigning, recording and offering a revision are the machine's steps; other keys only see the counter move |
| MutationJob.Router.Flush | internal/router/router.go:1432-1474 | flushing offers the pending revision of the key, as the machine does |
| MutationJob.Router.RunMutation | internal/router/router.go:1384-1423 | one attempt of a mutation job ends in the machine's state, and fails if and only if its revision is still pending and something it needs fails |
| MutationJob.Router.NextMutationRevision | internal/router/router.go:1425-1430 | revisions are new and increasing |
| LaneProtocol.EachJobOnceInOrder | internal/delivery/lanes.go:81-102 | at every moment of every run an endpoint has run a prefix of what it accepted, in order, and the rest is in its lane, within capacity |
| LaneProtocol.RemovedLanesAreDrained | internal/delivery/lanes.go:145-176 | once Update (and Close) have returned, an endpoint without a lane has run everything it accepted |
| LaneProtocol.UpdateConfigures | internal/delivery/lanes.go:145-176 | an Update leaves exactly the wanted endpoints live, and keeps the lanes of those that stay |
| LaneProtocol.RefusalChangesNothing | internal/delivery/lanes.go:178-200 | a job is refused only without a lane or with a full queue, and a refusal changes nothing |
| LaneProtocol.WorkerCatchesUp | internal/delivery/lanes.go:81-102 | left to itself, a worker runs everything accepted |
| LaneProtocol.RunKeeps | internal/delivery/lanes.go:66-200 | the conservation and flag invariants hold in every run |
| LaneManager.Manager.Update | internal/delivery/lanes.go:145-176 | an invalid or closed Update changes nothing; otherwise exactly the given endpoints have a lane on return and all others have run all they accepted |
| LaneManager.Manager.Enqueue | internal/delivery/lanes.go:178-200 | acceptance, a full lane and a missing lane, and the resulting state |
| LaneManager.Manager.Close | internal/delivery/lanes.go:246-262 | on return no lane is left and every accepted job has run |
| LaneManager.Manager.CloseLane | internal/delivery/lanes.go:104-107 | stopping a lane waits until its worker has drained it, and touches no other lane |
| LaneManager.Manager.WorkOnce | internal/delivery/lanes.go:81-102 | one worker iteration is the machine's step |
| LaneManager.RunFromIsRun | internal/delivery/lanes.go:66-262 | what whole calls do is a run of the machine |
| RetryLoop.RetryIsBounded | internal/delivery/lanes.go:202-243 | at most MaxAttempts regular attempts and one cancelled one, OnExhausted exactly once if no regular attempt succeeds and never otherwise, and at most (MaxAttempts-1)·MaxDelay of waiting |
| RetryLoop.DelayDoubles | internal/delivery/lanes.go:220-234 | under any valid policy the delay after attempt n is min(Base·2^(n-1), MaxDelay) if and only if Base·2^(n-1) is below 2^63 or an earlier doubling, in 64 bits, has come to MaxDelay |
| RetryLoop.DelaysExactIff | internal/delivery/lanes.go:220-234 | under any valid policy all of the first n delays are so if and only if Base·2^(n-1) is below 2^63, or MaxDelay <= Base·2^k < 2^63 for some k from 1 to n-1 |
| RetryLoop.SmallMaximum | internal/delivery/lanes.go:220-234 | with MaxDelay at most 2^62 that holds if and only if n is 1 or Base is below 2^62 |
| RetryLoop.LargeMaximumOverflows | internal/delivery/lanes.go:221-232 | a valid policy with a base of 2^61 whose third delay is -2^63 |
| RetryLoop.StepsNumbered | internal/delivery/lanes.go:209-240 | attempts carry the numbers from 1 on, each wait is the one its attempt calls for, and the cancelled attempt follows an interrupted wait |
| RetryLoop.TraceIff | internal/delivery/lanes.go:207-242 | in a trace attempt n+1 is made if and only if attempt n was, failed retryably with attempts left and the window not elapsed, and the wait was not interrupted; a wait follows attempt n under the same conditions without the last; a cancelled attempt if and only if that wait was interrupted |
| RetryLoop.TraceIsSteps | internal/delivery/lanes.go:207-242 | the rule of what follows what (a success ends the job, a last failure is followed by OnExhausted, a wait by an attempt) determines the whole trace |
| RetryLoop.RunRetryJob | internal/delivery/lanes.go:207-242 | the loop produces the trace in which every event is followed by what the rule calls for |
| RetryLoop.ComputeDelay | internal/delivery/lanes.go:220-234 | the doubling loop, with int64 wrap-around, computes the specified delay |
| RecoveryCursor.CursorStaysBelowOpenWork | internal/recovery/coordinator.go:65-135 | in every run with lost writes and crashes, cursor and persisted position stay strictly below all positions failed or pending and not acknowledged since; leftovers stay above; neither moves back |
| RecoveryCursor.AdvanceMaximal | internal/recovery/coordinator.go:108-135 | after an advance whose writes work, the cursor is the largest acknowledged position below all blockers, or unmoved if there is none, and exactly the positions up to it are used up |
| RecoveryCursor.SavedIsAcknowledged | internal/recovery/coordinator.go:108-135 | in every run what is persisted is the first row or the position and timestamp of an acknowledged delivery |
| RecoveryCursor.CrashPointsAreSafe | internal/recovery/coordinator.go:118-133 | whichever write is the last to work, the persisted position is below all open work |
| RecoveryCursor.AdvanceKeeps | internal/recovery/coordinator.go:108-135 | an interrupted advance keeps the invariant and moves only over frontier positions |
| RecoveryCursor.RunInv | internal/recovery/coordinator.go:65-106 | the invariant holds in every run, and the failed and pending maps hold exactly the open positions |
| RecoveryCursor.LoadErrorIsNotABlocker | internal/recovery/coordinator.go:65-80 | a run in which the cursor passes an event whose cursor could not be loaded |
| RecoveryCursor.FailureBlocksIff | internal/recovery/coordinator.go:65-90 | a failing delivery leaves its position blocked if and only if it was blocked before or the event was routed |
| RecoveryCursor.PassableIff | internal/recovery/coordinator.go:65-135 | in every run, a position beyond the loaded cursor can be reached or passed without a crash and without its acknowledgement if and only if it is not open |
| RecoveryCoordinator.StreamState.Handle | internal/recovery/coordinator.go:65-106 | Handle leaves the stream in the machine's next state; it answers with an error if and only if the cursor could not be loaded, the router reported one, or the advance after an acknowledgement stopped at a failed write with positions left to take; otherwise with the router's outcome, or that there was nothing to do |
| RecoveryCoordinator.StreamState.Advance | internal/recovery/coordinator.go:108-135 | the sorted walk over acknowledged positions is the least-first advance |
| RecoveryCoordinator.SavedCursor.PutRecoveryCursor | internal/store/store.go:731-748 | the persisted row only ever moves to a larger position |
| SettledCursor.CursorMeansSettled | internal/recovery/coordinator.go:65-135 | if a message failed or was left waiting and the cursor or the saved position has reached it without a crash, it was acknowledged on the way, and then every target was done if and only if it was deleted, the call had not skipped the fan-out, or no target lacked both row and copy |
| SettledCursor.CursorPassesUnsent | internal/router/router.go:816-818 | a run in which the cursor moves past a self-sent message that no target has or will get |
| SettledCursor.ClosedByAck | internal/recovery/coordinator.go:84-106 | a position stops blocking the cursor only by an acknowledgement, crashes aside |
| HistoryRecovery.Recover | internal/transport/telegram/mtproto_recovery.go:98-196 | terminates; with an age bound or a nonzero cursor it emits, in order and once each, the oldest wanted messages, never more than asked for or 5000, and all of them or exactly that many, or a prefix of them after a failed emission; otherwise the oldest of the newest stretch, and a stretch is left out only after a full batch; it fails only with a page, or with an emission before the batch is complete |
| HistoryRecovery.OldestWanted | internal/transport/telegram/mtproto_recovery.go:178-195 | what a successful recovery emitted is in time order, at most what was asked for and at most 5000; a wanted message of the stretch scanned is missing only if exactly the smaller of the two numbers was emitted and all of it is older |
| HistoryRecovery.Gather | internal/transport/telegram/mtproto_recovery.go:129-177 | the paging loop finds every wanted message, or a full batch of them when it may stop early, and stops no later than the page that fills the batch |
| HistoryRecovery.ReadPage | internal/transport/telegram/mtproto_recovery.go:144-168 | one page adds exactly its wanted messages, its oldest id and whether any was too old |
| HistoryRecovery.StopIsComplete | internal/transport/telegram/mtproto_recovery.go:142-171 | each way of stopping means nothing wanted is left |
| HistoryRecovery.OnwardIsGathered | internal/transport/telegram/mtproto_recovery.go:169-172 | otherwise the offset strictly decreases and everything wanted from it on has been found |
| HistoryRecovery.SortedSorts | internal/transport/telegram/mtproto_recovery.go:178-183 | sorting by time then position puts the candidates in id order |
| HistoryRecovery.TelegramServes | internal/transport/telegram/mtproto_recovery.go:259-296 | Telegram's page keeps the contract if and only if it shows an ordinary message or none is left |
| HistoryRecovery.RecoverTelegram | internal/transport/telegram/mtproto_recovery.go:98-196 | against Telegram's pages of any log, recovery delivers what is due of the part above every full page of consecutive service entries; given an age bound or a nonzero cursor that is all that is due if and only if nothing wanted lies below such a page |
| HistoryRecovery.DueIff | internal/transport/telegram/mtproto_recovery.go:129-172 | that part of the log has the same events due as the whole if and only if nothing wanted is hidden |
| HistoryRecovery.TelegramServesClear | internal/transport/telegram/mtproto_recovery.go:259-296 | Telegram's pages keep the contract for that part, at every offset the loop asks for |
| HistoryRecovery.ServiceRunHides | internal/transport/telegram/mtproto_recovery.go:141-143 | a log in which a hundred service entries hide a wanted message: the page below them is empty |
| SlotPermutation.ScrambleIsPermutation | internal/identity/alias.go:46-57 | the xor-shift and multiply composition stays below 2^16 and never maps two slots to one |
| SlotPermutation.XorShiftInjective | internal/identity/alias.go:51-57 | x ^ (x >> k) determines x |
| SlotPermutation.MultiplyInverse | internal/identity/alias.go:53-55 | multiplication by each constant modulo 2^16 is undone by its inverse |
| AliasNames.AliasInjective | internal/identity/alias.go:30-45 | under one ordering, ordinals with the same alias ignoring letter case are equal |
| AliasNames.AliasParses | internal/identity/alias.go:59-67 | the alias of every positive int64 ordinal, as a token, parses back to itself |
| AliasNames.TierFits | internal/identity/alias.go:41-43 | every int64 ordinal's tier is a legal tier of at most 15 digits |
| AliasPairs.EveryPair | internal/identity/alias.go:30-57 | in each round of 65536 ordinals, under either ordering, every adjective meets every noun, with the round's number after the first |
| AliasPairs.OrderRepeats | internal/identity/alias.go:30-45 | later rounds have the words of the first in the same order, with their number |
| AliasPairs.TierIff | internal/identity/alias.go:14-18 | the grammar's tier is the numeral of a number from 2 on, below 10^15, and every such numeral is one |
| AliasPairs.AliasIff | internal/identity/alias.go:14-67 | with words of the tables the grammar admits exactly the aliases of the rounds below 10^15, under either ordering |
| AliasPairs.OldOrder | internal/identity/alias.go:30-45 | the sequential ordering goes through the nouns and then to the next adjective |
| AliasNames.LowerIff | internal/store/schema.sql:227-233 | ignoring case means equal up to the case of ASCII letters |
| AliasHistory.NoAliasIssuedTwice | internal/store/aliases.go:77-128 | over any history of allocations, deletions, restarts and the ordering choice, no alias is issued twice, not even in another letter case |
| AliasHistory.AssignmentIsPermanent | internal/store/aliases.go:45-75 | nothing but the deletion of its sync set changes a recorded assignment |
| AliasHistory.OrderingExplainsHistory | internal/store/aliases.go:189-237 | after a restart an ordering is recorded that explains every surviving row and every alias ever issued |
| AliasHistory.OrderingIsPermanent | internal/store/aliases.go:191-199 | once recorded, the ordering never changes |
| AliasHistory.ObserveAnswers | internal/store/aliases.go:45-75 | a valid identity gets an alias if and only if it has one or its set exists and ordinals remain; a refusal changes nothing |
| AliasHistory.ExhaustionIsFinal | internal/store/aliases.go:101-121 | after the last ordinal nothing is ever issued again: allocation refuses rather than wraps |
| AliasHistory.NeverTaken | internal/store/aliases.go:109-116 | the next alias never clashes with a recorded one |
| AliasHistory.AliasFindsItsActor | internal/store/aliases.go:138-146 | lookup by alias, in any letter case, finds exactly the actor it was given to |
| AliasHistory.NewInstallation | internal/store/aliases.go:189-237 | in particular no alias is issued twice over the whole history of an installation that starts with a new database |
| AliasHistory.OpenedOpens | internal/store/aliases.go:189-237 | without a recorded ordering, opening is refused if and only if neither ordering explains every row; otherwise the scrambled one is recorded if and only if it explains every row and, in case the sequential one does too, the sequence has never advanced |
| AliasHistory.NewAliasesInOrder | internal/store/aliases.go:77-128 | over any history from a new database on, the first start records the scrambled ordering, nothing is issued before it, and the n-th alias issued is the scrambled one of the ordinal n |
| AliasHistory.RowsAreInSets | internal/store/schema.sql:227-233 | over any history every assignment is in an existing sync set |
| AliasHistory.RunKeeps | internal/store/aliases.go:77-128 | the issue invariant holds over every history |
| AliasAllocation.Store.ObserveSyncSetActor | internal/store/aliases.go:45-75 | the method's tables and answer are those of the history step, or a timeout that changes nothing when every attempt finds a lock or a clash |
| AliasAllocation.Store.AllocateAlias | internal/store/aliases.go:77-128 | row and sequence advance together, with every refusal of the transaction |
| AliasAllocation.Store.InitializeAliasOrder | internal/store/aliases.go:189-237 | folding the rows in any order gives the specified choice, or fails leaving everything as it was; without a recorded ordering the choice is stated in full |
| AliasAllocation.Store.Open | internal/store/store.go:177-192 | opening is the restart step, with the same choice of the ordering, and an open store uses the recorded one |
| AliasAllocation.Store.DeleteSyncSet | internal/store/schema.sql:227-233 | deleting a sync set takes its assignments with it and leaves the alias sequence alone, as the history step does |
| AliasAllocation.Store.ActorByAlias | internal/store/aliases.go:138-146 | finds a row with that alias ignoring case if there is one, checked like any row |
| AliasTokens.AliasTokenSpans | internal/identity/alias.go:78-105 | returns, in order and disjoint, exactly the well-formed tokens with an even run of backslashes before them and no earlier unclosed opening |
| AliasTokens.FirstReference | internal/identity/alias.go:80-91 | between the scan position and the first closing brace only the first opening can be a reference |
| AliasTokens.Authorize | internal/transport/references.go:15-20 | the table holds for each token the last usable reference |
| AliasTokens.RewriteCrossReferences | internal/transport/references.go:11-45 | the result is the text with exactly the references that are authorized and accepted replaced by their mentions |
| AliasTokens.RewriteKeepsTheRest | internal/transport/references.go:21-44 | every other byte survives in order, every accepted reference becomes its mention, and nothing else appears |
| AliasTokens.RewriteIsUnique | internal/transport/references.go:11-45 | there is only one such text |
| AliasTokens.AliasIsPlain | internal/identity/alias.go:14-18 | an alias holds none of the characters that delimit a token |
| Splice.SplicedMeaning | internal/transport/references.go:36-44 | simultaneous replacement: survivors keep their units and order, replacements appear whole, and the length is exact |
| Splice.OrderedEditsEqual | internal/transport/references.go:36-44 | ordered edits are determined by their members |
| Utf16.DecodeEncode | internal/transport/telegram/normalizer.go:369-424 | decoding encoded text gives the text (sections 2.1 and 2.2 of RFC 2781) |
| Utf16.RuneBoundary | internal/transport/telegram/normalizer.go:369-378 | a position of encoded text starts a rune if and only if it splits no surrogate pair |
| Utf16.DecodeConcat | internal/transport/telegram/normalizer.go:416-424 | decoding distributes over concatenation unless a pair is split |
| Mentions.NormalizeMentions | internal/transport/telegram/normalizer.go:364-429 | the loops compute the specified text and mentions: collected replacements, stable sort, right-to-left splicing, panics included |
| Mentions.DisjointSplices | internal/transport/telegram/normalizer.go:413-424 | for disjoint ranges in any order the loop never slices out of range and equals simultaneous replacement |
| Mentions.OrderDoesNotMatter | internal/transport/telegram/normalizer.go:364-429 | for disjoint ranges the text does not depend on the order of the entities |
| Mentions.ExactText | internal/transport/telegram/normalizer.go:416-424 | when no range splits a surrogate pair, the decoded text is exactly the content with every range replaced at once |
| Mentions.RuneEditsIff | internal/transport/telegram/normalizer.go:416-424 | there are edits of the text itself that replace exactly these ranges if and only if no range starts or ends inside a surrogate pair |
| Mentions.TextIsExactIff | internal/transport/telegram/normalizer.go:416-424 | for disjoint ranges the decoded text is the content with every range replaced at once if and only if no surrogate pair has one half replaced and the other not |
| Mentions.NormalizedIsExactIff | internal/transport/telegram/normalizer.go:364-429 | the same for the entities themselves, with no panic |
| Mentions.ReplacementsIff | internal/transport/telegram/normalizer.go:369-411 | there is a replacement if and only if an entity in range calls for it: the hash of a named user, or the generic word |
| Mentions.MentionListIs | internal/transport/telegram/normalizer.go:379-411 | the mentions list each named entity in order, with the hash of its user and its display name, or the hash again |
| Mentions.OnlyHashesShow | internal/transport/telegram/normalizer.go:364-429 | of a mentioned user only the hash has influence on the text, on a panic and on the listed ids |
| Mentions.SortIsStable | internal/transport/telegram/normalizer.go:413-415 | replacements that start at the same place keep their order |
| Mentions.SortedSorts | internal/transport/telegram/normalizer.go:413-415 | the sort keeps the replacements and orders them by descending start |
| Mentions.RepeatedRangePanics | internal/transport/telegram/normalizer.go:416-423 | a text of more than eight units that is one username mention, reported twice, panics |
| Mentions.SplitPairIsLost | internal/transport/telegram/normalizer.go:416-424 | a mention of the second half of a surrogate pair turns the first half into the replacement character |
| Mentions.AppliesIff | internal/transport/telegram/normalizer.go:416-423 | the loop goes through if and only if every range lies within what the replacements before it have left of the text |
| Mentions.PanicsIff | internal/transport/telegram/normalizer.go:364-429 | normalizing panics if and only if there are entities and a hasher and, taken from the right, a range does not lie within what is left |
| Mentions.RepeatedMentionIff | internal/transport/telegram/normalizer.go:416-423 | the same mention twice panics if and only if its replacement is shorter than its range by more than what follows the range |
| Utf16.WellFormedSlice | internal/transport/telegram/normalizer.go:416-424 | a stretch of encoded text decodes without loss if and only if it is empty or splits no pair |
| PollTallies.SelectionsAgree | internal/store/store.go:1181-1219 | after any events a selection row exists if and only if the option is in the actor's latest ballot there |
| PollTallies.SourcesAgree | internal/store/store.go:1181-1277 | the source row is the endpoint's latest kind of event |
| PollTallies.SnapshotsAgree | internal/store/store.go:1237-1266 | the snapshot rows are the endpoint's latest snapshot |
| PollCounts.CountsAreContributions | internal/store/store.go:1291-1321 | the count of each option is the sum of the endpoints' current contributions: voters, snapshot count, or nothing |
| PollCounts.PollStore.GetPollAggregateCounts | internal/store/store.go:1291-1321 | grouping the joined rows of both tables gives for every option the total over endpoints |
| PollCounts.ChangedBallotCountsOnce | internal/store/store.go:1181-1219 | a changed ballot counts the actor once for each new option, no longer for the others, and moves no other vote |
| PollCounts.RepeatChangesNothing | internal/store/store.go:1181-1277 | telling the latest event again changes no table |
| PollCounts.PollStore.ReplacePollActorSelections | internal/store/store.go:1181-1219 | the transaction's tables, and refusal of negative or repeated options and unknown messages |
| PollCounts.PollStore.ReplacePollEndpointSnapshot | internal/store/store.go:1237-1266 | the transaction's tables, and refusal of negative indexes or counts |
| PollCounts.PollStore.MarkPollEndpointUnavailable | internal/store/store.go:1268-1277 | the source row of a known message becomes unavailable and nothing else changes; an unknown message is refused |
| PollCounts.PollStore.CheckIndexes | internal/store/store.go:1221-1233 | accepts exactly nonnegative distinct indexes |
| ReactionSnapshots.LatestIff | internal/transport/telegram/mtproto_live.go:967-982 | a snapshot files of each user with a positive id the last item, and nothing else |
| ReactionSnapshots.DifferenceIff | internal/transport/telegram/mtproto_live.go:983-996 | the events are the new reactions of the users whose emoji is new or has changed, and an empty one of each user who has none any more |
| ReactionSnapshots.DifferenceConnects | internal/transport/telegram/mtproto_live.go:967-997 | applying the events to the previous emojis gives the new ones, if and only if no user newly has an empty emoji |
| ReactionSnapshots.DifferenceIsMinimal | internal/transport/telegram/mtproto_live.go:983-996 | user ids strictly increase and every event changes what it is applied to |
| ReactionSnapshots.EventsAddUp | internal/transport/telegram/mtproto_live.go:967-997 | along any run, a message's baseline with all emitted events applied is its latest snapshot |
| ReactionSnapshots.LiveState.ReplaceReactionSnapshot | internal/transport/telegram/mtproto_live.go:967-997 | stores the snapshot's latest reactions and returns the difference, or nothing for the first snapshot |
| ReactionSnapshots.LiveState.ClearAccountState | internal/transport/telegram/mtproto_live.go:261-275 | clearing the account state is the machine's step: every message's next snapshot is a first one again |
| PrivateRelay.AcceptedAtMostOnce | internal/privatedm/relay.go:111-159 | over any run of arrivals and sweeps a message whose timestamp is no later than its arrivals, to the millisecond, is accepted at most once ever |
| PrivateRelay.RepeatableIff | internal/controlstore/private_dm.go:127-139 | an accepted message can be accepted again if and only if it has no timestamp or one later than its arrival truncated to the millisecond |
| PrivateRelay.WholeMillisecondsOnce | internal/privatedm/relay.go:119-122 | in particular a message stamped in whole milliseconds, never later than its arrivals, is accepted at most once |
| RelayLimits.GrantsAreBounded | internal/privatedm/relay.go:89-109 | within a process lifetime no key passes more often in a minute than its maximum |
| RelayLimits.PassesIff | internal/privatedm/relay.go:89-109 | a request passes if and only if fewer of its key than the maximum have passed within its minute, and fewer than ten thousand keys have |
| RelayLimits.AdmittedIff | internal/privatedm/relay.go:153-155 | a message is admitted if and only if fewer than ten requests of its actor passed in its minute, fewer than fifty messages were admitted in it, and windows are left |
| RelayLimits.FirstTenPass | internal/privatedm/relay.go:153-155 | of an actor exactly the first ten messages within a minute pass its own limit, as long as fewer than ten thousand write |
| RelayLimits.AdmittedAmongFew | internal/privatedm/relay.go:153-155 | then a message is admitted if and only if fewer than ten of its actor came before it within its minute, and fewer than fifty were admitted in it |
| PrivateRelay.FirstArrivalIff | internal/privatedm/relay.go:111-159 | in every run a message never accepted before is accepted, while rows are left, if and only if the limits let it through and its timestamp, if any, is less than a day old and at most five minutes ahead |
| PrivateRelay.Relay.Handle | internal/privatedm/relay.go:111-159 | age check, actor and global rate limits and acceptance, in that order: the seen rows, the windows and the answer |
| PrivateRelay.Relay.AcceptIncoming | internal/controlstore/private_dm.go:127-139 | only a new message is accepted, and only below the record limit |
| PrivateRelay.Relay.PermitRequest | internal/privatedm/relay.go:89-109 | the windows and the answer are the specified ones |
| PrivateRelay.PruneTable | internal/controlstore/private_dm.go:262-283 | for one table, whichever batch fails: only expired rows go, and without a failure all of them, if the table is within its limit; it fails only with a batch |
| PrivateRelay.Relay.Prune | internal/controlstore/private_dm.go:262-283 | for the seen rows: the relay machine's sweep, and the same |
| PrivateCleanup.BudgetHolds | internal/controlstore/private_dm.go:240-249 | whatever crashes, a row is claimed at most three times, by sweeps that begin at least an hour apart, never before its due time nor at or after its expiry |
| PrivateCleanup.ClaimIff | internal/controlstore/private_dm.go:240-249 | in every run a row can be claimed if and only if it was claimed fewer than three times, it is due and not expired, and no claim of it is less than an hour old |
| PrivateCleanup.RowGoesIff | internal/controlstore/private_dm.go:251-283 | in every run a row goes if and only if an attempt of it succeeds, its third attempt finishes, or it is pruned after its expiry |
| PrivateCleanup.ClaimedWithinThreeDays | internal/controlstore/private_dm.go:180-249 | in every run a claim is of a copy that was queued, within three days from its due time |
| PrivateCleanup.CallsCanCoincide | internal/privatedm/relay.go:398-431 | two calls of one row can come at the same time |
| PrivateCleanup.SpacingIff | internal/privatedm/relay.go:398-431 | for a delay up to an hour: in every run, calls after one that was at most that late come at least some time after it, if and only if that time is at most an hour less the delay |
| PrivateCleanup.ExpiryIff | internal/privatedm/relay.go:398-431 | in every run, a call at most some delay late comes before the expiry of its row plus some grace, if and only if the delay is at most the grace |
| PrivateCleanup.FinishedRowsAreGone | internal/controlstore/private_dm.go:251-260 | a row is gone for good once an attempt succeeded or its third attempt finished |
| PrivateCleanup.RunKeeps | internal/controlstore/private_dm.go:180-260 | a row counts its claims, and its next attempt is an hour after each, in every run |
| PrivateCleanup.CleanupStore.Sweep | internal/privatedm/relay.go:398-431 | wherever a statement fails or the process stops, every provider call has its own claim, made before it at the sweep's start time; a sweep without an error has removed every copy it asked for, and unless its limit was reached nothing is due any more; and it ends with an error if and only if a statement failed, the process stopped, or a copy could not be removed |
| PrivateCleanup.CleanupStore.SweepAll | internal/privatedm/relay.go:408-427 | the loop asks for each candidate in turn, whether or not the ones before could be removed, until a statement fails or the process stops; the rows of removed copies and of third attempts go, the others of them are claimed, and no other row changes; it succeeds if and only if it comes through and every copy was removed |
| PrivateCleanup.CleanupStore.PruneCandidates | internal/controlstore/private_dm.go:262-283 | for the cleanup rows: the machine's pruning step, complete within the table's limit unless a batch fails |
| PrivateCleanup.CleanupStore.DueCleanup | internal/controlstore/private_dm.go:212-238 | due rows, each once, earliest first; a row is left out only if that many earlier ones are due |
| PrivateCleanup.CleanupStore.BeginCleanup | internal/controlstore/private_dm.go:240-249 | the compare-and-set claims exactly as the machine does |
| PrivateCleanup.CleanupStore.QueueCleanup | internal/controlstore/private_dm.go:180-210 | only local copies are queued, a queued one is left alone, and a full table is reported |
| PrivateCleanup.CleanupStore.FinishCleanup | internal/controlstore/private_dm.go:251-260 | success or a third attempt removes the row, unless the statement fails; then nothing changes |
| RoutingConfig.SetsReadBackIff | internal/config/config.go:270-336 | every set of a saved valid configuration reads back with its row and exactly its members if and only if no two sets share an id |
| RoutingConfig.ReadsBack | internal/config/config.go:270-336 | a saved valid configuration reads back with its endpoints, and each set id with the endpoints of the sets of that id |
| RoutingConfig.Validate | internal/config/config.go:596-646 | accepts exactly the configurations with distinct targets, sets of at least two known endpoints, no repeats, no overlap and full membership |
| RoutingConfig.TrimIs | internal/config/config.go:596-646 | trimming takes white space off both ends, all of it and nothing else |
| RoutingConfig.CheckSets | internal/config/config.go:614-641 | accepts exactly the valid lists of sets, and then tells which endpoints they list |
| RoutingConfig.SetOfIs | internal/config/config.go:491-496 | in a valid configuration the saved membership of an endpoint is the one set that lists it |
| RoutingConfig.Membership | internal/config/config.go:491-496 | the loop computes that membership |
| RoutingRows.Database.SaveRoutingRows | internal/config/save_routing.go:12-88 | on a valid configuration no statement is refused, the tables end as configured, and exactly the rows with an unchanged transport, connection and remote id keep their identity |
| RoutingRows.Database.UpsertEndpoints | internal/config/save_routing.go:50-56 | each upsert meets the unique target, because all rows are bound as configured, swaps included |
| RoutingRows.Database.UpsertEndpoint | internal/config/save_routing.go:50-56 | an upsert changes membership and flags only, and is refused exactly when its target is taken or its set missing; targets stay unique |
| RoutingRows.Database.Retire | internal/config/save_routing.go:12-39 | changed and removed bindings, and only they, are deleted before anything is written |
| RoutingRows.Database.Save | internal/config/config.go:423-500 | an invalid configuration changes nothing; a valid one is saved |

## Left out

- HTTP API, authentication, web pages, mail and the analyzer: request plumbing.
- Presentation: attribution headers, names, poll texts, child-scope labels, media downloads, logging.
- SQL text, migrations and pragmas: each statement or transaction is one atomic step. Lock contention
  and its retries are modelled for alias allocation only.
- Cryptography: hashes are injective keys, encrypted columns are their plain values, ids are fresh.
- Identifier syntax: patterns of endpoint ids, actor hashes of polls, aliases and remote ids of the
  configuration are taken as met; `Blank` covers ASCII white space only.
- The mapping of edits and reactions to copies across tombstones, poll companions and result edits:
  they follow the same mutation job.
- The copies cache, pending-echo counters and the remembered-message ring: lookups and counters that
  would add easy members only. The cache never disagrees with the source copy it remembers.
- Retention pruning of messages, and the cascade it causes, in the delivery tables and poll tables.
- Liveness: nothing is claimed about an edit that arrives exactly while a copy is being stored, or a
  tombstone set between the last check and the insert of a copy.
- Positions blocked only in memory are not claimed after a restart: the failed and pending maps are not
  persisted. A failed cursor write is taken to have no effect.
- RecoveryCursor.Load: concurrent streams are independent and are modelled one at a time.
- MessageCalls.SafeReportIff: speaks of messages to be fanned out. Events of other kinds, which no fan-out
  follows, and the answers to commands are not modelled; a message that is such a command counts as one
  that does not leave its group.
- SafeMoments.StoredYetPendingForever: until retention deletes the message, which is not modelled.
- MutationOrder.RevisionsInOrder: one process lifetime; pending edits and reactions are not persisted.
- MutationRepeats.AcceptedAgainIff: a flush may come at any time, and attempts are not counted; how many
  there are is `RetryLoop.RetryIsBounded`.
- CreateOutcome.AttemptLeaves: of attempts whose statements work and during which no delete arrives; for the
  others see `CreateOutcome.FailsForGoodOnlyIf`, `CreateOutcome.DroppedOnlyIf`, `Replays.UnderwayIff` and
  `Tombstones`.
- PendingMutations.NewestIsKept: unless the pending entries are dropped with the message.
- RelayLimits.AdmittedIff: of one process lifetime; the windows are not persisted.
- CreateJob.Router.HandleEvent: no job runs during the call; the interleavings are those of
  `MessageCalls`. Presentation lookups that can fail between two targets end the loop like any other error.
- CreateJob.Router.RunJob: between the steps of an attempt the class invariant is that of the machine; it
  is promised again when the job has ended (`CreateJob.Router.WorkLane`).
- LaneManager.Manager.Update: lanes are values in a map, not separate objects; while one call waits for
  a lane, the steps of the other lanes are covered by the step machine, not by the method.
- HistoryRecovery.Recover: the history does not change during a scan, and page offsets and ids are
  unbounded integers.
- AliasAllocation.Store.ObserveSyncSetActor: no other process writes between two attempts, and time is
  the number of attempts that fit into it.
- AliasTokens.RewriteCrossReferences: text is bytes, one per character, and the platform callback is a
  function.
- Mentions.NormalizeMentions: text is Unicode scalar values, so malformed UTF-8 is not modelled, and
  display names are given.
- ReactionSnapshots.LiveState.ReplaceReactionSnapshot: the caller's fallback to the latest reaction when
  there is no earlier snapshot is not modelled.
- PrivateRelay.Relay.Handle: the age check and the insert are one step, so a sweep between them is not
  modelled; command parsing, routing and replies after the acceptance are left out.
- PrivateRelay.Relay.Prune: one of the four tables it prunes, all by the same loop
  (`PrivateRelay.PruneTable`); reply mappings and inboxes are not modelled.
- PrivateCleanup.BudgetHolds: of the provider calls, `PrivateCleanup.SpacingIff` and
  `PrivateCleanup.ExpiryIff` say what holds instead.
- PrivateCleanup.CleanupStore.Sweep: the check of a candidate's transport, which cannot fail, is left out.
- RoutingConfig.Validate: patterns of identifiers and the checks of settings are left out.
- RoutingConfig.Load: the order of endpoints and sets that LoadRaw imposes is not modelled, nor are the
  settings that fall back to legacy global ones.
- RoutingRows.Database.Save: child-scope labels and the global settings row are left out.
- `MigrateTelegramEndpoint`, reply mappings and verified inboxes would add easy members only.

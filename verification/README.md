# VniDrop: verified models of the transfer core and its hosts

VniDrop moves files between devices. A Rust core does the transfers; a Linux host in Rust and a
Windows host in C# keep the sessions, preferences, logs, notifications and drafts around it. These
Dafny modules model the small stateful components whose correctness depends on interleavings, loops
or arithmetic bounds, and prove what each of them is for.

- **EventHistory** is the bounded newest-first event list. Whatever the batching and the order, it
  holds the `capacity` newest elements of an unbounded canonical set.
- **PreferenceWrites** tracks concurrent preference writes. What it retains is a function of the set
  of completions, so neither order nor repetition shows. **PreferenceFlush** interleaves flushes with
  the other threads.
- **DrainProtocol**, **CoreLifecycle** and **SessionLeases** are one abstract shutdown protocol and
  the two hosts that refine it, with all their interleavings. **CancelRace** is the race between
  preparing a share and cancelling it.
- **AccessPolicy** and **Approval** decide who may fetch a transfer: access decisions against the log
  of all changes, and the handshake protocol with waiters, responders, timeouts and a repository
  that may fail at every call. **ApprovalAnswers** says exactly which runs lead to which answer.
- **Utf8** and **BugReport** find the longest log tail that fits a request, by binary search over
  byte budgets. **LogRotation**, **PreviewStore**, **TransferRate** and **ReceiverProgress** are the
  other bounded computations.
- **Varint**, **LegacyPreferences** and **LegacyParity** read the old preference file on both hosts.
  **Redaction**, **JsonRedaction** and **RelaySettings** are the normalisers.
- **Notifications**, **Composer**, **ReleaseVersions** and **ReleaseChain** are state machines over
  long runs: notices, the draft of a transfer, and the chain of release manifests.
  **ReleaseContents** says when there is a release and what it holds.

Code that updates state is a class whose methods are tied to a function of the old state; what the
system promises is then proved of that function over every run. `dafny verify dfyconfig.toml` checks
everything.

## What the code does not promise

Some properties one would expect hold only under a condition. Each has the condition proved exactly
and an instance that fails it:

- The final check of a release accepts every assembly that gets that far unless its channel is
  `preview`, which it always refuses (`FinalCheckAccepts`, `PreviewRefused`).
- `redact_text` returns a text unchanged exactly when it is ASCII and holds nothing to redact, and is
  idempotent exactly when the text outside the tickets is ASCII: the second pass copies bytes as
  characters (`UnchangedIff`, `IdempotentIff`, `NonAsciiGrows`).
- `redact_json` is not idempotent: a second pass fingerprints the first one's placeholders
  (`RedactTwice`, `BooleanSecret`).
- The reported bytes of a receiver can fall when the first streams come to count, because they
  replace the position known for the connection (`AdvancingReport`, `FirstStreamReplacesConnection`).
- A cancelled share stays published exactly when every cancelling call since its publication found
  the session closed or failed, and nothing else stopped it (`PublishedIff`, `SharedStaysIff`,
  `ClosingLeavesShare`, `FailingCallLeavesShare`).
- A denied receiver has its access session exactly when its token could not be stored, because the
  call failed or the row was deleted: the session is granted before (`DeniedKeepsSession`,
  `DeniedMayKeepSession`).
- A grant in force is refused exactly when an earlier question read a clock past its expiry and
  pruned it, which shows only if the clock steps back (`AllowedIff`, `PruningUnobservable`,
  `ClockStepsBack`).
- Linux reads exactly the preference files that Windows reads and in which every field has a number,
  every key is well-formed and every keyed entry has a value (`MapIff`, `KeyWithoutValue`).
- Two accepted relay URLs of one relay have one normal form if no port has a leading zero, and in
  general exactly when their port texts agree (`SameRelay`, `SameNormalForm`, `LeadingZeroPort`).
- When a flush returns, a tracked write has counted or was abandoned, exactly unless the same task was
  tracked twice and completing the other write removed this one from the pending ones
  (`ReturnsOnlyWhenSettled`, `ReturnsWhenAllSettled`, `TrackedTwice`).
- A normalised relay URL is accepted again exactly when lower case did not make it too long
  (`NormalizedIsFixed`, `WideHostIsRefusedAgain`).

## Model

| member | source | states |
|---|---|---|
| `EventHistory.HistoryUnique` | linux/src/events.rs:23-67 | being the `capacity` newest canonical events, newest first, leaves only one possible history, so batching and arrival order cannot show |
| `EventHistory.CanonicalIff` | linux/src/events.rs:33-62 | an offered event is canonical exactly if it does not report progress, or no newer one agrees with it in transfer, direction, phase, kind, connection and request |
| `EventHistory.StaleProgressIgnored` | linux/src/events.rs:49-57 | offering a progress event that an already offered one of its key supersedes does not change which list is the history |
| `EventHistory.AcceptKeepsTracking` | linux/src/events.rs:58-61 | replacing the buffered events of a progress key by a newer one keeps the buffer faithful: wherever it differs from the canonical set, `capacity` newer events hide the difference |
| `EventHistory.TruncatedIsHistory` | linux/src/events.rs:63-66 | sorting a faithful buffer and cutting it at the capacity gives exactly the history |
| `EventHistory.HistoryTracks` | linux/src/events.rs:23-67 | a truncated history is a faithful start for the next batch although it forgot older events |
| `EventHistory.SortNewestCorrect` | linux/src/events.rs:63-65 | the sort keeps the entries and orders them strictly by time, revision and id |
| `EventHistory.IdGreaterIff` | linux/src/events.rs:63-65 | ids are compared character by character, a prefix being the smaller one |
| `EventHistory.SkipStale` | linux/src/events.rs:49-57 | skipping a progress event that is not newer than the buffered one of its key keeps the buffer faithful to everything offered |
| `EventHistory.History.constructor` | linux/src/events.rs:16-21 | an empty history of the given capacity |
| `EventHistory.History.Merge` | linux/src/events.rs:23-67 | after a batch the object holds the history of everything offered so far together with the batch, for batches of distinctly minted events |
| `EventHistory.History.Snapshot` | linux/src/events.rs:69-71 | the snapshot is the history of everything offered |
| `EventHistory.Replay` | linux/src/events.rs:16-71 | over any run of merges the snapshot is the history of the union of the batches |
| `PreferenceWrites.ReflectsUnique` | windows/VniDrop.Core/PreferenceWriteTracker.cs:141-194 | "newest success, and newest failure if newer than it" per field determines both dictionaries from the set of completions |
| `PreferenceWrites.SuccessReflects` | windows/VniDrop.Core/PreferenceWriteTracker.cs:159-175 | recording a success keeps a field's slot equal to what the set of completions calls for, whatever order they came in |
| `PreferenceWrites.FailureReflects` | windows/VniDrop.Core/PreferenceWriteTracker.cs:177-192 | the same for a failure, which is dropped when a newer success or failure is known |
| `PreferenceWrites.RepeatedCompletionIsNoOp` | windows/VniDrop.Core/PreferenceWriteTracker.cs:141-194 | observing a completion again changes nothing |
| `PreferenceWrites.RunReflects` | windows/VniDrop.Core/PreferenceWriteTracker.cs:141-194 | after every prefix of every run of completions the state reflects exactly the completions so far |
| `PreferenceWrites.AnyOrderSameState` | windows/VniDrop.Core/PreferenceWriteTracker.cs:141-194 | two runs over the same set of completions, in any order and with any repetition, end in the same state |
| `PreferenceWrites.NewestRetained` | windows/VniDrop.Core/PreferenceWriteTracker.cs:78-119 | nothing is retained exactly when no failure is outstanding, and the newest retained one is the outstanding failure of the highest version |
| `PreferenceWrites.Tracker.Track` | windows/VniDrop.Core/PreferenceWriteTracker.cs:26-45 | rejects an empty scope, uses up a version but throws for a task already pending, otherwise registers the task under a fresh version, after which every field of the scope is being written; the retained state stays |
| `PreferenceWrites.Tracker.Resolve` | windows/VniDrop.Core/PreferenceWriteTracker.cs:47-63 | counts as a success of the whole scope with a fresh version, and every field of it is left with that success and no failure |
| `PreferenceWrites.Tracker.HasPending` | windows/VniDrop.Core/PreferenceWriteTracker.cs:65-76 | true exactly if some field of the scope is being written; asked for every field, exactly if a flush has to wait |
| `PreferenceWrites.Tracker.Complete` | windows/VniDrop.Core/PreferenceWriteTracker.cs:141-194 | a running task changes nothing, a finished one leaves `pending`, an abandoned one counts nowhere, any other adds its one completion and keeps the state a function of the set; a repeated one is a no-op |
| `PreferenceWrites.Tracker.RecordSuccess` | windows/VniDrop.Core/PreferenceWriteTracker.cs:161-173 | the loop over the fields performs the success on exactly the fields of the scope |
| `PreferenceWrites.Tracker.RecordFailure` | windows/VniDrop.Core/PreferenceWriteTracker.cs:180-192 | the loop performs the failure on exactly the fields of the scope where no newer success or failure is known |
| `PreferenceWrites.Tracker.Look` | windows/VniDrop.Core/PreferenceWriteTracker.cs:78-119 | a flush waits while anything is pending, returns only if no failure is outstanding, and otherwise throws an outstanding failure of the highest version |
| `PreferenceWrites.Tracker.RecordAwaited` | windows/VniDrop.Core/PreferenceWriteTracker.cs:78-119 | a flush round with no other thread in between takes every awaited task out of `pending` and adds exactly the completions that were not abandoned |
| `PreferenceFlush.InvPreserved` | windows/VniDrop.Core/PreferenceWriteTracker.cs:26-194 | every critical section of any thread, with any number of flushes under way, keeps the retained state a function of the completions, every completion genuine and every pending write unsettled |
| `PreferenceFlush.ReturnsOnlyWhenSettled` | windows/VniDrop.Core/PreferenceWriteTracker.cs:78-119 | in every interleaving a flush returns only at a point where nothing is pending or retained and no counted failure is outstanding; a tracked write has then counted or was abandoned, exactly unless completing another version of its task removed its pending entry and its own completion is still to come |
| `PreferenceFlush.ReturnsWhenAllSettled` | windows/VniDrop.Core/PreferenceWriteTracker.cs:78-119 | where every task is tracked under one version only, every tracked write has counted or was abandoned when a flush returns |
| `PreferenceFlush.LostIff` | windows/VniDrop.Core/PreferenceWriteTracker.cs:121-194 | in every state a tracked write is neither settled nor pending exactly in that case |
| `PreferenceFlush.ThrowsNewestFailure` | windows/VniDrop.Core/PreferenceWriteTracker.cs:78-119 | it throws only with nothing pending, and then an outstanding failure of the highest version |
| `PreferenceFlush.RoundRecordsAll` | windows/VniDrop.Core/PreferenceWriteTracker.cs:78-119 | in every run a flush looks again only after it recorded every write it had found pending |
| `PreferenceFlush.VersionsAreCounted` | windows/VniDrop.Core/PreferenceWriteTracker.cs:26-63 | in every run the version is the number of tracked and resolved writes, also of those whose task was already pending |
| `PreferenceFlush.TrackedTwice` | windows/VniDrop.Core/PreferenceWriteTracker.cs:121-194 | a run in which a task tracked again during a flush makes the flush return before its second failure counted |
| `DrainProtocol.StopThenDrain` | windows/VniDrop.Core/CoreSession.cs:97-125 | in every trace stopping is for good and only lets calls leave, and a core that was let go had no call left and never sees one again |
| `CoreLifecycle.InvPreserved` | windows/VniDrop.Core/CoreSession.cs:35-125 | every step of any thread keeps the invariant over calls, closing, created cores and the `drained` source |
| `CoreLifecycle.RunIsSafe` | windows/VniDrop.Core/CoreSession.cs:35-125 | in every reachable state `drained` is complete exactly if no call is active, an operation holds an undisposed core, the core is taken and disposed only with no call running and at most once, and a normal close leaves every created core disposed, also one initialised after the stop |
| `CoreLifecycle.EndsIff` | windows/VniDrop.Core/CoreSession.cs:115-125 | closing fails exactly if the native shutdown or disposal threw, and ends normally exactly if the core was disposed or there was none to take |
| `CoreLifecycle.RefinesDrainProtocol` | windows/VniDrop.Core/CoreSession.cs:35-125 | every step is a step, or a stutter, of the abstract drain protocol |
| `CoreLifecycle.NoCallStartsAfterStop` | windows/VniDrop.Core/CoreSession.cs:35-70 | once stopping was requested no operation and no initialisation starts in the rest of the run |
| `CoreLifecycle.StoppingMakesProgress` | windows/VniDrop.Core/CoreSession.cs:97-125 | while stopping, every step but a repeated stop takes at least one off a number, and a repeated stop changes nothing |
| `CoreLifecycle.StepsAfterStop` | windows/VniDrop.Core/CoreSession.cs:97-125 | after a stop no run takes more than five steps, and three for each call still active, besides repeated stops |
| `CoreLifecycle.StoppingNeverStuck` | windows/VniDrop.Core/CoreSession.cs:97-125 | until closing ended some other step is possible, so closing cannot hang |
| `CoreLifecycle.CoreSession.InitializeEnter` | windows/VniDrop.Core/CoreSession.cs:37-42 | starts exactly when no core, no call and no stop is there, and is then the protocol's step |
| `CoreLifecycle.CoreSession.PublishCore` | windows/VniDrop.Core/CoreSession.cs:45-49 | publishes the constructed core even while stopping |
| `CoreLifecycle.CoreSession.RunEnter` | windows/VniDrop.Core/CoreSession.cs:54-62 | hands out the core exactly when it is there and not stopping, opening a new `drained` source for the first call |
| `CoreLifecycle.CoreSession.LeaveCall` | windows/VniDrop.Core/CoreSession.cs:97-103 | the last call to leave completes the `drained` source it belongs to |
| `CoreLifecycle.CoreSession.DisposeEnter` | windows/VniDrop.Core/CoreSession.cs:105-119 | the first dispose starts the one closing task, later ones join it |
| `CoreLifecycle.CoreSession.CloseTake` | windows/VniDrop.Core/CoreSession.cs:121-123 | after the awaited source completed the core is taken with no call active |
| `SessionLeases.RefinesDrainProtocol` | linux/src/session.rs:95-174 | the Linux session follows the same abstract protocol with its lease counter |
| `SessionLeases.ClosedStaysDrained` | linux/src/session.rs:95-174 | in every run a live lease keeps the core, and after any close returned the core is gone, no lease is live and none is granted again |
| `SessionLeases.Session.CallEnter` | linux/src/session.rs:99-107 | a lease is granted exactly when the core is there and the session is not closing, which is reported first |
| `SessionLeases.Session.Drop` | linux/src/session.rs:166-174 | dropping a lease gives back exactly one call |
| `SessionLeases.Session.CloseEnter` | linux/src/session.rs:147-155 | closing refuses new calls at once and shuts the core down if it is there |
| `SessionLeases.Session.CloseFinish` | linux/src/session.rs:157-163 | the core is released when the count is zero |
| `CancelRace.InvPreserved` | linux/src/draft.rs:65-112 | every step of `run`, of any number of `cancel` threads, of a closing session, of calls that fail and of anything else that stops the transfer keeps the invariant of the race |
| `CancelRace.CancelLeavesNothingPublished` | linux/src/draft.rs:65-112 | in every interleaving in which no cancelling call was refused by a closed session or failed on a published share: once a cancel returned, `run` has returned and nothing is published under the id; nor is anything after `run` reported the cancellation |
| `CancelRace.OpenRefusesNone` | linux/src/session.rs:99-107 | while the session is open no cancelling call was refused, so only a failing one can have missed |
| `CancelRace.StoppedIsFinal` | linux/src/draft.rs:65-112 | a stopped share is never published again |
| `CancelRace.UnknownUntilRegistered` | linux/src/draft.rs:92-103 | a cancelling call that comes before the import is registered stops nothing, and an import ends with the call that makes it |
| `CancelRace.EntersIffOpen` | linux/src/session.rs:99-107 | a call into the core gets in exactly if the session is open when it is made |
| `CancelRace.PublishedIff` | crates/vnidrop/src/runtime/lifecycle.rs:61-96 | in every run a share is published exactly if it was published once and since then every cancelling call found the session closed or failed, and nothing else stopped it |
| `CancelRace.SharedStaysIff` | linux/src/draft.rs:65-112 | a `run` that reported success left its share published exactly if every cancelling call so far found the session closed or failed, and since its publication nothing else stopped it |
| `CancelRace.ClosingLeavesShare` | linux/src/draft.rs:92-103 | an instance: the session closes after publication, both threads return and the share stays published |
| `CancelRace.FailingCallLeavesShare` | crates/vnidrop/src/runtime/lifecycle.rs:76-96 | an instance: the session stays open, the one cancelling call fails in the repository, both threads return and the share stays published |
| `CancelRace.Preparation.RunEnter` | linux/src/draft.rs:71-75 | the first check of `run` goes on exactly if no cancel was requested |
| `CancelRace.Preparation.RunRecheck` | linux/src/draft.rs:77-81 | the check after sharing sees an intent stored before it and turns to cancelling its own share |
| `CancelRace.Preparation.RunLeave` | linux/src/draft.rs:106-112 | leaving `run` on any path marks it finished with its result |
| `CancelRace.Preparation.StoreIntent` | linux/src/draft.rs:84-86 | the intent to cancel is stored before the loop makes its first call, and stays |
| `CancelRace.Preparation.LoopEnds` | linux/src/draft.rs:94-103 | the loop of `cancel` ends exactly if `run` finished or the session was closed |
| `AccessPolicy.AllowedHasGrant` | crates/vnidrop/src/access_policy.rs:62-95 | an allowed request to a transfer that is not public rests on an unexpired grant for that very transfer and endpoint, not dropped since |
| `AccessPolicy.AllowsIff` | crates/vnidrop/src/access_policy.rs:62-95 | the log allows a request exactly if the newest mode of its transfer is public, or asks for approval and the newest change of its session is a grant that is not past its expiry |
| `AccessPolicy.AllowedIff` | crates/vnidrop/src/access_policy.rs:62-95 | in every run, whatever the clock does, a request is allowed exactly if the log allows it and, unless it is public, no question since the newest grant read a clock past its expiry |
| `AccessPolicy.PruningUnobservable` | crates/vnidrop/src/access_policy.rs:80-90 | while the clock does not step back the answer is exactly what the log allows |
| `AccessPolicy.Policy.SetTransferMode` | crates/vnidrop/src/access_policy.rs:28-30 | records the mode and leaves modes and sessions in agreement with the run of operations |
| `AccessPolicy.Policy.RemoveMode` | crates/vnidrop/src/access_policy.rs:32-33 | the first half of a removal, after which the transfer is unknown |
| `AccessPolicy.Policy.RemoveSessions` | crates/vnidrop/src/access_policy.rs:34-38 | the second half, which drops the sessions of that transfer only |
| `AccessPolicy.Policy.ApproveEndpoint` | crates/vnidrop/src/access_policy.rs:40-48 | grants the endpoint a session of ten minutes from now |
| `AccessPolicy.Policy.ApproveEndpointUntil` | crates/vnidrop/src/access_policy.rs:50-60 | grants the endpoint a session until the given time, or without end |
| `AccessPolicy.Policy.Decide` | crates/vnidrop/src/access_policy.rs:62-95 | gives exactly the answer the operations so far call for, with its reason, and prunes at most the expired session it looked at, whatever the clock does |
| `AccessPolicy.Replay` | crates/vnidrop/src/access_policy.rs:28-95 | every answer along every run is the one the operations before it call for |
| `AccessPolicy.ClockStepsBack` | crates/vnidrop/src/access_policy.rs:80-90 | an instance: a question at 11 prunes a session that the log still allows at 5 |
| `Approval.Admit` | crates/vnidrop/src/approval.rs:181-260 | a handshake passes exactly if it is not blocked (an error counts as blocked), its metadata fit and the transfer exists; it then skips the sender exactly if the policy allows it already, and is otherwise refused for the first of these that fails |
| `Approval.InvPreserved` | crates/vnidrop/src/approval.rs:154-448 | every step of any waiter, responder, failing repository call, receipt or deletion keeps the protocol's invariant |
| `Approval.PendingIsSound` | crates/vnidrop/src/approval.rs:325-448 | in every run the pending map stays within its limit, its entries belong to live waiters, finished handshakes leave none, and no waiter receives two decisions |
| `Approval.DecisionWasSent` | crates/vnidrop/src/approval.rs:154-179 | a decision in a waiter's channel was sent earlier by a response to that same request |
| `Approval.ApprovedIsEarned` | crates/vnidrop/src/approval.rs:262-448 | an Approved answer follows an accept of that same request, or an arrival at which the log of the policy allowed it; it was given by storing the receipt token in an accepted row, which keeps it until it is deleted (the exact conditions are the next two) |
| `ApprovalAnswers.AutoApprovedIff` | crates/vnidrop/src/approval.rs:262-323 | in every run a handshake the policy allowed on arrival is approved exactly if its request was inserted, then accepted while still requested, then given its token while still accepted |
| `ApprovalAnswers.SenderApprovedIff` | crates/vnidrop/src/approval.rs:325-422 | in every run any other handshake is approved exactly if it received an accept that was sent to it, was granted its session and then given its token while its row was accepted |
| `ApprovalAnswers.AnsweredIff` | crates/vnidrop/src/approval.rs:181-448 | in every run a handshake has an answer exactly if a step called for it: refused on arrival, no place, a repository call that failed or found the row in another state, a received refusal, the end of the wait, or a stored token |
| `ApprovalAnswers.EnteredBy` | crates/vnidrop/src/approval.rs:181-448 | a handshake is at each point of its course because of the one step that leads there |
| `ApprovalAnswers.NeverStuck` | crates/vnidrop/src/approval.rs:181-448 | until it is answered a handshake has a step of its own to take, whatever the others do |
| `ApprovalAnswers.AnsweredSoon` | crates/vnidrop/src/approval.rs:181-448 | and takes at most five of them in any run, three if the policy allowed it on arrival |
| `ApprovalAnswers.ChannelIff` | crates/vnidrop/src/approval.rs:154-179 | in every run a decision is in a channel exactly if a responder that held the sender sent it to the waiting handshake, and the sender is gone exactly if such a responder failed to update the row |
| `ApprovalAnswers.PendingIff` | crates/vnidrop/src/approval.rs:330-361 | in every run a handshake is pending exactly if it found room, and neither it nor a response took its entry out since |
| `ApprovalAnswers.RowIsLatest` | crates/vnidrop/src/invitation/mod.rs:875-1040 | the status of a row is what the newest change made of it: accepted, refused or expired only while requested, completed or failed by a receipt, or deleted |
| `ApprovalAnswers.LogIff` | crates/vnidrop/src/approval.rs:381-391 | a change is in the policy log exactly if another part of the program made it, or a handshake granted its own endpoint a session until the given time |
| `Approval.GrantOrigin` | crates/vnidrop/src/approval.rs:381-391 | every change in the policy log was made by another part of the program, or is the grant of a handshake to its own transfer and endpoint |
| `Approval.ApprovedRestsOnApproval` | crates/vnidrop/src/approval.rs:181-448 | an Approved answer for a transfer that was not public on arrival rests on an accept for that transfer and endpoint, or on an explicit approval |
| `Approval.GrantFollowsAccept` | crates/vnidrop/src/approval.rs:381-391 | an access session is granted only after an accept of that same request was sent |
| `Approval.AnswerIsFinal` | crates/vnidrop/src/approval.rs:181-448 | no later step changes an answer |
| `Approval.DeniedKeepsSession` | crates/vnidrop/src/approval.rs:381-412 | in every run a denied receiver has its session exactly if storing its token failed, or its row was deleted before |
| `Approval.GrantedIsLogged` | crates/vnidrop/src/approval.rs:385-391 | and that session is a grant in the log of the policy |
| `Approval.DeniedMayKeepSession` | crates/vnidrop/src/approval.rs:385-411 | an instance: a receiver is denied because its token could not be stored and has its session |
| `Approval.Approvals.TakePlace` | crates/vnidrop/src/approval.rs:330-344 | a waiter enters the pending map exactly while there is room and is refused otherwise |
| `Approval.Approvals.GivePlaceBack` | crates/vnidrop/src/approval.rs:361-437 | a waiter whose insert failed or that timed out takes its entry out |
| `Approval.Approvals.TakeSender` | crates/vnidrop/src/approval.rs:154-160 | a response takes the entry out before anything can fail, and holds the sender exactly if it was there |
| `Utf8.DecodeEncoded` | windows/VniDrop.Core/BugReportDocument.cs:163-170 | decoding an encoding gives the text back (UTF-8, section 3 of RFC 3629) |
| `Utf8.EncodeDecoded` | linux/src/preferences.rs:95-138 | whatever decodes is exactly the encoding of what it decodes to: overlong forms and surrogates are refused |
| `Utf8.StartsCharacter` | windows/VniDrop.Core/BugReportDocument.cs:163-170 | a byte that is no continuation byte starts a character |
| `BugReport.TailUnique` | windows/VniDrop.Core/BugReportDocument.cs:163-170 | the longest suffix within a byte budget is unique |
| `BugReport.TailsNest` | windows/VniDrop.Core/BugReportDocument.cs:163-170 | a larger budget keeps everything a smaller one keeps |
| `BugReport.TailWastesAtMostThree` | windows/VniDrop.Core/BugReportDocument.cs:163-170 | a text that does not fit leaves at most three bytes of the budget unused |
| `BugReport.TakeUtf8Tail` | windows/VniDrop.Core/BugReportDocument.cs:163-170 | stepping over continuation bytes yields exactly the longest suffix within the budget |
| `BugReport.SearchBudget` | windows/VniDrop.Core/BugReportSubmission.cs:53-67 | the binary search over byte budgets finds the longest suffix whose report fits, if any report fits |
| `BugReport.FitLogs` | windows/VniDrop.Core/BugReportSubmission.cs:53-67 | the report is refused exactly if it would not fit even without logs; otherwise it carries the longest suffix that fits |
| `BugReport.LongerDoesNotFit` | windows/VniDrop.Core/BugReportSubmission.cs:53-67 | what the search ruled out by budget rules out every longer suffix |
| `BugReport.Limit` | windows/VniDrop.Core/BugReportSubmission.cs:74-85 | the longest prefix of whole characters of the trimmed text within the bytes |
| `BugReport.Submission.Prepare` | windows/VniDrop.Core/BugReportSubmission.cs:14-70 | a retry of the same draft and installation returns the very same document; a new one carries the longest log suffix that fits and never exceeds 256 KiB; none is made of a blank or overlong draft; a refusal leaves the cache as it was |
| `BugReport.Submission.Clear` | windows/VniDrop.Core/BugReportSubmission.cs:72-72 | nothing stays cached |
| `LogRotation.WriteKeeps` | crates/vnidrop/src/logging.rs:65-103 | either way a write can go, the kept files stay a suffix of all writes, each within the limit or a single write, no older one empty and any two neighbours together above the limit |
| `LogRotation.ShiftedFiles` | crates/vnidrop/src/logging.rs:81-91 | the renames keep the sequence of files and lose only the oldest, when the slots are full |
| `LogRotation.KeptAtLeast` | crates/vnidrop/src/logging.rs:65-103 | n kept files hold at least n / 2 times the limit |
| `LogRotation.SizeRotatingWriter.ShiftRotated` | crates/vnidrop/src/logging.rs:81-87 | the renames move every file up by one and none lands on a kept file |
| `LogRotation.SizeRotatingWriter.RotateIfNeeded` | crates/vnidrop/src/logging.rs:65-92 | rotates exactly if the active file is not empty and the write would exceed the limit, keeping the newest files in order |
| `LogRotation.SizeRotatingWriter.Write` | crates/vnidrop/src/logging.rs:95-103 | the buffer ends the active file and the kept files are again a suffix of all writes with the size bounds |
| `LogRotation.Log` | crates/vnidrop/src/logging.rs:48-103 | over any run of writes from an empty directory the files are numbered without gaps and satisfy the suffix and size properties |
| `TransferRate.WindowSize` | linux/src/progress.rs:263-273 | a window of five seconds of strictly increasing milliseconds has at most 5001 samples |
| `TransferRate.Measure` | linux/src/progress.rs:274-288 | a report is made exactly after half a second with a positive rate, no saturating subtraction saturates, and the remaining time is the exact ceiling at that rate |
| `TransferRate.Slide` | linux/src/progress.rs:266-273 | pruning keeps everything recent and always the last two samples, in order |
| `TransferRate.Rate.Update` | linux/src/progress.rs:235-290 | starts over on a new phase or a step back, forgets everything without bytes or at the end, and otherwise slides the window on and reports from its oldest sample |
| `TransferRate.Replay` | linux/src/progress.rs:229-290 | over every run of updates, every report is measured from an update half a second or more before, since which all were of one phase, unfinished and not behind it, and has rate > 0 and rate * (eta - 1) < remaining <= rate * eta |
| `ReceiverProgress.FoldByStream` | linux/src/progress.rs:145-175 | the state of each blob is the fold of its own (connection, request) stream alone |
| `ReceiverProgress.InterleavingIrrelevant` | linux/src/progress.rs:145-175 | two histories with the same streams fold to the same blobs however the streams interleave |
| `ReceiverProgress.AbortedIff` | linux/src/progress.rs:157-174 | a stream is aborted exactly if one of its events aborts it and no newer one is a start or a progress |
| `ReceiverProgress.CompletedIff` | linux/src/progress.rs:167-169 | it is completed exactly if one of its events completes it |
| `ReceiverProgress.SizeIsNewest` | linux/src/progress.rs:157-159 | its size is the newest one its events give |
| `ReceiverProgress.BytesAreLargest` | linux/src/progress.rs:161-165 | its bytes are the largest position it was started at or moved to |
| `ReceiverProgress.StreamCounts` | linux/src/progress.rs:176-201 | it counts for nothing while aborted, for its size once completed, and else for what moved so far, within its size |
| `ReceiverProgress.InterruptedIff` | linux/src/progress.rs:176-183 | the report is that of an interruption exactly if the newest relevant event aborts and every stream is aborted or completed in that sense |
| `ReceiverProgress.SendingReport` | linux/src/progress.rs:184-207 | any other report is of sending: the summed streams if there are any, else the position of the connection; the size of the transfer comes before an observed one |
| `ReceiverProgress.ConnectionProgressIsNewest` | linux/src/progress.rs:147-152 | that position is the newest one reported without a request id |
| `ReceiverProgress.RelevantIff` | linux/src/progress.rs:102-141 | an event counts exactly if it is a transfer event of this request, not older than it, and names its endpoint, or names none and is on a connection another event introduces |
| `ReceiverProgress.BytesWithinSizes` | linux/src/progress.rs:176-201 | the bytes never exceed the summed sizes when every active size is known |
| `ReceiverProgress.AdvancingNeverLowers` | linux/src/progress.rs:145-201 | a started, progress or completed event for a blob of unchanged size never lowers the summed bytes |
| `ReceiverProgress.SaturatingSum` | linux/src/progress.rs:176-201 | summing blob by blob in any order gives the sum capped at 64 bits |
| `ReceiverProgress.ForReceiver` | linux/src/progress.rs:84-208 | the report is the one the relevant events call for (`InterruptedIff`, `SendingReport`), and none is made unless the request was accepted and names an endpoint |
| `ReceiverProgress.OtherPeersIgnored` | linux/src/progress.rs:108-141 | an event naming another endpoint changes nothing, wherever it stands in the history |
| `ReceiverProgress.AdvancingReport` | linux/src/progress.rs:84-208 | in the report of a whole history an advancing event lowers the bytes exactly if it brings the first streams to count and these, which are on its connection, start below the position reported without them |
| `ReceiverProgress.StreamsStay` | linux/src/progress.rs:113-136 | an event that makes its connection count brings in streams of that connection only, and leaves the others as they were |
| `ReceiverProgress.AdvancingAlone` | linux/src/progress.rs:145-201 | if no earlier event comes in with it, its own bytes decide |
| `ReceiverProgress.FirstStreamReplacesConnection` | linux/src/progress.rs:176-208 | a history where that happens |
| `Varint.ReadEncoded` | linux/src/preferences.rs:200-214 | every 64-bit value is read back from its base-128 encoding, whatever follows it |
| `Varint.EncodeRead` | linux/src/preferences.rs:200-214 | a number read from a form without a trailing zero group was written by the encoder |
| `Varint.Read` | linux/src/preferences.rs:200-214 | a read takes one to ten bytes, yields a 64-bit value and leaves the rest of the input |
| `Varint.OrIsPlus` | linux/src/preferences.rs:208-208 | on disjoint binary digits the bitwise or is addition |
| `Varint.MaskByte` | linux/src/preferences.rs:208-208 | `& 127` keeps the low seven bits of a byte |
| `Varint.RoundIsPlus` | linux/src/preferences.rs:201-212 | in every accepted round the bitwise or, the mask and the shift on 64 bits add the shifted group: nothing leaves the 64 bits, and the digits of the next round stay free |
| `Varint.RoundsRead` | linux/src/preferences.rs:200-214 | the accumulating rounds compute the number the recursive definition gives, from any round on |
| `Varint.ReadVarint` | linux/src/preferences.rs:200-214 | the loop reads exactly that number and never runs out of rounds |
| `LegacyPreferences.ItemRoundTrip` | linux/src/preferences.rs:116-131 | an encoded string or boolean is parsed back |
| `LegacyPreferences.EntryRoundTrip` | linux/src/preferences.rs:104-134 | an encoded entry is parsed back with its key and value |
| `LegacyPreferences.MapRoundTrip` | linux/src/preferences.rs:95-138 | parsing an encoded map gives exactly that map, the last duplicate of a key winning |
| `LegacyPreferences.Proto.ReadNumber` | linux/src/preferences.rs:200-214 | consumes exactly one varint or fails |
| `LegacyPreferences.Proto.TakeLength` | linux/src/preferences.rs:216-223 | splits off exactly that many bytes or fails |
| `LegacyPreferences.Proto.ReadBytes` | linux/src/preferences.rs:225-228 | consumes a length and as many bytes, or fails |
| `LegacyPreferences.Proto.SkipField` | linux/src/preferences.rs:230-250 | consumes one field by its wire type, or fails, also for field number zero |
| `LegacyPreferences.ImportValues` | linux/src/preferences.rs:95-138 | the three nested loops terminate with the parsed map or fail as the parser does |
| `LegacyParity.CsRoundsAreRounds` | windows/VniDrop.Core/AppPreferences.cs:109-121 | the Windows loop over positions and the Linux loop over slices read the same numbers |
| `LegacyParity.ReadAt` | windows/VniDrop.Core/AppPreferences.cs:109-121 | the Windows varint loop computes the position-based read |
| `LegacyParity.ProtoReader.Varint` | windows/VniDrop.Core/AppPreferences.cs:109-121 | reads one varint and moves the position past it, or fails |
| `LegacyParity.ProtoReader.TakeSized` | windows/VniDrop.Core/AppPreferences.cs:122-127 | reads a length and as many bytes and moves past them, or fails |
| `LegacyParity.SkipParity` | windows/VniDrop.Core/AppPreferences.cs:128-140 | Linux skips a field exactly if Windows does and its number is not zero, and both stop at the same place |
| `LegacyParity.MapParity` | windows/VniDrop.Core/AppPreferences.cs:51-80 | whatever map Linux reads from a file, Windows reads too, with the same result |
| `LegacyParity.MapIff` | windows/VniDrop.Core/AppPreferences.cs:51-80 | Linux reads exactly the files that Windows reads and in which every field has a number, every key is well-formed UTF-8 and every entry with a key has a value |
| `LegacyParity.KeyWithoutValue` | windows/VniDrop.Core/AppPreferences.cs:79-79 | an instance: a key without a value, which Windows drops and Linux refuses |
| `Notifications.Tracker.Withdraw` | linux/src/notifications.rs:37-49 | takes down exactly the pending notices and reports them |
| `Notifications.Tracker.Refresh` | linux/src/notifications.rs:163-193 | reports exactly what is withdrawn and what is sent, and keeps the rest |
| `Notifications.PublishedIffStanding` | linux/src/notifications.rs:37-193 | over every run an id is published exactly if it was sent and not withdrawn since |
| `Notifications.SentIff` | linux/src/notifications.rs:175-192 | over every run an update sends a candidate exactly if notifications are on, the window is not in front, the notice does not stay published, and it is pending or its state differs from the one in the update before |
| `Notifications.WithdrawnIff` | linux/src/notifications.rs:37-50 | over every run a standing notice is taken down exactly if pending ones are withdrawn and it was sent as one, or by an update while notifications are off or the window is in front, or that has no such candidate or another state for it |
| `Notifications.PublishedState` | linux/src/notifications.rs:189-191 | a standing notice is published with its state in the update that sent it |
| `Notifications.StepIsSound` | linux/src/notifications.rs:163-193 | only published ids are withdrawn, what stays published is not sent again, and disabled or foreground updates leave nothing published |
| `Notifications.PreviousIsLatest` | linux/src/notifications.rs:192-192 | the remembered states are those of the latest update |
| `Notifications.ResendNeedsChange` | linux/src/notifications.rs:163-193 | a notice that is not pending is sent twice for one state only if an update in between saw another state |
| `PreviewStore.EvictedIsShortestRun` | windows/VniDrop.Core/FilePreviewStore.cs:64-70 | the evictions are the shortest oldest-first run, skipping the kept entry, that reaches the quota |
| `PreviewStore.EvictionsReachQuota` | windows/VniDrop.Core/FilePreviewStore.cs:64-70 | they do reach it whatever entry is kept |
| `PreviewStore.ByTimeOldestFirst` | windows/VniDrop.Core/FilePreviewStore.cs:52-54 | the stable sort keeps the files and orders them by write time |
| `PreviewStore.ByTimeIsStable` | windows/VniDrop.Core/FilePreviewStore.cs:53-55 | files of one write time keep the order of the directory |
| `PreviewStore.PrunedWithinQuota` | windows/VniDrop.Core/FilePreviewStore.cs:49-71 | after pruning every cached file is usable and wanted, together they fit the quota, and the kept one is untouched |
| `PreviewStore.FilePreviewStore.Read` | windows/VniDrop.Core/FilePreviewStore.cs:12-24 | returns the stored bytes exactly if they are a usable preview |
| `PreviewStore.FilePreviewStore.Save` | windows/VniDrop.Core/FilePreviewStore.cs:26-42 | an unusable preview changes nothing; a usable one is stored and survives, and the cache fits its quota with only the shortest oldest run gone |
| `PreviewStore.FilePreviewStore.Retain` | windows/VniDrop.Core/FilePreviewStore.cs:44-47 | no id outside the set stays, and the cache fits its quota |
| `PreviewStore.FilePreviewStore.Prune` | windows/VniDrop.Core/FilePreviewStore.cs:49-71 | unusable and unwanted files go, then the evictions, and nothing else changes |
| `PreviewStore.FilePreviewStore.DeleteUnusable` | windows/VniDrop.Core/FilePreviewStore.cs:55-63 | the first loop deletes exactly the files not worth keeping and sums the others |
| `PreviewStore.FilePreviewStore.EvictOldest` | windows/VniDrop.Core/FilePreviewStore.cs:64-70 | the second loop deletes exactly the evicted run |
| `Redaction.NoTicketLeft` | crates/vnidrop/src/control_plane.rs:161-176 | replacing tickets leaves none and joins none together |
| `Redaction.TicketRedacted` | crates/vnidrop/src/control_plane.rs:161-177 | a ticket is replaced together with its marker, up to the next whitespace or quote, and what is before and after it stays |
| `Redaction.TicketsMasked` | crates/vnidrop/src/control_plane.rs:161-177 | redacting tickets keeps exactly what is between them |
| `Redaction.TicketsOf` | crates/vnidrop/src/control_plane.rs:161-177 | and every text is made up of its tickets and what is between them |
| `Redaction.TicketsDoNotShow` | crates/vnidrop/src/control_plane.rs:161-201 | two texts that differ only in their tickets are redacted to one text |
| `Redaction.LongHexCollapsed` | crates/vnidrop/src/control_plane.rs:179-201 | a run of 32 or more hex digits is replaced as a whole, whichever they are, and what is around it stays |
| `Redaction.CollapseMakesNoTicket` | crates/vnidrop/src/control_plane.rs:179-201 | collapsing hex runs never puts together a ticket that was not there |
| `Redaction.CollapseLeavesNoLongHex` | crates/vnidrop/src/control_plane.rs:179-201 | nor leaves a run of 32 hex digits, after any output so far that is closed |
| `Redaction.RedactedIsClean` | crates/vnidrop/src/control_plane.rs:161-201 | for every input the output has no ticket marker and no run of 32 or more hex digits |
| `Redaction.UnchangedIff` | crates/vnidrop/src/control_plane.rs:161-201 | a text is returned as it is exactly if it is ASCII and has neither |
| `Redaction.IdempotentIff` | crates/vnidrop/src/control_plane.rs:161-201 | redacting twice is redacting once exactly if the text outside the tickets is ASCII |
| `Redaction.IdempotentOnAscii` | crates/vnidrop/src/control_plane.rs:161-201 | in particular on every ASCII text |
| `Redaction.NonAsciiGrows` | crates/vnidrop/src/control_plane.rs:179-201 | an instance of both: the letter U+00E9 |
| `Redaction.CollapseLongHex` | crates/vnidrop/src/control_plane.rs:179-201 | the index loop computes the run-by-run definition |
| `Redaction.RedactText` | crates/vnidrop/src/control_plane.rs:161-177 | the search loop computes the recursive definition followed by the second pass (`TicketsMasked`, `LongHexCollapsed` and `RedactedIsClean` say what that is) |
| `JsonRedaction.RedactedEqualIffAlike` | crates/vnidrop/src/control_plane.rs:129-158 | two values have one redacted form exactly if they differ only in secrets of one kind and fingerprint: nothing more about a secret shows, and nothing else is lost |
| `JsonRedaction.RedactTwice` | crates/vnidrop/src/control_plane.rs:129-158 | a second redaction changes nothing exactly if every secret is null or a string that is fixed by fingerprinting twice |
| `JsonRedaction.BooleanSecret` | crates/vnidrop/src/control_plane.rs:143-158 | an instance: a secret that is no string |
| `RelaySettings.AcceptIff` | windows/VniDrop.Core/RelaySettingsPolicy.cs:55-129 | a URL is accepted with a host and a port exactly if it is these two after `https://` in any case, with at most one slash behind, fits 2048 bytes and has no blank or control character; the host is a name that begins and ends with a letter or digit, or an IPv6 address in brackets |
| `RelaySettings.PortIff` | windows/VniDrop.Core/RelaySettingsPolicy.cs:131-140 | a port is valid exactly if there is none, or a number from 1 to 65535 with any zeros before it |
| `RelaySettings.NormalForm` | windows/VniDrop.Core/RelaySettingsPolicy.cs:55-83 | an accepted URL normalises to its lower-case host with its port unless that is `:443`, and that form is accepted with that host and port exactly if it is within the length limit |
| `RelaySettings.NormalizedIsFixed` | windows/VniDrop.Core/RelaySettingsPolicy.cs:55-83 | normalising a normal form changes nothing, exactly unless lower case made it too long to be accepted |
| `RelaySettings.NormalFormFits` | windows/VniDrop.Core/RelaySettingsPolicy.cs:55-83 | where lower case takes no more bytes, as on ASCII, a normal form is no longer than its URL |
| `RelaySettings.LowerCaseGrows` | windows/VniDrop.Core/RelaySettingsPolicy.cs:55-129 | where a letter of two bytes has a lower case of three, 1020 of it make an accepted URL whose normal form is refused |
| `RelaySettings.WideHostIsRefusedAgain` | windows/VniDrop.Core/RelaySettingsPolicy.cs:55-129 | an instance, with U+023A |
| `RelaySettings.StripsThePort` | windows/VniDrop.Core/RelaySettingsPolicy.cs:79-81 | cutting a trailing `:443` cuts the port and never a part of the host |
| `RelaySettings.SameNormalForm` | windows/VniDrop.Core/RelaySettingsPolicy.cs:55-129 | two accepted URLs have one normal form exactly if they have one host up to case and one port text, 443 being the same as none |
| `RelaySettings.SameRelay` | windows/VniDrop.Core/RelaySettingsPolicy.cs:55-140 | without leading zeros, exactly if they name one host and one port number |
| `RelaySettings.PortSpellings` | windows/VniDrop.Core/RelaySettingsPolicy.cs:131-140 | `:8443` and `:08443` are both valid and the same port |
| `RelaySettings.LeadingZeroPort` | windows/VniDrop.Core/RelaySettingsPolicy.cs:131-140 | with such two spellings one relay has two normal forms |
| `RelaySettings.TryNormalize` | windows/VniDrop.Core/RelaySettingsPolicy.cs:17-53 | modes without custom URLs keep the retained list; otherwise the result lists the normal forms of one to eight URLs, pairwise distinct, and is refused exactly if there is no such list |
| `RelaySettings.EnteredIs` | windows/VniDrop.Core/RelaySettingsPolicy.cs:29-32 | what is entered are the trimmed entries in order, without the blank ones |
| `RelaySettings.TrimSplits` | windows/VniDrop.Core/RelaySettingsPolicy.cs:30-30 | trimming takes blanks off both ends, as many as there are |
| `RelaySettings.NormalizedAgain` | windows/VniDrop.Core/RelaySettingsPolicy.cs:17-53 | an accepted list is accepted again as it is, exactly if lower case made none of its URLs too long |
| `Composer.SelectDistinct` | linux/src/composer.rs:136-152 | the dedupe loop keeps the old selection and adds each new value once under a fresh id |
| `Composer.AnswerSelects` | linux/src/composer.rs:115-162 | an answered pick keeps the old selection if it adds and drops it if it replaces; what is picked comes in, each value once, unless a directory would have company |
| `Composer.RemovesOne` | linux/src/composer.rs:164-170 | removing takes out the one source with that id and leaves the others in order |
| `Composer.InvPreserved` | linux/src/composer.rs:86-224 | every action keeps values and ids distinct, directories alone, the automatic name current and a closed draft empty |
| `Composer.RunInv` | linux/src/composer.rs:86-224 | so does every run |
| `Composer.AccessModeIsLatest` | linux/src/composer.rs:45-103 | over every run the access mode is the one last chosen while editing; at first every transfer asks for approval |
| `Composer.SenderNameIsLatest` | linux/src/composer.rs:45-97 | so is the sender name; at first it is the one the draft was made with |
| `Composer.EditedNameStays` | linux/src/composer.rs:86-178 | an edited transfer name stays until the selection is cleared or replaced, and the name is automatic otherwise |
| `Composer.AutomaticNameIs` | linux/src/composer.rs:215-223 | an automatic name is that of the only source, if it has one, or what several are called |
| `Composer.IdsNeverReused` | linux/src/composer.rs:115-170 | over a whole run an id names one source, and one that is gone never comes back |
| `Composer.RequestTakesEffectOnce` | linux/src/composer.rs:105-162 | a second answer to a picker request changes nothing, however much happened in between |
| `Composer.FailedPickRestoresDraft` | linux/src/composer.rs:105-135 | a pick that fails or selects nothing leaves the draft as it was before the pick, whatever was tried in between, up to the request number |
| `Composer.SubmissionLocksDraft` | linux/src/composer.rs:86-213 | from a successful start of a submission until it finishes nothing in any run changes the draft |
| `Composer.SubmissionEnds` | linux/src/composer.rs:180-213 | a submission that fails gives the draft back as it was before, one that succeeds closes it |
| `Composer.ClosedForGood` | linux/src/composer.rs:86-213 | a closed draft is empty and stays as it is for the rest of the run |
| `Composer.DirectoryStaysAlone` | linux/src/composer.rs:153-155 | adding something new beside a directory is refused and keeps selection and name |
| `Composer.TransferDraft.ChangeName` | linux/src/composer.rs:86-91 | an edited name is no longer automatic; a draft that is not editable keeps its own |
| `Composer.TransferDraft.ChangeSender` | linux/src/composer.rs:93-97 | only a draft that is being edited takes another sender name |
| `Composer.TransferDraft.ChangeAccess` | linux/src/composer.rs:99-103 | or another access mode |
| `Composer.TransferDraft.Begin` | linux/src/composer.rs:105-113 | an editable draft starts a pick under a fresh request number |
| `Composer.TransferDraft.Complete` | linux/src/composer.rs:115-162 | the current answer is merged, any other ignored, and an error keeps selection and name |
| `Composer.TransferDraft.Remove` | linux/src/composer.rs:164-170 | removes the source with that id and renames |
| `Composer.TransferDraft.Clear` | linux/src/composer.rs:172-178 | an editable draft is emptied and named automatically again |
| `Composer.TransferDraft.Submit` | linux/src/composer.rs:180-195 | hands over the trimmed names, the access mode and the sources in order exactly if the draft is editable, has sources and a name that is not blank, and locks it |
| `Composer.TransferDraft.Finish` | linux/src/composer.rs:197-204 | success closes the draft, failure gives it back for editing |
| `Composer.TransferDraft.DismissDraft` | linux/src/composer.rs:206-213 | a draft is dismissed unless it is being submitted |
| `ReleaseVersions.VersionShape` | packaging/release/assemble.py:45-48 | a version is made of digits and dots only |
| `ReleaseVersions.VersionIff` | packaging/release/assemble.py:45-48 | a text is a version exactly if it is three decimal numbers without leading zeros, joined by dots |
| `ReleaseVersions.OrderIsTotal` | packaging/release/assemble.py:83-83 | any two versions are ordered, by major, then minor, then patch number |
| `ReleaseVersions.ExtensionDecides` | packaging/release/assemble.py:13-14 | the extension of a file name settles which platform it can belong to |
| `ReleaseChain.DmgIsNotIntel` | packaging/release/assemble.py:51-59 | no version makes the main disk image look like the Intel one |
| `ReleaseChain.PayloadsSelect` | packaging/release/assemble.py:189-192 | of all assembled files exactly a platform's own are selected for it |
| `ReleaseChain.OwnEntryOk` | packaging/release/assemble.py:83-92 | the entry of a selected platform passes the checks on version, tag, number, names, digests and sizes of files |
| `ReleaseChain.CollectPayloads` | packaging/release/assemble.py:116-188 | the list filled platform by platform is the specified payloads, failing where a package or feed is missing |
| `ReleaseChain.ReplaceSelected` | packaging/release/assemble.py:190-193 | the loop replaces the entries of exactly the selected platforms |
| `ReleaseChain.AssembleRelease` | packaging/release/assemble.py:96-194 | assembling in place gives the specified manifest, or fails exactly when that has none (`ReleaseContents.ReleasedIff` and `ReleaseContents.ReleasedHolds` say when and what) |
| `ReleaseContents.ReleasedIff` | packaging/release/assemble.py:96-194 | there is a release exactly if its version, tag and selection are well-formed, it follows a valid older manifest, if any, every selected platform has its packages, matching checksums and metadata, the feeds of a platform it does not select carry over, and it is no preview |
| `ReleaseContents.ReleasedIsVerified` | packaging/release/assemble.py:22-28 | every deb, rpm, zip, apk and exe of a release matched its checksum and is listed with the digest of the package in the input, and every selected platform but Linux matched its metadata |
| `ReleaseContents.ReleasedHolds` | packaging/release/assemble.py:116-188 | a release holds exactly the packages its platforms need, as they lie in the input, and the feeds carried over |
| `ReleaseContents.VerifiedReleased` | packaging/release/assemble.py:120-127 | an instance: an installer that matches its checksum is released |
| `ReleaseContents.UnverifiedRefused` | packaging/release/assemble.py:22-28 | and is refused if it does not |
| `ReleaseContents.CarryFeedIff` | packaging/release/assemble.py:31-42 | a feed is carried over exactly if it is listed once and still intact, or not listed and not required |
| `ReleaseContents.IndexIff` | packaging/release/assemble.py:70-93 | a manifest is accepted exactly if it is no preview, is tagged with its version, and all it offers, by `downloads` or in older manifests by its own files, is valid |
| `ReleaseContents.DownloadFilesOkIff` | packaging/release/assemble.py:51-67 | one installer for Windows, one package of each kind for Linux, one for Android; for macOS disk images only, one that is not for Intel and at most one that is |
| `ReleaseContents.OffersAreWhole` | packaging/release/assemble.py:70-194 | along every chain each offer is so, of a version no newer than the release and tagged with it, with plain file names, digests and sizes |
| `ReleaseChain.FinalCheckAccepts` | packaging/release/assemble.py:194-194 | the final check accepts every assembly that reaches it, with the downloads it states, exactly unless the channel is `preview` |
| `ReleaseChain.PreviewRefused` | packaging/release/assemble.py:194-194 | an instance: a preview release that gets as far as the final check |
| `ReleaseChain.ReleasedIsPublished` | packaging/release/assemble.py:96-194 | an assembled manifest passes its own check and carries at most one feed of each kind, and exactly one where macOS or Intel downloads are offered |
| `ReleaseChain.CarryingSucceeds` | packaging/release/assemble.py:31-42 | carrying the feeds of such a manifest forward cannot fail while they stay intact |
| `ReleaseChain.VersionsIncrease` | packaging/release/assemble.py:111-115 | versions strictly increase along every chain of releases, from the manifest it started on |
| `ReleaseChain.LatestSelectionOffered` | packaging/release/assemble.py:96-194 | along every chain a platform's entry is that of the latest release that selected it |
| `ReleaseChain.NeverSelectedKeepsStart` | packaging/release/assemble.py:70-194 | a platform never selected keeps the entry of the manifest the chain started on, which may predate `downloads`, and is not offered if that had none |
| `ReleaseChain.ChainCarriesFeeds` | packaging/release/assemble.py:150-155 | at any point of a chain the feeds can be carried forward while they stay intact |

## Left out

- Iroh endpoints, SQLite, keyrings, UniFFI bindings, GTK and WinUI views, HTTP delivery and network calls are foreign libraries, input or output. The repository of approvals is a store whose every call may fail; clocks, generated ids and directory listings are inputs.
- JSON text, numbers and identifiers in event data arrive parsed; blake3 fingerprints, `Trim`, GUID normalisation, display names of several files, character classes, lower case and the IPv6 parser are parameters, the last three with the facts about them that RelaySettings lists.
- Async methods are modelled at the critical sections and awaits they are made of. A handler whose future is dropped half way, weak memory orders and spurious wake-ups are not; atomics and channels are sequentially consistent.
- 64-bit overflow of versions, request numbers and revisions is not modelled; 64-bit values read from data are.
- `IdentityCooldown` in control_plane.rs counts malformed messages per identity and makes an identity wait after a decline or too many of them; it is not modelled.
- `for_transfer` and `fraction` in progress.rs, `sources` in draft.rs, the event queue of CoreSession and the individual settings imported from the preference map are not modelled.
- File errors and partial writes in log rotation, previews and release assembly: file operations succeed. The directory listing and copying at the end of `assemble` are not modelled, and the build metadata of a platform is one boolean.
- RecordAwaited: takes a round of FlushAsync as one step; PreferenceFlush has the round with other threads in between. The endless loop itself is not a method.
- ApprovedIsEarned: rows left by earlier runs of the program are not in the store.
- AnsweredIff: a refusal's free-text reason is the fixed one.
- CancelLeavesNothingPublished: is about what the running core serves. A row that a failed repository call left as `sharing` is served again when the core next starts, which is not modelled.
- TakeUtf8Tail: texts are sequences of Unicode scalar values, so strings with lone surrogates are not covered.
- SearchBudget: the JSON escape adds a fixed length per character, as that of the serializer does for scalar values.
- MapParity: holds for files up to the size both hosts accept, with a lenient decoder that returns valid UTF-8 as it is.
- VersionShape: digits are the ASCII ones, while `\d` and `int` take any Unicode digit.
- ReadAt: the loop of the Windows reader works on the position as a value; ProtoReader stores the result.

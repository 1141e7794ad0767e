# Verified models of the server core

Dafny models of the parts of the server whose correctness is hard to see from reading one function, and
proofs of what those parts promise. `dafny verify dfyconfig.toml` checks everything.

Each protocol is written three times, and the three are tied together by proof:

1. as values and step functions, one per locked section, call or disk operation of the code;
2. as invariants and theorems over every run of those steps;
3. as a class with the code's own fields and loops, whose methods are proved to compute exactly those steps.

The components:

- **Workload admission** (`WorkloadPolicy`, `Admission*`): the bounded queue with four priority levels,
  bypass aging, class, principal and global caps, the operator pool and live policy reload. A run is any
  interleaving of arrivals, polls of waiting requests, ticket drops, lease drops and reloads, with any clock
  readings and cancellations. `Consistent` says that every counter equals the number of live leases and queued
  entries it stands for; `World` adds the leases and tickets that live outside the scheduler. What the scheduler owes
  each request is stated on the live leases and waiting requests alone (`AdmissionService`, `AdmissionHistory`).
- **Transaction leases** (`Lease*`): the clock-free lease machine with its settle loop, 64-bit deadline
  arithmetic, compare-and-swap renewal, single-use handles, commit outcomes and restart classification.
- **Repository lifecycle** (`Repository*`): the generation-checked lifecycle machine.
- **Repository catalog** (`Catalog*`): the durable phase journal, publication by rename, poisoning, restart
  reconciliation and handle fencing. Every disk or memory effect is one move; the process may die between any
  two moves. Assumptions about the file system: a rename is atomic and keeps the identity of what it moves; one
  that no sync has followed stays in danger, so a process that is killed leaves it visible, and any later crash,
  the next or one after several restarts, may undo it. That goes for publishing a directory and for replacing the
  catalog alike: `Disk.older` holds the catalogs a crash may still bring back, and the theorems speak of all of
  them (`Versions`). Verifying a directory is an oracle on its contents that may also fail for passing reasons.
  Outside interference with the directories is modelled between operations, not inside one; the theorems that
  need none say so (`Undisturbed`). `Manager` carries a ghost history that is at every point a run of the move
  machine, so the theorems over runs hold of its methods; failures come from nondeterministic choices, and the
  `calm` flag switches them off for the statements of what must then succeed.
- **Solution matching** (`Bijection*`): the greedy comparison of query results up to renaming of blank nodes.
- **Entity tags** (`EntityTags`, `EntityTagLists`): lists in conditional requests, sections 8.8.3 and 5.3 of RFC 9110.
- **Multipart bodies** (`Multipart*`): section 5.1.1 of RFC 2046 and section 4 of RFC 7578, on bytes.

The code is stricter than the standards it follows. Each case is modelled as the code has it, with an input that
shows it and the exact condition under which standard input is read as the standard means it:

- entity-tag lists with empty elements, which section 5.6.1 of RFC 9110 asks recipients to accept, are refused
  (`EntityTagLists.AdjacentCommasAreRefused`, `EntityTagLists.StandardListsParse`);
- entity tags with characters beyond ASCII, the obs-text of section 8.8.3 of RFC 9110, are refused in a header
  (`EntityTagLists.ObsTextIsRefused`; `EntityTags.HeaderConcatenates` has visible ASCII in its condition);
- multipart parts without header lines or without a Content-Type, and folded header lines, which section 5.1 of
  RFC 2046 allows, are refused (`MultipartWitnesses.HeaderlessMessageIsRefused`,
  `MultipartWitnesses.FoldedHeaderIsRefused`);
- multipart parts that end after their headers, without the blank line and the content that section 5.1.1 of
  RFC 2046 makes optional, are refused or swallow the parts that follow
  (`MultipartWitnesses.ContentlessMessageIsRefused`, `MultipartWitnesses.TwoPartsReadAsOne`). For both multipart
  cases `MultipartMessages.StandardMessagesParse` is the exact condition.

In one place the code does less than its documentation says. A successful `begin_quiesce` is documented as durable,
and it is whenever it writes. Repeated on an entry that is already Quiescing it does not write; if that Quiescing
was a rename whose process was killed before the sync, a later crash can bring the repository back Closed
(`CatalogRuns.VisibleQuiesceCanBeLost`). What a caller can go by is the catalog generation: once this manager has
completed any catalog write, so that the generation is past the one it started from, a repeated quiesce is durable.
Before that, nothing the manager can see decides it: `CatalogRuns.VisibleQuiesceIsDurableIff` proves both directions
over everything a manager can show, and `CatalogRuns.LastQuiesceIsDurableIff` over all runs for a quiesce that is the
catalog's last change, with a run of the same appearance in which the quiesce is lost.

## Model

| member | source | states |
|---|---|---|
| `WorkloadPolicies.ValidatedIsAdmissible` | cli/src/workload.rs:163-230 | whatever policy validation accepts gives every configured class a priority between 0 and 3 and caps the scheduler can rely on, so the scheduler's indexed lookups cannot fail |
| `WorkloadPolicies.ValidationIsExact` | cli/src/workload.rs:163-230 | validation accepts exactly the documented policies: ranges, representable sums and instants, and one priority for each class, which comparing the table sizes decides |
| `AdmissionChoice.NoneIffNothingEligible` | cli/src/workload.rs:927-975 | work conservation: selection returns nothing exactly when no queued entry of the pool fits its caps |
| `AdmissionChoice.ChosenIsOldestOfItsLevel` | cli/src/workload.rs:927-975 | the selected entry is queued, fits its caps, and no older eligible entry shares its priority level |
| `AdmissionChoice.NeverPassesAgedOut` | cli/src/workload.rs:927-975 | selection never goes past an eligible older entry that has used up its bypasses |
| `AdmissionChoice.ZeroLimitsAreFifo` | cli/src/workload.rs:927-975 | with all bypass limits zero, selection is first-in-first-out over eligible entries whatever the priorities |
| `AdmissionChoice.OperatorPoolIsFifo` | cli/src/workload.rs:927-975 | the operator pool is first-in-first-out whatever the data policy says |
| `AdmissionChoice.ChoiceIsByLevels` | cli/src/workload.rs:927-975 | level by level: the entry selected from the data pool is the oldest head among levels with an entry passed over to its limit, or else the head of the highest level, and nothing else is selected |
| `AdmissionController.Decide` | cli/src/workload.rs:961-975 | the two closing loops over the four levels give the declarative choice: oldest head among protected levels, else head of the highest level |
| `AdmissionController.Controller.SelectNext` | cli/src/workload.rs:927-975 | the single-pass scan with its early return computes the declarative rule on every consistent queue |
| `AdmissionInvariant.PurgeConsistent` | cli/src/workload.rs:977-988 | removing expired and cancelled entries keeps every counter exact |
| `AdmissionInvariant.EnqueueConsistent` | cli/src/workload.rs:1090-1095 | queueing a newly numbered entry keeps id order and every counter exact |
| `AdmissionInvariant.AgeConsistent` | cli/src/workload.rs:1074-1088 | aging changes no counter, no order and no entry's bounds |
| `AdmissionInvariant.ActivateConsistent` | cli/src/workload.rs:1018-1069 | an activation that grants adds exactly the new lease to every counter; one that finds its request cancelled adds nothing |
| `AdmissionInvariant.ReleaseQueuedExact` | cli/src/workload.rs:1097-1109 | taking any one entry out of the queue leaves each principal's counts exact, drops entries that reach zero, and never underflows |
| `AdmissionInvariant.ReleaseConsistent` | cli/src/workload.rs:1111-1125 | dropping any live lease keeps every counter exact; everything it decrements or unwraps is present and positive |
| `AdmissionRuns.MakeEntryOk` | cli/src/workload.rs:865-908 | an entry gets the next id, no bypasses and the policy of that moment; a refused one changes no counter |
| `AdmissionRuns.StepConsistent` | cli/src/workload.rs:277-298 | every locked section keeps every counter equal to the live leases and queued entries it stands for |
| `AdmissionFairness.StepKeepsInv` | cli/src/workload.rs:648-765 | every step of every kind keeps exact occupancy, id order, and one ticket per queued entry |
| `AdmissionFairness.AgingIsExact` | cli/src/workload.rs:1074-1088 | an admission from the queue never ages an entry that is at its limit, so the saturating counter never saturates |
| `AdmissionFairness.FollowsStep` | cli/src/workload.rs:683-754 | one step changes a queued entry in nothing but its bypass count, by one exactly when a newer data request was admitted while the entry had room |
| `AdmissionFairness.BypassBound` | cli/src/workload.rs:927-975 | in every run from start, each queued entry's bypass count equals the number of newer data admissions made while it had room, and never exceeds its own limit |
| `AdmissionFairness.BoundedOvertaking` | cli/src/workload.rs:683-754 | from any reachable state on, all data admissions past a waiting entry that had room are paid for by its unused bypasses or by older entries leaving |
| `AdmissionFairness.OvertakingSinceEnqueue` | cli/src/workload.rs:683-754 | from enqueue on, other data requests are admitted past an entry that has room at most its bypass limit plus the number of data entries queued before it |
| `AdmissionCapacity.GrantsRespectSnapshots` | cli/src/workload.rs:910-925 | every lease granted by any step fits the global, class, principal and operator caps of the policy snapshot its request was made under |
| `AdmissionCapacity.EnqueuesRespectSnapshots` | cli/src/workload.rs:990-1016 | every enqueue fits all queue caps of its own snapshot, and no other step lengthens the queue by any measure |
| `AdmissionCapacity.CapsWithoutReload` | cli/src/workload.rs:910-1016 | in every run without a reload all active and queue caps hold in every state |
| `AdmissionCapacity.EnvelopeAcrossReloads` | cli/src/workload.rs:456-510 | under any sequence of reloads, active work and queued work of each pool stay within the connection capacity fixed at startup |
| `AdmissionConservation.ActiveIsClassSum` | cli/src/workload.rs:277-298 | the active count is the sum of the class counts |
| `AdmissionConservation.ActiveIsPrincipalSum` | cli/src/workload.rs:277-298 | the active count is the sum of the principals' active counts |
| `AdmissionConservation.OccupancyConserved` | cli/src/workload.rs:1018-1125 | in every reachable state all views of occupancy agree, no all-zero map entry remains, and every live lease can be dropped without a failing decrement |
| `AdmissionConservation.NeverRequeued` | cli/src/workload.rs:1132-1147 | whatever took a request out of the queue, no later step of any run puts it back |
| `AdmissionService.PollAnswers` | cli/src/workload.rs:717-754 | a poll answers with its own cancellation, with a timeout from the deadline on, with the lease exactly when it is this request's turn, and otherwise keeps waiting |
| `AdmissionService.PollServes` | cli/src/workload.rs:736-754 | a waiting request is granted exactly when the rule stops at its entry in the purged queue; it leaves the queue and its lease has the class, principal and policy it was queued with; otherwise only the purge happens |
| `AdmissionService.OneIsServed` | cli/src/workload.rs:736-754 | as long as some waiting request of a pool has room, polling now would serve exactly one request of that pool |
| `AdmissionService.ArrivalIsExact` | cli/src/workload.rs:682-707 | an arrival is admitted exactly when its caps have room among the live leases and nobody of its pool waits with room; otherwise it is queued exactly when the waiting requests leave a place under every queue cap, and refused in the first full scope if not |
| `AdmissionService.ArrivalPlaces` | cli/src/workload.rs:660-700 | what an arrival leaves behind is its own lease, or its own entry and ticket, with the class, principal, pool, deadline, priority and bypass limit that its request and the policy give it |
| `AdmissionService.UnconsideredIsRefused` | cli/src/workload.rs:865-908 | an unknown class, a cancelled request, an exhausted counter or an unrepresentable instant is refused with that error, and neither queue nor leases change |
| `AdmissionService.MakeEntryIsExact` | cli/src/workload.rs:865-908 | the entry is charged to the principal and class that asked, and takes its level and limit from the policy's table |
| `AdmissionService.DepartureIsExact` | cli/src/workload.rs:977-988 | a step takes a request out of the queue exactly when its purge finds it late or cancelled, when its own poll has its turn, or when its own ticket is dropped |
| `AdmissionHistory.EntryTraces` | cli/src/workload.rs:865-908 | in every run each queued entry goes back to one arrival, and has kept its terms, deadline, level and limit since |
| `AdmissionHistory.LeaseTraces` | cli/src/workload.rs:1018-1069 | in every run each live lease goes back to one arrival: charged to the principal and class that asked, in its pool, under the policy of that moment |
| `AdmissionHistory.GrantedOnce` | cli/src/workload.rs:1354-1370 | in every run a request whose lease was dropped is never granted another |
| `AdmissionHistory.ReloadIsExact` | cli/src/workload.rs:456-510 | a reload is accepted exactly for a valid candidate of the same identity and a higher version that covers the declared classes and fits the startup envelope; it installs the policy and nothing else |
| `AdmissionHistory.PolicyOnlyAdvances` | cli/src/workload.rs:456-510 | in every run the policy keeps its identity, its version never goes back, and one version is one policy |
| `AdmissionController.Controller.constructor` | cli/src/workload.rs:277-298 | a new controller is consistent and empty under its startup policy |
| `AdmissionController.Controller.PurgeQueue` | cli/src/workload.rs:977-988 | the in-place sweep removes exactly the expired and cancelled entries and their queued counts |
| `AdmissionController.Controller.AgeOlder` | cli/src/workload.rs:1074-1088 | the loop ages exactly the older data entries that still fit their caps |
| `AdmissionController.Controller.ReleaseQueuedOf` | cli/src/workload.rs:1097-1109 | one queued entry comes off its principal's account, which disappears when nothing is left on it |
| `AdmissionController.Controller.ActivateEntry` | cli/src/workload.rs:1018-1069 | grants exactly the lease of the specification, or reports cancellation; stays consistent with the live leases |
| `AdmissionController.Controller.EnqueueEntry` | cli/src/workload.rs:1090-1095 | appends to the queue and to the principal's queued count, staying consistent |
| `AdmissionController.Controller.RemoveAt` | cli/src/workload.rs:736-746 | takes one entry out of the middle of the queue with its queued count, staying consistent |
| `AdmissionController.Controller.TryArrive` | cli/src/workload.rs:648-700 | the first locked section: refuse, admit directly only when nothing queued could go first, or queue; exactly the step of the specification |
| `AdmissionController.Controller.PlaceEntry` | cli/src/workload.rs:683-694 | direct admission or queueing of a new entry, exactly the step of the specification |
| `AdmissionController.Controller.PollOnce` | cli/src/workload.rs:704-765 | one pass of the waiting loop: purge, cancellation, timeout, selection, in that order; exactly the step of the specification |
| `AdmissionController.Controller.DropQueueTicket` | cli/src/workload.rs:1132-1147 | removes the ticket's entry if it is still queued and changes nothing otherwise |
| `AdmissionController.Controller.DropLease` | cli/src/workload.rs:1354-1370 | the last holder's release: every lookup and decrement is proved safe, and the lease is gone from every counter |
| `AdmissionController.Controller.Reload` | cli/src/workload.rs:456-510 | installs a validated candidate that fits the startup envelope, or changes nothing; leases and queue are untouched |
| `LeaseProperties.BeginWellFormed` | cli/src/lease.rs:412-441 | a lease begins exactly when its absolute deadline, longest wait and retention fit in 64 bits, and is then well-formed |
| `LeaseProperties.SettleCompletes` | cli/src/lease.rs:483-531 | settling ends with nothing left due, never overflows, and changes only the phase |
| `LeaseProperties.TimeComposes` | cli/src/lease.rs:483-531 | settling at one time and then at a later one is settling once at the later one |
| `LeaseProperties.ObservationIsInvisible` | cli/src/lease.rs:556-559 | an earlier observation changes neither the state nor the reply of any later call |
| `LeaseProperties.BoundedLifetime` | cli/src/lease.rs:483-531 | a lease is terminal by its absolute deadline plus the longer of cancel grace and commit wait, and expired one retention later |
| `LeaseProperties.RunLifetime` | cli/src/lease.rs:472-531 | the same in every run, whatever was called on the lease |
| `LeaseProperties.StepKeeps` | cli/src/lease.rs:472-825 | arithmetic closure: no call returns a time overflow, only the operation counter can run out, and a failing call leaves the lease as it was or exactly as observing would |
| `LeaseProperties.RenewalIsBounded` | cli/src/lease.rs:617-647 | a granted renewal is positive, within the request and the maximum extension, moves the deadline forward within the absolute one, and adds one generation |
| `LeaseProperties.OutstandingSurvives` | cli/src/lease.rs:562-613 | nothing but completing it makes an operation handle stale; in particular no renewal does |
| `LeaseProperties.IssuedHandleStaysGood` | cli/src/lease.rs:562-613 | in every run, an issued operation handle stays good, and is never refused as stale, until an operation completes |
| `LeaseProperties.HandleSucceedsOnce` | cli/src/lease.rs:584-613 | in every run an operation handle succeeds at most once |
| `LeaseProperties.CommitHappensOnce` | cli/src/lease.rs:713-768 | in every run a lease begins at most one commit and records at most one commit result |
| `LeaseProperties.StepRecordsTruth` | cli/src/lease.rs:739-825 | if reports and lookups agree with one durable truth, every recorded definite outcome agrees with it and no resolution conflicts |
| `LeaseProperties.RestartIsSound` | cli/src/lease.rs:830-902 | restarting at any point of any such run classifies the lease in agreement with the truth or as indeterminate, discarding included as long as nothing is committed without an attempt; an attempted commit is never classed discarded, and a contradiction is found only where nothing was attempted |
| `LeaseProperties.DefiniteNeverFlips` | cli/src/lease.rs:779-825 | no call changes a definite outcome; it can only expire, remembering whether a commit was attempted |
| `LeaseProperties.DefiniteForever` | cli/src/lease.rs:779-825 | the same over every run |
| `LeaseOutcomes.SettleIsClosedForm` | cli/src/lease.rs:483-531 | the settle loop ends in the phase read off the deadlines in closed form |
| `LeaseOutcomes.CallFinds` | cli/src/lease.rs:472-481 | every call acts on the lease as time has left it; a foreign binding or an earlier time is refused and changes nothing |
| `LeaseOutcomes.OperationRoundTrip` | cli/src/lease.rs:562-613 | a free lease starts an operation; finishing it in time gives the lease back with one more operation counted, and until then everything but cancellation finds it busy |
| `LeaseOutcomes.CancelledOperation` | cli/src/lease.rs:584-681 | an operation cancelled or overtaken by the deadline may acknowledge within the grace period, however often the cancellation is repeated, for a proven rollback at that time; later the cleanup is recorded as overdue |
| `LeaseOutcomes.RollbackIsIdempotent` | cli/src/lease.rs:651-710 | a free lease is rolled back at once by cancellation or rollback, and repeating either succeeds without effect |
| `LeaseOutcomes.EndedRefuses` | cli/src/lease.rs:533-548 | an ended lease grants nothing and says whether it still remembers its outcome |
| `LeaseOutcomes.ForeignIsStale` | cli/src/lease.rs:551-613 | a handle or attempt of another lease, generation or operation is stale and changes nothing |
| `LeaseOutcomes.LossIsOnlyNoted` | cli/src/lease.rs:771-775 | a lost response is noted and nothing else; no other call notes it or takes it back |
| `LeaseOutcomes.RenewalIsExact` | cli/src/lease.rs:617-647 | a renewal grants the latest deadline allowed by the request, the maximum extension and the absolute deadline, and is refused exactly when that gains nothing |
| `LeaseOutcomes.StaleRenewal` | cli/src/lease.rs:617-630 | any other generation is refused as stale |
| `LeaseOutcomes.CommitExcludes` | cli/src/lease.rs:713-733 | a free lease can be committed under a key; until the result or the end of the wait every other call is refused as attempted |
| `LeaseOutcomes.ReportIsRecorded` | cli/src/lease.rs:739-768 | an accepted report is recorded at its time: Committed exactly if it committed, ProvenAbsent exactly if it did not, Indeterminate exactly if the report is |
| `LeaseOutcomes.LookupIsRecorded` | cli/src/lease.rs:779-825 | a lookup resolves an indeterminate commit in both directions the same way and keeps the recorded time |
| `LeaseOutcomes.ContradictionIsRefused` | cli/src/lease.rs:779-825 | a result on record is confirmed by every lookup that does not contradict it; a contradiction is refused by the lease and by the restart record |
| `LeaseOutcomes.AttemptCanReport` | cli/src/lease.rs:739-768 | in every run, whatever is called in between, the issued attempt can report its result exactly until the wait is over |
| `LeaseOutcomes.RestartTells` | cli/src/lease.rs:830-902 | in every run an attempted commit is classified as what happened exactly if its result is on record or the lookup is definite, and as indeterminate otherwise |
| `LeaseOutcomes.LearnedIsKept` | cli/src/lease.rs:739-902 | in every run a definite report or lookup, once accepted, is on record in every later state until expiry, and a restart needs no lookup to tell it |
| `LeaseObject.LeaseMachine.constructor` | cli/src/lease.rs:412-441 | a begun lease holds exactly the specified deadlines and phase |
| `LeaseObject.LeaseMachine.TryBegin` | cli/src/lease.rs:412-441 | refuses exactly zero or unordered limits, and limits under which some deadline of the whole lifetime would overflow |
| `LeaseObject.LeaseMachine.SettleLoop` | cli/src/lease.rs:483-531 | the loop terminates, cannot fail, and ends in the settled phase |
| `LeaseObject.LeaseMachine.EnterCall` | cli/src/lease.rs:472-481 | binding and clock checks first; a refused call changes nothing |
| `LeaseObject.LeaseMachine.ObserveLease` | cli/src/lease.rs:556-559 | the observation step, in place |
| `LeaseObject.LeaseMachine.BeginOp` | cli/src/lease.rs:562-577 | issues a fresh handle from the idle phase only, in place |
| `LeaseObject.LeaseMachine.FinishOp` | cli/src/lease.rs:584-613 | completes or acknowledges exactly the outstanding handle, in place |
| `LeaseObject.LeaseMachine.RenewLease` | cli/src/lease.rs:617-647 | compare-and-swap renewal, in place, with no counter or subtraction able to wrap |
| `LeaseObject.LeaseMachine.Cancel` | cli/src/lease.rs:651-681 | the cancellation step, in place |
| `LeaseObject.LeaseMachine.RollBackWith` | cli/src/lease.rs:683-710 | the rollback step, in place |
| `LeaseObject.LeaseMachine.BeginCommitWith` | cli/src/lease.rs:713-733 | records key and attempt with the phase, in place |
| `LeaseObject.LeaseMachine.FinishCommitWith` | cli/src/lease.rs:739-768 | records the reported result of the one attempt, in place |
| `LeaseObject.LeaseMachine.MarkResponseLost` | cli/src/lease.rs:771-775 | marks the response lost and nothing else |
| `LeaseObject.LeaseMachine.ResolveWith` | cli/src/lease.rs:779-825 | resolves an indeterminate outcome from an external lookup, in place |
| `Repositories.StepKeeps` | cli/src/repository.rs:353-405 | success adds exactly one generation, admission none, failure changes nothing; time, identity and limits never go back |
| `Repositories.DoomIsFinal` | cli/src/repository.rs:550-594 | failure and deletion are never left; a retired repository refuses everything unchanged |
| `Repositories.TombstoneDecides` | cli/src/repository.rs:528-570 | at each moment a live tombstone admits exactly one of restoring and purging |
| `Repositories.GenerationCounts` | cli/src/repository.rs:390-405 | in every run the generation counts the accepted transitions exactly |
| `Repositories.HandleSpentOnce` | cli/src/repository.rs:353-405 | in every run a transition handle is accepted at most once, whatever it is presented to |
| `Repositories.ProvisionedMeansValidated` | cli/src/repository.rs:415-433 | whatever is past provisioning and not doomed got there through a passed validation |
| `Repositories.ReadyMeansValidated` | cli/src/repository.rs:436-474 | a ready repository passed provisioning validation and, after it, an opening validation in exactly the mode it is ready in |
| `Repositories.DoomForever` | cli/src/repository.rs:550-594 | over every run: doomed stays doomed, retired stays exactly as it was |
| `Repositories.OpenSequenceSucceeds` | cli/src/repository.rs:306-474 | the provision, complete, begin-open, complete-open sequence succeeds exactly when four generations are allowed |
| `RepositoryRuns.WorkIffOpened` | cli/src/repository.rs:598-610 | in every run work is admitted exactly while the repository is still open from a passed opening validation, and writing only if that opening was for writing |
| `RepositoryRuns.AdmitsByMode` | cli/src/repository.rs:598-610 | which work one call admits, that it only records the time, and why it refuses the rest |
| `RepositoryRuns.NoWorkSinceQuiesce` | cli/src/repository.rs:477-490 | in every run nothing is admitted from an accepted quiesce until the next opening passes |
| `RepositoryRuns.TransitionsFollowDiagram` | cli/src/repository.rs:415-594 | every accepted transition is an edge of the documented lifecycle |
| `RepositoryRuns.ProvisioningCompletes` | cli/src/repository.rs:415-433 | provisioning ends Closed or Failed with its validation |
| `RepositoryRuns.OpenRoundTrip` | cli/src/repository.rs:436-474 | opening and completing with the issued handle ends ready in the requested mode, or Failed |
| `RepositoryRuns.QuiesceRoundTrip` | cli/src/repository.rs:477-524 | quiescing and completing ends Closed, or Tombstoned until one retention later; an unconfirmed drain changes nothing and can be repeated |
| `RepositoryRuns.TombstoneEnds` | cli/src/repository.rs:528-570 | a tombstone is restored before its deadline and purged from it on, with the reference on record |
| `RepositoryRuns.PurgeRoundTrip` | cli/src/repository.rs:550-594 | purging a failed repository retires it, or leaves it Failed to be purged again |
| `RepositoryRuns.StaleIsRefused` | cli/src/repository.rs:369-388 | a call with another generation or handle is refused before anything else and changes nothing |
| `RepositoryObject.RepositoryMachine.constructor` | cli/src/repository.rs:306-330 | a provisioned repository starts at generation one |
| `RepositoryObject.RepositoryMachine.Advance` | cli/src/repository.rs:399-405 | one accepted transition: state, generation, time and cleared side fields together |
| `RepositoryObject.RepositoryMachine.FinishProvisioning` | cli/src/repository.rs:415-433 | the provisioning handle takes Provisioning to Closed on a passed validation and to Failed otherwise; a stale handle, an earlier time or another state changes nothing |
| `RepositoryObject.RepositoryMachine.StartOpen` | cli/src/repository.rs:436-451 | only a Closed repository at the expected generation starts opening; the mode asked for is remembered and a handle for the new generation issued |
| `RepositoryObject.RepositoryMachine.FinishOpen` | cli/src/repository.rs:454-474 | the opening handle makes the repository ready in exactly the remembered mode, or Failed if validation failed |
| `RepositoryObject.RepositoryMachine.StartQuiesce` | cli/src/repository.rs:477-490 | a Closed or ready repository at the expected generation starts quiescing and issues the handle that can end it |
| `RepositoryObject.RepositoryMachine.FinishQuiesce` | cli/src/repository.rs:494-524 | only a confirmed drain ends quiescing, in Closed or in a tombstone with its retention deadline; a deadline that would overflow leaves everything as it was |
| `RepositoryObject.RepositoryMachine.RestoreTombstone` | cli/src/repository.rs:528-547 | a tombstone goes back to Closed strictly before its deadline, with the recovery reference recorded |
| `RepositoryObject.RepositoryMachine.StartPurge` | cli/src/repository.rs:550-570 | deletion starts from Failed at any time, or from a tombstone from its deadline on, with the purge reference recorded |
| `RepositoryObject.RepositoryMachine.FinishPurge` | cli/src/repository.rs:574-594 | a confirmed deletion retires the repository; a failed one returns it to Failed |
| `RepositoryObject.RepositoryMachine.AdmitWork` | cli/src/repository.rs:598-610 | admission by state and kind of work; only the clock moves |
| `Catalogs.EmbeddedModelCannotFail` | cli/src/catalog.rs:733-771 | for any limits the manager accepts, the lifecycle model run by an opening reaches ready in the requested mode |
| `Catalogs.MatchIsProof` | cli/src/catalog.rs:782-805 | a yes proves identity and contents of the directory, a no disproves them, and passing trouble gives neither |
| `CatalogRuns.StepKeepsInv` | cli/src/catalog.rs:434-452 | every move, crash included, keeps memory equal to the visible catalog unless poisoned, every catalog that may be brought back well-formed, fences on Quiescing entries, and building confined to a journal no crash can take back |
| `CatalogRuns.CrashSafety` | cli/src/catalog.rs:541-615 | in every undisturbed run, with crashes anywhere, whatever unsynced renames they undo and whatever catalog the next start finds, a Validated entry's recorded directory is whole in exactly one place and a Closed or Quiescing entry's is published and synced; no other directory stands in the repository places |
| `CatalogRuns.KilledRenameStaysInDanger` | cli/src/catalog.rs:686-694 | a process killed between rename and sync leaves a rename that crashes after the next start can still undo, and Closed is not warranted without a new sync |
| `CatalogRuns.EntriesStay` | cli/src/catalog.rs:434-452 | whatever catalog stands or may be brought back after a move stood so before, or succeeds the current one with no entry lost or renamed, proven evidence unchanged, and a changed entry at the new, larger generation |
| `CatalogRuns.NeverRolledBack` | cli/src/catalog.rs:637-702 | an entry that is proven in every catalog a crash could bring back never fails, and one that is so created stays Closed or Quiescing with the same evidence, through any crashes and reopenings |
| `CatalogRuns.AdmittedMeansClosed` | cli/src/catalog.rs:813-819 | no handle works on a repository whose visible entry is anything but Closed, poisoned manager or not |
| `CatalogRuns.FencedIffQuiescing` | cli/src/catalog.rs:807-811 | while the manager is usable its memory is the catalog on disk and a live handle is fenced exactly when its entry is Quiescing |
| `CatalogRuns.FenceSticks` | cli/src/catalog.rs:807-811 | a fence stays up until its handle is gone |
| `CatalogRuns.NoWorkAfterQuiesce` | cli/src/catalog.rs:840-874 | after a written quiesce, no operation of a handle live at that moment is ever admitted again |
| `CatalogRuns.ReceiptCompletesOnce` | cli/src/catalog.rs:884-924 | a receipt's generation completes durably at most once in any run, catalogs brought back included, and only with no live handle |
| `CatalogScan.ScanAlwaysHasRoom` | cli/src/catalog.rs:86-111 | for limits the manager accepts, in every undisturbed run with any crashes: the scan before a catalog write or an admitted creation never runs out of entries, as long as failed writes have left no more temporary files than the ceiling has to spare |
| `CatalogScan.SmallestCeilingIsTight` | cli/src/catalog.rs:99-103 | at the smallest accepted ceiling, a full catalog of created repositories leaves room for exactly one more entry |
| `CatalogRuns.VisibleQuiesceCanBeLost` | cli/src/catalog.rs:857-860 | the input that shows it: an unsynced quiesce, a kill, a restart and a repeated quiesce that writes nothing; the next crash can bring back Closed |
| `CatalogRuns.WrittenMeansDurable` | cli/src/catalog.rs:434-452 | what a manager that has completed a catalog write since its start shows as Quiescing is so in every catalog a crash could bring back |
| `CatalogRuns.VisibleQuiesceIsDurableIff` | cli/src/catalog.rs:832-860 | for everything a manager can show, its visible quiesce is durable in every consistent state that looks the same if and only if its generation is past the one it started from |
| `CatalogRuns.LastQuiesceIsDurableIff` | cli/src/catalog.rs:832-860 | over all runs: a quiesce that is the last change of the catalog shown is durable in every run that leads to a manager showing it if and only if that manager has completed a catalog write since its start |
| `CatalogRuns.DurableQuiesceHolds` | cli/src/catalog.rs:832-874 | a durable quiesce holds through every move, crash and restart until something is written for that entry |
| `CatalogManager.PositionOf` | cli/src/catalog.rs:845-852 | finds an entry with the id, or there is none |
| `CatalogManager.Manager.constructor` | cli/src/catalog.rs:396-406 | a root whose first catalog is written holds the empty catalog at generation one and no running manager |
| `CatalogManager.Manager.Initialize` | cli/src/catalog.rs:384-416 | the first start: whatever happens to the initial write, there is then no catalog or the empty one; without faults it succeeds exactly for valid limits |
| `CatalogManager.Manager.Start` | cli/src/catalog.rs:407-413 | memory is the durable catalog, usable and with no handles |
| `CatalogManager.Manager.Hook` | cli/src/catalog.rs:426-432 | a fault point passes, or poisons the manager and changes nothing else, or the process dies |
| `CatalogManager.Manager.Persist` | cli/src/catalog.rs:434-452 | memory changes only with a completed write, after which no crash can bring back an older catalog; an uncertain write poisons; a refusal by the scan, the counter or the encoding changes nothing |
| `CatalogManager.Manager.WriteCompletely` | cli/src/catalog/fs.rs:213-239 | the write and its syncs: no crash can bring back an older catalog |
| `CatalogManager.Manager.WriteUncertainly` | cli/src/catalog/fs.rs:213-239 | the write reports an error after nothing, an unsynced rename, or all of its work: the manager is poisoned and its memory is as before |
| `CatalogManager.Manager.ReserveEntry` | cli/src/catalog.rs:560-573 | success appends the identifier as Reserved and touches no directory; a refusal that does not poison changes nothing |
| `CatalogManager.Manager.CreateNew` | cli/src/catalog.rs:560-591 | creation from the reservation on, with the promises of Create |
| `CatalogManager.Manager.CreateStaging` | cli/src/catalog/fs.rs:313-318 | success adds exactly the staged directory where none stood; an existing one is an I/O error; the journal is untouched |
| `CatalogManager.Manager.BuildStore` | cli/src/catalog.rs:596-602 | success returns the evidence that verifying the staged directory gives |
| `CatalogManager.Manager.Publish` | cli/src/catalog/fs.rs:326-350 | success moves the staged directory, with its identity, to a free published place, synced; nothing to move or something in the way is an error; no other repository's directories change |
| `CatalogManager.Manager.Materialize` | cli/src/catalog.rs:593-615 | success means durably Closed; an error that does not poison leaves the entry Reserved or Validated; without faults it succeeds |
| `CatalogManager.Manager.Settle` | cli/src/catalog.rs:603-615 | the second half of materializing, with the same promises |
| `CatalogManager.Manager.PublishAndClose` | cli/src/catalog.rs:607-615 | from a Validated entry with its directory staged to a durably Closed one; an error that does not poison leaves it Validated |
| `CatalogManager.Manager.Populate` | cli/src/catalog.rs:575-591 | after a durable reservation: Closed, or a poisoned manager, or Failed; still Reserved only if the journal refused to record the failure |
| `CatalogManager.Manager.Create` | cli/src/catalog.rs:541-591 | Ok means that the expected catalog generation was the current one, that id and UUID were free, and that the new entry is Closed in a catalog no crash can take back; without faults Conflict comes back, with nothing changed, exactly when the generation differs or the id or UUID is taken; other entries are never touched; an error that does not poison leaves the new entry absent, Reserved or Failed, and without faults Failed; without faults a permitted creation succeeds if nothing stands at the new place, which in an undisturbed history is always so |
| `CatalogManager.Manager.CreatedIsNeverRolledBack` | cli/src/catalog.rs:541-702 | at any later point of an undisturbed history, whatever crashes and restarts lie between and whatever they undid, what a successful creation left is Closed or Quiescing, the same, in every catalog a start may find, with its directory published and synced |
| `CatalogManager.Manager.NewPlaceIsFree` | cli/src/catalog.rs:558-562 | in an undisturbed history no directory stands at the place of an identifier that no entry has |
| `CatalogManager.Manager.CheckPublished` | cli/src/catalog.rs:782-805 | a definite answer about a published directory is the truth, and without passing trouble there is one |
| `CatalogManager.Manager.EnsurePublished` | cli/src/catalog.rs:637-702 | success leaves the recorded directory published, synced and nowhere else; a refused publication poisons the manager |
| `CatalogManager.Manager.Conclude` | cli/src/catalog.rs:695-699 | journals Closed or Failed for one entry and changes nothing else |
| `CatalogManager.Manager.ReconcileValidated` | cli/src/catalog.rs:637-702 | ends Closed exactly when the recorded directory stood whole in exactly one place, else Failed |
| `CatalogManager.Manager.ReconcileQuiescing` | cli/src/catalog.rs:637-702 | only definite evidence moves the entry; passing trouble leaves it alone |
| `CatalogManager.Manager.ReconcileEntry` | cli/src/catalog.rs:637-702 | settles one entry and nothing else |
| `CatalogManager.Manager.Reconcile` | cli/src/catalog.rs:637-702 | a calm pass leaves every entry exactly in its reconciled phase; with faults an entry that was not Quiescing still ends there if the pass succeeds |
| `CatalogManager.Manager.Open` | cli/src/catalog.rs:384-416 | a reopening that succeeds leaves every entry settled against the directories found; without faults it succeeds |
| `CatalogManager.Manager.OpenRepository` | cli/src/catalog.rs:704-780 | a slot appears only for a Closed entry with this id whose published directory is the recorded one, within the handle limit; a disproved directory makes exactly that entry Failed; without faults opening succeeds exactly when it is permitted; a second handle is a Conflict, and a refusal before the check changes nothing |
| `CatalogManager.Manager.OpenProved` | cli/src/catalog.rs:733-780 | once the directory is proved, only a store failure stops the slot, and then nothing changes |
| `CatalogManager.Manager.RunModel` | cli/src/catalog.rs:733-771 | the embedded four-generation sequence always ends ready |
| `CatalogManager.Manager.DropHandleOf` | cli/src/catalog.rs:970-975 | the slot goes away and nothing else changes |
| `CatalogManager.Manager.BeginQuiesce` | cli/src/catalog.rs:840-874 | Ok means the entry is Quiescing and its handle fenced, with one write from Closed and none when repeated; it is durable if the entry was Closed or the manager has completed a catalog write since its start; a refusal before writing leaves no fence; an uncertain write keeps it; a stale entry generation is a Conflict, and without faults it succeeds exactly when permitted |
| `CatalogManager.Manager.QuiesceClosed` | cli/src/catalog.rs:862-873 | the write from Closed: success is durable and fences the handle |
| `CatalogManager.Manager.CompleteQuiesce` | cli/src/catalog.rs:884-924 | needs the receipt of the current Quiescing generation and no live handle; changes that entry only, to Closed exactly when its recorded directory is published and to Failed when it is not; without faults it changes the entry exactly when permitted; any other receipt is a Conflict, a live handle is Busy, and neither changes anything |
| `Bijection.MatcherIsExact` | fuzz/src/result_format.rs:59-77 | the greedy matcher, which never backtracks, accepts exactly the pairs of sequences related by one injective blank-node renaming over the whole sequence, nested triple terms included |
| `Bijection.MatchesItself` | fuzz/src/result_format.rs:59-77 | every sequence matches itself |
| `Bijection.MatchIsSymmetric` | fuzz/src/result_format.rs:59-77 | matching does not depend on which side is called left |
| `Bijection.BlankSound` | fuzz/src/result_format.rs:16-26 | matching a pair keeps the two maps inverse to each other and every pair they hold; on success the renaming takes the left node to the right one |
| `Bijection.BlankComplete` | fuzz/src/result_format.rs:16-26 | whenever some injective renaming extends the maps and fits the pair, the pair is accepted and the renaming still extends the maps |
| `Bijection.TermSound` | fuzz/src/result_format.rs:29-57 | accepted terms are related by the renaming built so far |
| `Bijection.TermComplete` | fuzz/src/result_format.rs:29-57 | terms related by a renaming that extends the maps are accepted |
| `BijectionObject.BlankNodeBijection.Matches` | fuzz/src/result_format.rs:16-26 | the two hash maps, updated in place, follow the specification |
| `BijectionObject.BlankNodeBijection.SubjectsMatch` | fuzz/src/result_format.rs:29-41 | subjects, in place |
| `BijectionObject.BlankNodeBijection.TermsMatch` | fuzz/src/result_format.rs:43-57 | terms and nested triples, threading the maps in place |
| `BijectionObject.BlankNodeBijection.SolutionsMatch` | fuzz/src/result_format.rs:64-76 | one solution's variables, boundness and values, in place |
| `BijectionObject.SolutionSequencesMatch` | fuzz/src/result_format.rs:59-77 | returns true if and only if one injective renaming relates the two whole sequences |
| `EntityTags.TagListIsExact` | cli/src/http_validators.rs:93-154 | a text parses to a list of tags if and only if it prints 1 to 32 legal strong or weak tags with optional whitespace |
| `EntityTags.AnyIsExact` | cli/src/http_validators.rs:93-103 | the wildcard is recognised exactly when it stands alone |
| `EntityTags.JoinParsesToConcatenation` | cli/src/http_validators.rs:93-154 | two lists joined by a comma parse to their concatenation exactly when it has at most 32 tags |
| `EntityTags.HeaderConcatenates` | cli/src/http_validators.rs:64-91 | repeated header lines parse to the concatenation of their lists if and only if they are visible ASCII and fit the byte and tag limits together |
| `EntityTags.SkipOwsFrom` | cli/src/http_validators.rs:156-164 | the cursor stops at the first byte that is not optional whitespace |
| `EntityTags.ScanOpaqueFrom` | cli/src/http_validators.rs:117-129 | the scan stops at the closing quote or reports the first fault |
| `EntityTags.ReadTagFrom` | cli/src/http_validators.rs:107-133 | one tag at the cursor, weak or strong, or the error the code reports |
| `EntityTags.NextTagFrom` | cli/src/http_validators.rs:137-147 | end of list, next tag, or the separator errors |
| `EntityTags.ReadTagList` | cli/src/http_validators.rs:93-154 | the cursor loop computes the parser proved exact above |
| `EntityTags.ReadHeader` | cli/src/http_validators.rs:64-91 | the joining loop with its running size limit computes the header parse |
| `EntityTagLists.StandardListsParse` | cli/src/http_validators.rs:93-154 | a list of the standard, with possibly empty elements, parses to its tags if and only if no element is empty and there are at most 32; with an empty element it is always an error |
| `EntityTagLists.AdjacentCommasAreRefused` | cli/src/http_validators.rs:141-147 | the input that shows it: two tags with two commas between them |
| `EntityTagLists.InvisibleLineIsRefused` | cli/src/http_validators.rs:69-71 | a header line with a character that is not visible ASCII makes the whole header an error |
| `EntityTagLists.ObsTextIsRefused` | cli/src/http_validators.rs:69-71 | the input that shows it: a legal tag with a letter beyond ASCII, taken by the list parser and refused by the header |
| `Multipart.FindIsFirst` | cli/src/multipart.rs:162-167 | a substring search returns the first occurrence, or there is none |
| `Multipart.MarkersDoNotOverlap` | cli/src/multipart.rs:199-207 | for a valid boundary the marker, line break and delimiter, cannot overlap itself |
| `Multipart.NextValidIsFirst` | cli/src/multipart.rs:199-207 | so a search over non-overlapping markers misses nothing: it finds the first properly ended delimiter or there is none |
| `MultipartGrammar.FirstDelimiterIsOpening` | cli/src/multipart.rs:189-197 | the opening delimiter is found exactly where the body begins with one, else after the first line break that leads to one |
| `MultipartGrammar.PartLine` | cli/src/multipart.rs:218-243 | padding and a line break after a delimiter announce a part |
| `MultipartGrammar.PartLineShape` | cli/src/multipart.rs:218-243 | and nothing else does |
| `MultipartGrammar.ClosingLine` | cli/src/multipart.rs:218-243 | two dashes, padding, and the end or a line break close the message |
| `MultipartGrammar.ClosingLineShape` | cli/src/multipart.rs:218-243 | and nothing else does |
| `MultipartGrammar.OnePartReads` | cli/src/multipart.rs:161-179 | a printed part is read back exactly when no delimiter begins inside its content |
| `MultipartGrammar.OnePartShape` | cli/src/multipart.rs:161-179 | whatever is read as a part is the print of one, its content free of delimiters |
| `MultipartGrammar.RoundTrip` | cli/src/multipart.rs:130-187 | parsing a printed message returns its parts if and only if there are 1 to 1024 of them and no content holds a delimiter |
| `MultipartGrammar.MarkerFreeContentsAreClear` | cli/src/multipart.rs:98-207 | contents in which the marker does not occur hold no delimiter, whatever follows them |
| `MultipartGrammar.ParsingIsExact` | cli/src/multipart.rs:130-187 | on every body, parsing succeeds with exactly the parts of the message printed from its first delimiter on |
| `MultipartGrammar.LoopErrorsUnreachable` | cli/src/multipart.rs:140-160 | the errors for a truncated delimiter and for one that does not end its line are never reported |
| `MultipartHeaders.LinesOfJoin` | cli/src/multipart.rs:249 | splitting at line breaks undoes joining |
| `MultipartHeaders.JoinOfLines` | cli/src/multipart.rs:249 | joining undoes splitting, and no line holds a line break |
| `MultipartHeaders.HeadersAreExact` | cli/src/multipart.rs:245-301 | a header block gives a content type if and only if it is UTF-8, every line is a named unfolded header, and exactly one is a non-empty Content-Type in any case |
| `MultipartHeaders.PlainHeaderIsBlock` | cli/src/multipart.rs:245-301 | a plain ASCII Content-Type header is such a block, with that content type |
| `MultipartText.BlockDecodes` | cli/src/multipart.rs:246-249 | a header block is UTF-8 if and only if each of its lines is, and decodes to their join |
| `MultipartText.BlockHeaders` | cli/src/multipart.rs:245-301 | line by line: a block gives a content type if and only if every line is UTF-8 and a header, and exactly one is a non-empty Content-Type |
| `MultipartParser.ReadSuffix` | cli/src/multipart.rs:218-243 | the padding loop computes the delimiter line |
| `MultipartParser.ReadHeaders` | cli/src/multipart.rs:245-301 | the loop over header lines computes the content type or the first error |
| `MultipartParser.ReadPart` | cli/src/multipart.rs:161-179 | one part as a slice of the body that stops at the first delimiter from its start on |
| `MultipartParser.ParseBody` | cli/src/multipart.rs:130-187 | the cursor loop terminates and returns the specified parts as in-bounds, disjoint, ordered slices, each ending at the first delimiter after its start |
| `MultipartMessages.StandardMessagesParse` | cli/src/multipart.rs:130-187 | a message of the standard, whose parts may lack header lines or end after them, is read back if and only if it has 1 to 1024 parts, every one has good header lines, a blank line and a content, and no content holds a delimiter |
| `MultipartStandard.StandardPartReads` | cli/src/multipart.rs:161-179 | the same for one part; without header lines it is an error |
| `MultipartStandard.HeaderlessPartIsRefused` | cli/src/multipart.rs:161-173 | a part that begins with the blank line is an error, whatever it contains and whatever follows |
| `MultipartWitnesses.HeaderlessMessageIsRefused` | cli/src/multipart.rs:161-173 | the input that shows it: one part without header lines |
| `MultipartStandard.ContentlessPartSwallows` | cli/src/multipart.rs:173-179 | a part that ends after its headers is never read as empty: what is read instead, if anything, begins with the delimiter that should have ended it |
| `MultipartWitnesses.ContentlessMessageIsRefused` | cli/src/multipart.rs:173-175 | an input that shows it: one part that ends after its header is an error |
| `MultipartWitnesses.ContentlessMessageIsMisread` | cli/src/multipart.rs:173-179 | two parts, the first ending after its header, are read as one whose body is the second as it stands, for any boundary and any content without the marker |
| `MultipartWitnesses.TwoPartsReadAsOne` | cli/src/multipart.rs:173-179 | an input that shows it |
| `MultipartWitnesses.FoldedHeaderIsRefused` | cli/src/multipart.rs:250-254 | with a folded header line no part is read, whatever else it holds |

## Left out

- Metrics, histograms, budget handles and response building of the workload controller: they do not affect scheduling.
- Condition-variable waiting, poll intervals and mutex poisoning: each locked section is one atomic step, with any clock reading and any set of cancelled requests; that cancellation flags never reset is not needed by any proof.
- Principal keys and internal identifiers: opaque values, not SHA-256 digests or UUID text; a new identifier is any value, and one that is taken is refused as in the code.
- Catalog tombstone and restore phases, and the encoding of the catalog file with its check of stored limits: the model holds generic entries as values.
- Interference with the directories inside an operation, between its check and its write: the source disclaims it too.
- The content scan behind directory verification: an oracle on the directory.
- Lease registry and the mapping from HTTP sessions to leases: only easy table members.
- Evaluation of If-Match and If-None-Match against a resource: branching over parsed lists only.
- Extraction of the boundary parameter from a content type: the parser is modelled for a given boundary, and the theorems take the validated ones.
- The searching algorithm of the substring library: modelled by its result, the first occurrence and the non-overlapping occurrences.
- Operations, access control, graph store, service description, SPARQL evaluation and storage: not part of this model.

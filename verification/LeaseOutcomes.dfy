/** What a lease promises its holder: what time makes of it, which calls it grants, and that a commit
    result that is known is never lost. */
module LeaseOutcomes {
  import opened Common
  import opened Leases
  import opened LeaseProperties

  // ---- time, in closed form ----

  /** A terminal outcome is kept for the retention period, then only the fact of an attempt. */
  function Remembered(s: Lease, outcome: Outcome, since: nat, now: nat): Phase {
    if now < since + s.limits.retention then Terminal(outcome, since) else Expired(outcome.IsCommitAttempt())
  }

  function CleaningUp(s: Lease, until: nat, cause: CancelCause, now: nat): Phase {
    if now < until then Cancelling(until, cause) else Remembered(s, CleanupOverdue(cause), until, now)
  }

  /** The phase of an untouched lease at any time, read off its deadlines. */
  function PhaseAt(s: Lease, now: nat): Phase {
    match s.phase
    case Idle => if now < s.deadline then Idle else Remembered(s, RolledBack(ExpiredReason), s.deadline, now)
    case Operating =>
      if now < s.deadline then Operating else CleaningUp(s, s.deadline + s.limits.cancelGrace, ExpiryCancel, now)
    case Cancelling(until, cause) => CleaningUp(s, until, cause, now)
    case CommitAttempted(decideBy) =>
      if now < decideBy then s.phase else Remembered(s, CommitIndeterminate, decideBy, now)
    case Terminal(outcome, since) => Remembered(s, outcome, since, now)
    case Expired(_) => s.phase
  }

  /** The settle loop, whichever transitions it takes one by one, ends in the closed form. */
  lemma {:induction false} SettleIsClosedForm(s: Lease, now: nat)
    requires WellFormed(s)
    ensures Settle(s, now) == (s.(phase := PhaseAt(s, now)), None)
    decreases Remaining(s.phase)
  {
    DueStep(s, now);
    if DueAt(s, now).DueTo? {
      SettleIsClosedForm(s.(phase := DueAt(s, now).phase), now);
    }
  }

  /** The caller is the lease's own, and time has not gone back. */
  predicate Entered(s: Lease, call: Call) {
    call.binding == s.binding && s.lastSeen <= call.at
  }

  /** The lease as a call finds it. */
  function Found(s: Lease, at: nat): Lease {
    s.(lastSeen := at, phase := PhaseAt(s, at))
  }

  /** Every call is the command on the lease as time has left it; a stranger, or a call from the past, is
      refused and changes nothing. */
  lemma CallFinds(s: Lease, call: Call, cmd: Command)
    requires WellFormed(s)
    ensures Entered(s, call) ==>
        Step(s, call, cmd) == Apply(Found(s, call.at), call.at, cmd) && WellFormed(Found(s, call.at))
    ensures !Entered(s, call) ==>
        Step(s, call, cmd) == (s, Err(if call.binding != s.binding then BindingMismatch else TimeRegression))
  {
    if Entered(s, call) {
      EnterKeeps(s, call);
      var seen := s.(lastSeen := call.at);
      assert WellFormed(seen);
      SettleIsClosedForm(seen, call.at);
      assert PhaseAt(seen, call.at) == PhaseAt(s, call.at);
    }
  }

  // ---- operations ----

  /** A lease nobody is working on, still within its deadline at `at`. */
  predicate Free(s: Lease, at: nat) {
    WellFormed(s) && s.phase.Idle? && s.lastSeen <= at < s.deadline
  }

  function By(s: Lease, at: nat): Call {
    Call(s.binding, at)
  }

  /** A free lease starts an operation, and finishing it in time gives the lease back as it was, with one
      more operation counted; until then the lease is busy for everything but cancellation. */
  lemma OperationRoundTrip(s: Lease, t1: nat, t2: nat, key: CommitKey, n: nat, why: RollbackReason)
    requires Free(s, t1) && t1 <= t2 < s.deadline && s.opSeq < U64_MAX
    ensures var (u, r) := Step(s, By(s, t1), BeginOperation);
      && r.Ok? && r.value.OperationBegun?
      && Step(u, By(s, t2), FinishOperation(r.value.handle)) ==
           (s.(opSeq := s.opSeq + 1, lastSeen := t2), Ok(OperationEnded(Completed)))
      && Step(u, By(s, t2), BeginOperation).1 == Err(Busy)
      && Step(u, By(s, t2), Renew(s.generation, n)).1 == Err(Busy)
      && Step(u, By(s, t2), RollBack(why)).1 == Err(Busy)
      && Step(u, By(s, t2), BeginCommit(key)).1 == Err(Busy)
  {
    CallFinds(s, By(s, t1), BeginOperation);
    var u := Step(s, By(s, t1), BeginOperation).0;
    StepKeeps(s, By(s, t1), BeginOperation);
    CallFinds(u, By(s, t2), BeginOperation);
    CallFinds(u, By(s, t2), Renew(s.generation, n));
    CallFinds(u, By(s, t2), RollBack(why));
    CallFinds(u, By(s, t2), BeginCommit(key));
    CallFinds(u, By(s, t2), FinishOperation(Step(s, By(s, t1), BeginOperation).1.value.handle));
  }

  /** Cleanup until `until`, or what is remembered of it, at the time the lease was last seen. */
  predicate InCleanup(s: Lease, until: nat, cause: CancelCause) {
    s.phase == CleaningUp(s, until, cause, s.lastSeen)
  }

  /** Asking again, or looking, does not extend the cleanup. */
  lemma CleanupGoesOn(s: Lease, cmd: Command, at: nat, until: nat, cause: CancelCause)
    requires WellFormed(s) && s.lastSeen <= at && InCleanup(s, until, cause) && (cmd.RequestCancel? || cmd.Observe?)
    ensures var u := Step(s, By(s, at), cmd).0; u == s.(lastSeen := at, phase := CleaningUp(s, until, cause, at))
    ensures at < until && cmd.RequestCancel? ==> Step(s, By(s, at), cmd).1 == Ok(CancelSeen(Cancelling(until, cause)))
  {
    CallFinds(s, By(s, at), cmd);
    assert PhaseAt(s, at) == CleaningUp(s, until, cause, at);
  }

  lemma Acknowledges(s: Lease, h: OperationHandle, at: nat, until: nat, cause: CancelCause)
    requires WellFormed(s) && s.lastSeen <= at && InCleanup(s, until, cause) && Outstanding(s, h)
    ensures var (u, r) := Step(s, By(s, at), FinishOperation(h));
      if at < until then
        && u == s.(lastSeen := at,
                   phase := Terminal(RolledBack(if cause.ExpiryCancel? then ExpiredReason else CancelledReason), at))
        && r == Ok(OperationEnded(CancelledAcknowledged))
      else
        && u == s.(lastSeen := at, phase := Remembered(s, CleanupOverdue(cause), until, at))
        && r == Err(if at < until + s.limits.retention then AlreadyTerminal else LeaseExpired)
  {
    CallFinds(s, By(s, at), FinishOperation(h));
    assert PhaseAt(s, at) == CleaningUp(s, until, cause, at);
  }

  /** When a cancellation at `at` ends, and what it is put down to: the deadline may have come first. */
  function CleanupEnd(s: Lease, at: nat): nat {
    (if s.deadline <= at then s.deadline else at) + s.limits.cancelGrace
  }

  function CleanupCause(s: Lease, at: nat): CancelCause {
    if s.deadline <= at then ExpiryCancel else RequestedCancel
  }

  lemma CancelStarts(s: Lease, at: nat)
    requires WellFormed(s) && s.phase.Operating? && s.lastSeen <= at
    ensures var u := Step(s, By(s, at), RequestCancel).0;
      u == s.(lastSeen := at, phase := CleaningUp(s, CleanupEnd(s, at), CleanupCause(s, at), at))
  {
    CallFinds(s, By(s, at), RequestCancel);
  }

  /** An operation that is cancelled, or overtaken by the deadline, has the grace period to acknowledge,
      however often the cancellation is repeated: then the rollback is proven, at that time; after it the
      cleanup is on record as overdue. */
  lemma CancelledOperation(s: Lease, h: OperationHandle, t1: nat, t2: nat, t3: nat)
    requires WellFormed(s) && s.phase.Operating? && Outstanding(s, h) && s.lastSeen <= t1 <= t2 <= t3
    ensures var until, cause := CleanupEnd(s, t1), CleanupCause(s, t1);
      var u := Step(Step(s, By(s, t1), RequestCancel).0, By(s, t2), RequestCancel).0;
      var (v, r) := Step(u, By(s, t3), FinishOperation(h));
      && u.phase == CleaningUp(s, until, cause, t2)
      && v.phase == (if t3 < until then
                       Terminal(RolledBack(if cause.ExpiryCancel? then ExpiredReason else CancelledReason), t3)
                     else Remembered(s, CleanupOverdue(cause), until, t3))
      && (r == Ok(OperationEnded(CancelledAcknowledged)) <==> t3 < until)
  {
    hide Step, WellFormed, CleaningUp, Remembered;
    CancelStarts(s, t1);
    StepKeeps(s, By(s, t1), RequestCancel);
    var first := Step(s, By(s, t1), RequestCancel).0;
    SameCleanup(s, first);
    CleanupGoesOn(first, RequestCancel, t2, CleanupEnd(s, t1), CleanupCause(s, t1));
    StepKeeps(first, By(s, t2), RequestCancel);
    var u := Step(first, By(s, t2), RequestCancel).0;
    SameCleanup(s, u);
    SameCleanup(first, u);
    OutstandingSurvives(s, By(s, t1), RequestCancel, h);
    OutstandingSurvives(first, By(s, t2), RequestCancel, h);
    Acknowledges(u, h, t3, CleanupEnd(s, t1), CleanupCause(s, t1));
  }

  lemma SameCleanup(s: Lease, t: Lease)
    requires s.limits == t.limits
    ensures forall until: nat, cause, now: nat :: CleaningUp(s, until, cause, now) == CleaningUp(t, until, cause, now)
    ensures forall o, since: nat, now: nat :: Remembered(s, o, since, now) == Remembered(t, o, since, now)
  {
  }

  predicate Ending(cmd: Command) {
    cmd.RequestCancel? || cmd.RollBack?
  }

  function ReasonOf(cmd: Command): RollbackReason
    requires Ending(cmd)
  {
    if cmd.RollBack? then cmd.why else CancelledReason
  }

  /** A free lease is rolled back at once by either call, and repeating either one, while it is remembered,
      succeeds and changes nothing. */
  lemma RollbackIsIdempotent(s: Lease, first: Command, again: Command, t1: nat, t2: nat)
    requires Free(s, t1) && Ending(first) && Ending(again) && t1 <= t2 < t1 + s.limits.retention
    ensures var done := Terminal(RolledBack(ReasonOf(first)), t1);
      var (u, r) := Step(s, By(s, t1), first);
      && r.Ok? && u == s.(lastSeen := t1, phase := done)
      && Step(u, By(s, t2), again) ==
           (u.(lastSeen := t2),
            Ok(if again.RollBack? then RolledBackAs(done.outcome) else CancelSeen(done)))
  {
    CallFinds(s, By(s, t1), first);
    StepKeeps(s, By(s, t1), first);
    CallFinds(Step(s, By(s, t1), first).0, By(s, t2), again);
  }

  predicate Asks(cmd: Command) {
    cmd.BeginOperation? || cmd.Renew? || cmd.BeginCommit?
  }

  /** A lease that has ended grants nothing more, and says whether it still remembers how it ended. */
  lemma EndedRefuses(s: Lease, at: nat, cmd: Command)
    requires WellFormed(s) && s.lastSeen <= at && Asks(cmd) && (PhaseAt(s, at).Terminal? || PhaseAt(s, at).Expired?)
    ensures Step(s, By(s, at), cmd) ==
        (Found(s, at), Err(if PhaseAt(s, at).Terminal? then AlreadyTerminal else LeaseExpired))
  {
    CallFinds(s, By(s, at), cmd);
  }

  /** A handle or an attempt of another lease, another generation or another operation does nothing. */
  lemma ForeignIsStale(s: Lease, at: nat, h: OperationHandle, attempt: CommitAttempt, result: CommitResult)
    requires WellFormed(s) && s.lastSeen <= at
    ensures h.instance != s.instance || h.generation != s.generation || h.opSeq != s.opSeq ==>
        Step(s, By(s, at), FinishOperation(h)) == (Found(s, at), Err(StaleHandle))
    ensures attempt.instance != s.instance || attempt.generation != s.generation ==>
        Step(s, By(s, at), FinishCommit(attempt, result)) == (Found(s, at), Err(StaleHandle))
  {
    CallFinds(s, By(s, at), FinishOperation(h));
    CallFinds(s, By(s, at), FinishCommit(attempt, result));
  }

  /** Looking shows the lease as time has left it. A lost response is noted and changes nothing else;
      nothing else notes it or takes the note back. */
  lemma LossIsOnlyNoted(s: Lease, at: nat, cmd: Command)
    requires WellFormed(s) && s.lastSeen <= at
    ensures Step(s, By(s, at), Observe) == (Found(s, at), Ok(Seen))
    ensures Step(s, By(s, at), ResponseLost) == (Found(s, at).(responseLost := true), Ok(Seen))
    ensures cmd != ResponseLost ==> Step(s, By(s, at), cmd).0.responseLost == s.responseLost
  {
    CallFinds(s, By(s, at), Observe);
    CallFinds(s, By(s, at), ResponseLost);
    CallFinds(s, By(s, at), cmd);
  }

  // ---- renewal ----

  /** A deadline that a renewal may grant. */
  predicate Grantable(s: Lease, at: nat, requested: nat, deadline: nat) {
    deadline <= at + requested && deadline <= at + s.limits.maxExtension && deadline <= s.absoluteDeadline
  }

  /** A renewal with the current generation grants the latest deadline it may, and is refused exactly when
      that gains nothing. */
  lemma RenewalIsExact(s: Lease, at: nat, requested: nat)
    requires Free(s, at) && 0 < requested <= U64_MAX
    ensures var (t, r) := Step(s, By(s, at), Renew(s.generation, requested));
      && (r.Ok? <==> exists d: nat :: Grantable(s, at, requested, d) && s.deadline < d)
      && (r.Ok? ==>
            && Grantable(s, at, requested, t.deadline)
            && (forall d: nat :: Grantable(s, at, requested, d) ==> d <= t.deadline)
            && t == s.(lastSeen := at, deadline := t.deadline, generation := s.generation + 1)
            && r.value == Renewed(Renewal(t.generation, t.deadline, t.deadline - at)))
      && (r.Err? ==> r.error == NoExtension && t == s.(lastSeen := at))
  {
    CallFinds(s, By(s, at), Renew(s.generation, requested));
    ApplyRenewKeeps(Found(s, at), at, s.generation, requested);
    var latest := Min(at + Min(requested, s.limits.maxExtension), s.absoluteDeadline);
    assert Grantable(s, at, requested, latest);
  }

  /** Any other generation is stale. */
  lemma StaleRenewal(s: Lease, at: nat, expected: nat, requested: nat)
    requires Free(s, at) && expected != s.generation
    ensures Step(s, By(s, at), Renew(expected, requested)) == (s.(lastSeen := at), Err(StaleGeneration))
  {
    CallFinds(s, By(s, at), Renew(expected, requested));
  }

  // ---- the commit ----

  /** The outcome that says what happened. */
  predicate Tells(o: Outcome, truth: Truth) {
    (o.Committed? <==> truth.CommittedDurably?) && (o.CommitProvenAbsent? <==> truth.NeverCommitted?)
  }

  /** A free lease can be committed; until the result or the end of the wait, everything else is refused. */
  lemma CommitExcludes(s: Lease, key: CommitKey, other: CommitKey, t1: nat, t2: nat, n: nat, why: RollbackReason)
    requires Free(s, t1) && t1 <= t2 < t1 + s.limits.commitWait
    ensures var (u, r) := Step(s, By(s, t1), BeginCommit(key));
      && r == Ok(CommitBegun(CommitAttempt(s.instance, s.id, s.generation)))
      && u == s.(lastSeen := t1, phase := CommitAttempted(t1 + s.limits.commitWait), commitKey := Some(key),
                 commitAttempted := true)
      && Step(u, By(s, t2), BeginOperation).1 == Err(CommitAlreadyAttempted)
      && Step(u, By(s, t2), Renew(s.generation, n)).1 == Err(CommitAlreadyAttempted)
      && Step(u, By(s, t2), RequestCancel).1 == Err(CommitAlreadyAttempted)
      && Step(u, By(s, t2), RollBack(why)).1 == Err(CommitAlreadyAttempted)
      && Step(u, By(s, t2), BeginCommit(other)).1 == Err(CommitAlreadyAttempted)
  {
    CallFinds(s, By(s, t1), BeginCommit(key));
    StepKeeps(s, By(s, t1), BeginCommit(key));
    var u := Step(s, By(s, t1), BeginCommit(key)).0;
    CallFinds(u, By(s, t2), BeginOperation);
    CallFinds(u, By(s, t2), Renew(s.generation, n));
    CallFinds(u, By(s, t2), RequestCancel);
    CallFinds(u, By(s, t2), RollBack(why));
    CallFinds(u, By(s, t2), BeginCommit(other));
  }

  /** A result that is reported is recorded as it is, at the time of the report. */
  lemma ReportIsRecorded(s: Lease, call: Call, attempt: CommitAttempt, result: CommitResult, truth: Truth)
    requires WellFormed(s) && ResultAgrees(result, truth) && Step(s, call, FinishCommit(attempt, result)).1.Ok?
    ensures var (t, r) := Step(s, call, FinishCommit(attempt, result));
      && t.phase.Terminal? && t.phase.at == call.at && r.value == CommitEnded(t.phase.outcome)
      && if result.ResultIndeterminate? then t.phase.outcome.CommitIndeterminate? else Tells(t.phase.outcome, truth)
  {
    CallFinds(s, call, FinishCommit(attempt, result));
  }

  /** A lookup resolves an indeterminate commit to what it found, and keeps the recorded time. */
  lemma LookupIsRecorded(s: Lease, call: Call, external: ExternalOutcome, truth: Truth)
    requires WellFormed(s) && Entered(s, call) && LookupAgrees(external, truth)
    requires s.phase.Terminal? && s.phase.outcome.CommitIndeterminate? && call.at < s.phase.at + s.limits.retention
    ensures var (t, r) := Step(s, call, Resolve(external));
      && t.phase.Terminal? && t.phase.at == s.phase.at && r == Ok(Resolved(t.phase.outcome))
      && if external.FoundIndeterminate? then t.phase.outcome.CommitIndeterminate? else Tells(t.phase.outcome, truth)
  {
    CallFinds(s, call, Resolve(external));
  }

  /** The outcome that a definite lookup stands for. */
  function OutcomeFound(external: ExternalOutcome): Outcome {
    match external
    case FoundCommitted => Committed
    case FoundAbsent => CommitProvenAbsent
    case FoundIndeterminate => CommitIndeterminate
  }

  /** A result on record is confirmed by any lookup that does not contradict it; one that does is refused,
      by the lease as by the record that survives a restart. A lease that was not committed has nothing to
      resolve. */
  lemma ContradictionIsRefused(s: Lease, at: nat, external: ExternalOutcome)
    requires WellFormed(s) && s.lastSeen <= at && s.phase.Terminal? && at < s.phase.at + s.limits.retention
    requires !s.phase.outcome.CommitIndeterminate?
    ensures var contradicts := !external.FoundIndeterminate? && OutcomeFound(external) != s.phase.outcome;
      && Step(s, By(s, at), Resolve(external)) ==
           (s.(lastSeen := at),
            if !Known(s) then Err(NotIndeterminate)
            else if contradicts then Err(ConflictingResolution)
            else Ok(Resolved(s.phase.outcome)))
      && (Known(s) ==> (Classify(Restart(s), Some(external)).Err? <==> contradicts))
      && (Known(s) && contradicts ==> Classify(Restart(s), Some(external)) == Err(RestartContradiction))
  {
    CallFinds(s, By(s, at), Resolve(external));
  }

  /** What becomes of an attempt that nobody has reported on. */
  predicate Pending(s: Lease, attempt: CommitAttempt, decideBy: nat) {
    && attempt.instance == s.instance && attempt.generation == s.generation && s.commitAttempted
    && (s.phase == CommitAttempted(decideBy) || (decideBy <= s.lastSeen && (s.phase.Terminal? || s.phase.Expired?)))
  }

  lemma PendingSurvives(s: Lease, call: Call, cmd: Command, attempt: CommitAttempt, decideBy: nat)
    requires WellFormed(s) && CommandInRange(cmd) && Pending(s, attempt, decideBy)
    requires !(cmd.FinishCommit? && Step(s, call, cmd).1.Ok?)
    ensures Pending(Step(s, call, cmd).0, attempt, decideBy)
  {
    hide Apply, WellFormed;
    CallFinds(s, call, cmd);
    if Entered(s, call) {
      PendingApplies(Found(s, call.at), call.at, cmd, attempt, decideBy);
    }
  }

  lemma PendingApplies(s: Lease, at: nat, cmd: Command, attempt: CommitAttempt, decideBy: nat)
    requires Pending(s, attempt, decideBy) && !(cmd.FinishCommit? && Apply(s, at, cmd).1.Ok?)
    ensures Pending(Apply(s, at, cmd).0, attempt, decideBy)
  {
  }

  lemma {:induction false} StaysPending(ss: seq<Lease>, evs: seq<Event>, i: nat, j: nat)
    requires IsRun(ss, evs) && i < j < |ss| && evs[i].cmd.BeginCommit? && Succeeds(ss[i], evs[i])
    requires forall k :: i < k < j ==> !(evs[k].cmd.FinishCommit? && Succeeds(ss[k], evs[k]))
    ensures ReplyOf(ss[i], evs[i]).value.CommitBegun? && WellFormed(ss[j])
    ensures Pending(ss[j], ReplyOf(ss[i], evs[i]).value.attempt, evs[i].call.at + ss[i].limits.commitWait)
    ensures ss[j].binding == ss[i].binding
    decreases j
  {
    hide WellFormed, Step, Pending;
    RunWellFormed(ss, evs, j - 1);
    RunWellFormed(ss, evs, j);
    StepKeeps(ss[j - 1], evs[j - 1].call, evs[j - 1].cmd);
    if j == i + 1 {
      BeginsPending(ss[i], evs[i].call, evs[i].cmd.key);
    } else {
      StaysPending(ss, evs, i, j - 1);
      PendingSurvives(ss[j - 1], evs[j - 1].call, evs[j - 1].cmd, ReplyOf(ss[i], evs[i]).value.attempt,
          evs[i].call.at + ss[i].limits.commitWait);
    }
  }

  lemma BeginsPending(s: Lease, call: Call, key: CommitKey)
    requires WellFormed(s) && Step(s, call, BeginCommit(key)).1.Ok?
    ensures var (t, r) := Step(s, call, BeginCommit(key));
      r.value.CommitBegun? && Pending(t, r.value.attempt, call.at + s.limits.commitWait)
  {
    CallFinds(s, call, BeginCommit(key));
  }

  /** In every run, whatever is called in between, the attempt that was issued can report its result until
      the wait is over, and not after it. */
  lemma AttemptCanReport(ss: seq<Lease>, evs: seq<Event>, i: nat, j: nat, at: nat, result: CommitResult)
    requires IsRun(ss, evs) && i < j < |ss| && evs[i].cmd.BeginCommit? && Succeeds(ss[i], evs[i])
    requires forall k :: i < k < j ==> !(evs[k].cmd.FinishCommit? && Succeeds(ss[k], evs[k]))
    requires ss[j].lastSeen <= at
    ensures ReplyOf(ss[i], evs[i]).value.CommitBegun?
    ensures var r := Step(ss[j], By(ss[i], at), FinishCommit(ReplyOf(ss[i], evs[i]).value.attempt, result)).1;
      && (r.Ok? <==> at < evs[i].call.at + ss[i].limits.commitWait)
      && (r.Err? ==> r.error == AlreadyTerminal || r.error == LeaseExpired)
  {
    StaysPending(ss, evs, i, j);
    hide IsRun, Succeeds, ReplyOf;
    CallFinds(ss[j], By(ss[i], at), FinishCommit(ReplyOf(ss[i], evs[i]).value.attempt, result));
  }

  // ---- restart ----

  function ClassFor(truth: Truth): RestartClass {
    if truth.CommittedDurably? then RestartCommitted else RestartProvenAbsent
  }

  predicate DefiniteLookup(lookup: Option<ExternalOutcome>) {
    lookup.Some? && !lookup.value.FoundIndeterminate?
  }

  /** The result of the commit is on record. */
  predicate Known(s: Lease) {
    s.phase.Terminal? && (s.phase.outcome.Committed? || s.phase.outcome.CommitProvenAbsent?)
  }

  /** At any point of any run whose reports agree with one truth, an attempted commit is classified as what
      happened exactly if its result is on record or the lookup is definite, and as indeterminate otherwise. */
  lemma RestartTells(ss: seq<Lease>, evs: seq<Event>, truth: Truth, i: nat, lookup: Option<ExternalOutcome>)
    requires IsRun(ss, evs) && i < |ss| && ss[0].phase.Idle? && ss[i].commitAttempted
    requires forall k :: 0 <= k < |evs| ==> CommandAgrees(evs[k].cmd, truth)
    requires lookup.Some? ==> LookupAgrees(lookup.value, truth)
    ensures Classify(Restart(ss[i]), lookup) ==
        Ok(if Known(ss[i]) || DefiniteLookup(lookup) then ClassFor(truth) else RestartIndeterminate)
  {
    RunRecordsTruth(ss, evs, truth, i);
  }

  /** A definite report or lookup that was accepted. */
  predicate Learns(s: Lease, ev: Event) {
    && Succeeds(s, ev)
    && ((ev.cmd.FinishCommit? && !ev.cmd.result.ResultIndeterminate?)
        || (ev.cmd.Resolve? && !ev.cmd.external.FoundIndeterminate?))
  }

  lemma LearningIsKnowing(s: Lease, ev: Event)
    requires WellFormed(s) && Learns(s, ev)
    ensures Known(Step(s, ev.call, ev.cmd).0)
  {
    CallFinds(s, ev.call, ev.cmd);
  }

  /** Once learned, the truth is on record in every later state until the retention is over, and a restart
      needs no lookup to tell it. */
  lemma LearnedIsKept(ss: seq<Lease>, evs: seq<Event>, truth: Truth, i: nat, j: nat)
    requires IsRun(ss, evs) && i < j < |ss| && ss[0].phase.Idle? && Learns(ss[i], evs[i])
    requires forall k :: 0 <= k < |evs| ==> CommandAgrees(evs[k].cmd, truth)
    ensures ss[j].phase == Expired(true)
        || (ss[j].phase.Terminal? && Tells(ss[j].phase.outcome, truth)
            && Classify(Restart(ss[j]), None) == Ok(ClassFor(truth)))
  {
    RunWellFormed(ss, evs, i);
    LearningIsKnowing(ss[i], evs[i]);
    DefiniteForever(ss, evs, i + 1, j);
    RunRecordsTruth(ss, evs, truth, j);
    if ss[j].phase.Terminal? {
      RestartTells(ss, evs, truth, j, None);
    }
  }
}

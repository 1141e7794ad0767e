/** The lease state machine of leased remote transactions, as a value: limits, phases, the due
    transitions of time, and every call. Time is injected; all deadlines are exclusive. */
module Leases {
  import opened Common

  type CommitKey = seq<bv8>

  datatype LeaseBinding = LeaseBinding(principal: string, tenant: string, repository: string)

  datatype Limits = Limits(
    idle: nat,
    absolute: nat,
    maxExtension: nat,
    cancelGrace: nat,
    commitWait: nat,
    retention: nat)

  datatype LeaseError =
    | InvalidLimits
    | TimeOverflow
    | BindingMismatch
    | TimeRegression
    | Busy
    | CommitAlreadyAttempted
    | StaleGeneration
    | StaleHandle
    | NoExtension
    | AlreadyTerminal
    | LeaseExpired
    | NotIndeterminate
    | ConflictingResolution
    | RestartContradiction
    | CounterExhausted

  datatype CancelCause = RequestedCancel | ExpiryCancel

  datatype RollbackReason = Explicit | Dropped | ExpiredReason | CancelledReason

  datatype Outcome =
    | RolledBack(reason: RollbackReason)
    | CleanupOverdue(cause: CancelCause)
    | Committed
    | CommitProvenAbsent
    | CommitIndeterminate
  {
    predicate IsCommitAttempt() {
      Committed? || CommitProvenAbsent? || CommitIndeterminate?
    }
  }

  datatype CommitResult = ResultCommitted | ResultNotCommitted | ResultIndeterminate

  datatype ExternalOutcome = FoundCommitted | FoundAbsent | FoundIndeterminate

  datatype OperationEnd = Completed | CancelledAcknowledged

  datatype Phase =
    | Idle
    | Operating
    | Cancelling(cleanupDeadline: nat, cause: CancelCause)
    | CommitAttempted(decideBy: nat)
    | Terminal(outcome: Outcome, at: nat)
    | Expired(attempted: bool)

  datatype Lease = Lease(
    instance: nat,
    id: nat,
    binding: LeaseBinding,
    limits: Limits,
    generation: nat,
    lastSeen: nat,
    absoluteDeadline: nat,
    deadline: nat,
    opSeq: nat,
    phase: Phase,
    commitKey: Option<CommitKey>,
    commitAttempted: bool,
    responseLost: bool)

  datatype OperationHandle = OperationHandle(instance: nat, id: nat, generation: nat, opSeq: nat)

  datatype CommitAttempt = CommitAttempt(instance: nat, id: nat, generation: nat)

  datatype Renewal = Renewal(generation: nat, deadline: nat, granted: nat)

  datatype Call = Call(binding: LeaseBinding, at: nat)

  // ---- limits and begin ----

  predicate LimitsOk(l: Limits) {
    && 0 < l.idle <= l.absolute
    && 0 < l.maxExtension <= l.absolute
    && 0 < l.cancelGrace && 0 < l.commitWait && 0 < l.retention
  }

  function NewLimits(spec: Limits): Result<Limits, LeaseError> {
    if LimitsOk(spec) then Ok(spec) else Err(InvalidLimits)
  }

  function Tail(l: Limits): nat {
    Max(l.cancelGrace, l.commitWait)
  }

  function Begin(call: Call, instance: nat, id: nat, limits: Limits): Result<Lease, LeaseError> {
    match CheckedAdd(call.at, limits.absolute)
    case None => Err(TimeOverflow)
    case Some(absolute) =>
      if CheckedAdd(absolute, Tail(limits)).None?
          || CheckedAdd(absolute + Tail(limits), limits.retention).None? then Err(TimeOverflow)
      else
        match CheckedAdd(call.at, limits.idle)
        case None => Err(TimeOverflow)
        case Some(end) =>
          Ok(Lease(instance, id, call.binding, limits, 1, call.at, absolute, Min(end, absolute), 0, Idle, None, false,
              false))
  }

  // ---- time ----

  datatype Due = NothingDue | DueTo(phase: Phase) | Overflow

  /** The transition that is due at `now`, if any: one turn of the settle loop. */
  function DueAt(s: Lease, now: nat): Due {
    match s.phase
    case Idle =>
      if now >= s.deadline then DueTo(Terminal(RolledBack(ExpiredReason), s.deadline)) else NothingDue
    case Operating =>
      if now < s.deadline then NothingDue
      else
        (match CheckedAdd(s.deadline, s.limits.cancelGrace)
         case None => Overflow
         case Some(cleanup) => DueTo(Cancelling(cleanup, ExpiryCancel)))
    case Cancelling(cleanup, cause) =>
      if now >= cleanup then DueTo(Terminal(CleanupOverdue(cause), cleanup)) else NothingDue
    case CommitAttempted(decideBy) =>
      if now >= decideBy then DueTo(Terminal(CommitIndeterminate, decideBy)) else NothingDue
    case Terminal(outcome, at) =>
      (match CheckedAdd(at, s.limits.retention)
       case None => Overflow
       case Some(expires) => if now < expires then NothingDue else DueTo(Expired(outcome.IsCommitAttempt())))
    case Expired(_) => NothingDue
  }

  /** Every due transition moves strictly closer to expiry. */
  function Remaining(p: Phase): nat {
    match p
    case Idle => 3
    case Operating => 3
    case Cancelling(_, _) => 2
    case CommitAttempted(_) => 2
    case Terminal(_, _) => 1
    case Expired(_) => 0
  }

  function Settle(s: Lease, now: nat): (Lease, Option<LeaseError>)
    decreases Remaining(s.phase)
  {
    match DueAt(s, now)
    case NothingDue => (s, None)
    case Overflow => (s, Some(TimeOverflow))
    case DueTo(phase) => Settle(s.(phase := phase), now)
  }

  function Enter(s: Lease, call: Call): (Lease, Option<LeaseError>) {
    if call.binding != s.binding then (s, Some(BindingMismatch))
    else if call.at < s.lastSeen then (s, Some(TimeRegression))
    else Settle(s.(lastSeen := call.at), call.at)
  }

  // ---- calls, after entry ----

  function Blocked(p: Phase): LeaseError {
    match p
    case Idle => Busy
    case Operating => Busy
    case Cancelling(_, _) => Busy
    case CommitAttempted(_) => CommitAlreadyAttempted
    case Terminal(_, _) => AlreadyTerminal
    case Expired(_) => LeaseExpired
  }

  datatype Command =
    | Observe
    | BeginOperation
    | FinishOperation(handle: OperationHandle)
    | Renew(expected: nat, requested: nat)
    | RequestCancel
    | RollBack(why: RollbackReason)
    | BeginCommit(key: CommitKey)
    | FinishCommit(attempt: CommitAttempt, result: CommitResult)
    | ResponseLost
    | Resolve(external: ExternalOutcome)

  datatype Reply =
    | Seen
    | OperationBegun(handle: OperationHandle)
    | OperationEnded(end: OperationEnd)
    | Renewed(renewal: Renewal)
    | CancelSeen(phase: Phase)
    | RolledBackAs(outcome: Outcome)
    | CommitBegun(attempt: CommitAttempt)
    | CommitEnded(outcome: Outcome)
    | Resolved(outcome: Outcome)

  function ApplyBeginOperation(s: Lease): (Lease, Result<Reply, LeaseError>) {
    if !s.phase.Idle? then (s, Err(Blocked(s.phase)))
    else
      match CheckedAdd(s.opSeq, 1)
      case None => (s, Err(CounterExhausted))
      case Some(op) =>
        (s.(opSeq := op, phase := Operating), Ok(OperationBegun(OperationHandle(s.instance, s.id, s.generation, op))))
  }

  function ApplyFinishOperation(s: Lease, at: nat, h: OperationHandle): (Lease, Result<Reply, LeaseError>) {
    if h.instance != s.instance || h.generation != s.generation || h.opSeq != s.opSeq then (s, Err(StaleHandle))
    else
      match s.phase
      case Operating => (s.(phase := Idle), Ok(OperationEnded(Completed)))
      case Cancelling(_, cause) =>
        (s.(phase := Terminal(RolledBack(if cause.RequestedCancel? then CancelledReason else ExpiredReason), at)),
         Ok(OperationEnded(CancelledAcknowledged)))
      case Terminal(_, _) => (s, Err(AlreadyTerminal))
      case Expired(_) => (s, Err(LeaseExpired))
      case Idle => (s, Err(StaleHandle))
      case CommitAttempted(_) => (s, Err(StaleHandle))
  }

  function ApplyRenew(s: Lease, at: nat, expected: nat, requested: nat): (Lease, Result<Reply, LeaseError>) {
    if !s.phase.Idle? then (s, Err(Blocked(s.phase)))
    else if expected != s.generation then (s, Err(StaleGeneration))
    else
      var granted := Min(requested, s.limits.maxExtension);
      var end := Min(at + granted, U64_MAX);
      var deadline := Min(end, s.absoluteDeadline);
      if deadline <= s.deadline then (s, Err(NoExtension))
      else
        match CheckedAdd(s.generation, 1)
        case None => (s, Err(CounterExhausted))
        case Some(generation) =>
          (s.(generation := generation, deadline := deadline),
           Ok(Renewed(Renewal(generation, deadline, if deadline >= at then deadline - at else 0))))
  }

  function ApplyRequestCancel(s: Lease, at: nat): (Lease, Result<Reply, LeaseError>) {
    match s.phase
    case Idle =>
      var p := Terminal(RolledBack(CancelledReason), at);
      (s.(phase := p), Ok(CancelSeen(p)))
    case Operating =>
      (match CheckedAdd(at, s.limits.cancelGrace)
       case None => (s, Err(TimeOverflow))
       case Some(cleanup) =>
         var p := Cancelling(cleanup, RequestedCancel);
         (s.(phase := p), Ok(CancelSeen(p))))
    case Cancelling(_, _) => (s, Ok(CancelSeen(s.phase)))
    case Terminal(RolledBack(_), _) => (s, Ok(CancelSeen(s.phase)))
    case _ => (s, Err(Blocked(s.phase)))
  }

  function ApplyRollBack(s: Lease, at: nat, why: RollbackReason): (Lease, Result<Reply, LeaseError>) {
    if s.phase.Terminal? && s.phase.outcome.RolledBack? then (s, Ok(RolledBackAs(s.phase.outcome)))
    else if !s.phase.Idle? then (s, Err(Blocked(s.phase)))
    else (s.(phase := Terminal(RolledBack(why), at)), Ok(RolledBackAs(RolledBack(why))))
  }

  function ApplyBeginCommit(s: Lease, at: nat, key: CommitKey): (Lease, Result<Reply, LeaseError>) {
    if !s.phase.Idle? then (s, Err(Blocked(s.phase)))
    else
      match CheckedAdd(at, s.limits.commitWait)
      case None => (s, Err(TimeOverflow))
      case Some(decideBy) =>
        (s.(phase := CommitAttempted(decideBy), commitKey := Some(key), commitAttempted := true),
         Ok(CommitBegun(CommitAttempt(s.instance, s.id, s.generation))))
  }

  function OutcomeOf(result: CommitResult): Outcome {
    match result
    case ResultCommitted => Committed
    case ResultNotCommitted => CommitProvenAbsent
    case ResultIndeterminate => CommitIndeterminate
  }

  function ApplyFinishCommit(s: Lease, at: nat, attempt: CommitAttempt, result: CommitResult)
    : (Lease, Result<Reply, LeaseError>)
  {
    if attempt.instance != s.instance || attempt.generation != s.generation then (s, Err(StaleHandle))
    else
      match s.phase
      case CommitAttempted(_) => (s.(phase := Terminal(OutcomeOf(result), at)), Ok(CommitEnded(OutcomeOf(result))))
      case Terminal(_, _) => (s, Err(AlreadyTerminal))
      case Expired(_) => (s, Err(LeaseExpired))
      case _ => (s, Err(StaleHandle))
  }

  function ResolvedAs(outcome: Outcome, external: ExternalOutcome): Result<Outcome, LeaseError> {
    match outcome
    case CommitIndeterminate =>
      Ok(match external
         case FoundCommitted => Committed
         case FoundAbsent => CommitProvenAbsent
         case FoundIndeterminate => CommitIndeterminate)
    case Committed => if external.FoundAbsent? then Err(ConflictingResolution) else Ok(Committed)
    case CommitProvenAbsent => if external.FoundCommitted? then Err(ConflictingResolution) else Ok(CommitProvenAbsent)
    case RolledBack(_) => Err(NotIndeterminate)
    case CleanupOverdue(_) => Err(NotIndeterminate)
  }

  function ApplyResolve(s: Lease, external: ExternalOutcome): (Lease, Result<Reply, LeaseError>) {
    match s.phase
    case Terminal(outcome, at) =>
      (match ResolvedAs(outcome, external)
       case Err(e) => (s, Err(e))
       case Ok(resolved) => (s.(phase := Terminal(resolved, at)), Ok(Resolved(resolved))))
    case Expired(_) => (s, Err(LeaseExpired))
    case _ => (s, Err(NotIndeterminate))
  }

  function Apply(s: Lease, at: nat, cmd: Command): (Lease, Result<Reply, LeaseError>) {
    match cmd
    case Observe => (s, Ok(Seen))
    case BeginOperation => ApplyBeginOperation(s)
    case FinishOperation(h) => ApplyFinishOperation(s, at, h)
    case Renew(expected, requested) => ApplyRenew(s, at, expected, requested)
    case RequestCancel => ApplyRequestCancel(s, at)
    case RollBack(why) => ApplyRollBack(s, at, why)
    case BeginCommit(key) => ApplyBeginCommit(s, at, key)
    case FinishCommit(attempt, result) => ApplyFinishCommit(s, at, attempt, result)
    case ResponseLost => (s.(responseLost := true), Ok(Seen))
    case Resolve(external) => ApplyResolve(s, external)
  }

  /** One call: entry checks and due transitions, then the command. */
  function Step(s: Lease, call: Call, cmd: Command): (Lease, Result<Reply, LeaseError>) {
    var (t, refusal) := Enter(s, call);
    if refusal.Some? then (t, Err(refusal.value)) else Apply(t, call.at, cmd)
  }

  // ---- restart ----

  datatype RestartClass = StagedDiscarded | RestartCommitted | RestartProvenAbsent | RestartIndeterminate

  datatype RestartRecord = RestartRecord(id: nat, commitKey: Option<CommitKey>, attempted: Option<ExternalOutcome>)

  function Restart(s: Lease): RestartRecord {
    RestartRecord(s.id, s.commitKey,
                  match s.phase
                  case Terminal(Committed, _) => Some(FoundCommitted)
                  case Terminal(CommitProvenAbsent, _) => Some(FoundAbsent)
                  case Terminal(CommitIndeterminate, _) => Some(FoundIndeterminate)
                  case CommitAttempted(_) => Some(FoundIndeterminate)
                  case Expired(attempted) => if attempted then Some(FoundIndeterminate) else None
                  case _ => None)
  }

  function ClassOf(outcome: ExternalOutcome): RestartClass {
    match outcome
    case FoundCommitted => RestartCommitted
    case FoundAbsent => RestartProvenAbsent
    case FoundIndeterminate => RestartIndeterminate
  }

  function Classify(r: RestartRecord, lookup: Option<ExternalOutcome>): Result<RestartClass, LeaseError> {
    match r.attempted
    case None => if lookup.None? then Ok(StagedDiscarded) else Err(RestartContradiction)
    case Some(known) =>
      if lookup.None? || lookup.value.FoundIndeterminate? then Ok(ClassOf(known))
      else if known.FoundIndeterminate? then Ok(ClassOf(lookup.value))
      else if lookup.value == known then Ok(ClassOf(known))
      else Err(RestartContradiction)
  }
}

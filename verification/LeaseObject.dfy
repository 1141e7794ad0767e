/** The lease as the source keeps it: a mutable object whose methods apply due transitions in a loop
    and then act. Each method is proved to be one step of the value model. */
module LeaseObject {
  import opened Common
  import opened Leases
  import opened LeaseProperties

  lemma SettleDone(s: Lease, now: nat)
    ensures DueAt(s, now).NothingDue? ==> Settle(s, now) == (s, None)
  {
  }

  class LeaseMachine {
    const instance: nat
    const id: nat
    const binding: LeaseBinding
    const limits: Limits
    const absoluteDeadline: nat
    var generation: nat
    var lastSeen: nat
    var deadline: nat
    var opSeq: nat
    var phase: Phase
    var commitKey: Option<CommitKey>
    var commitAttempted: bool
    var responseLost: bool

    function View(): Lease
      reads this
    {
      Lease(instance, id, binding, limits, generation, lastSeen, absoluteDeadline, deadline, opSeq, phase,
            commitKey, commitAttempted, responseLost)
    }

    predicate Valid()
      reads this
    {
      WellFormed(View())
    }

    constructor (call: Call, instance: nat, id: nat, limits: Limits)
      requires LimitsOk(limits) && Begin(call, instance, id, limits).Ok?
      ensures Valid() && View() == Begin(call, instance, id, limits).value
    {
      this.instance, this.id, this.binding, this.limits := instance, id, call.binding, limits;
      absoluteDeadline := call.at + limits.absolute;
      deadline := Min(call.at + limits.idle, call.at + limits.absolute);
      generation, lastSeen, opSeq := 1, call.at, 0;
      phase := Idle;
      commitKey, commitAttempted, responseLost := None, false, false;
      new;
      BeginWellFormed(call, instance, id, limits);
    }

    /** `LeaseLimits::new` and `Lease::begin`: refuses exactly unordered or zero limits, and limits under
        which some deadline of the whole lifetime would overflow. */
    static method TryBegin(call: Call, instance: nat, id: nat, spec: Limits)
        returns (r: Result<LeaseMachine, LeaseError>)
      ensures r.Ok? <==> LimitsOk(spec) && call.at + spec.absolute + Tail(spec) + spec.retention <= U64_MAX
      ensures r.Ok? ==> fresh(r.value) && r.value.Valid() && Begin(call, instance, id, spec) == Ok(r.value.View())
      ensures r.Err? ==> r.error == if LimitsOk(spec) then TimeOverflow else InvalidLimits
    {
      var limits := NewLimits(spec);
      if limits.Err? {
        return Err(limits.error);
      }
      BeginWellFormed(call, instance, id, limits.value);
      var begun := Begin(call, instance, id, limits.value);
      if begun.Err? {
        return Err(begun.error);
      }
      var lease := new LeaseMachine(call, instance, id, limits.value);
      return Ok(lease);
    }

    /** The settle loop: it terminates, cannot overflow, and ends in the settled phase. */
    method SettleLoop(now: nat) returns (failure: Option<LeaseError>)
      requires Valid()
      modifies this`phase
      ensures Valid() && (View(), failure) == Settle(old(View()), now) && failure.None?
    {
      hide WellFormed, Settle;
      SettleCompletes(View(), now);
      ghost var target := Settle(View(), now);
      while true
        invariant Valid() && Settle(View(), now) == target
        decreases Remaining(phase)
      {
        DueStep(View(), now);
        SettleDone(View(), now);
        match phase
        case Idle =>
          if now < deadline {
            return None;
          }
          phase := Terminal(RolledBack(ExpiredReason), deadline);
        case Operating =>
          if now < deadline {
            return None;
          }
          phase := Cancelling(deadline + limits.cancelGrace, ExpiryCancel);
        case Cancelling(cleanup, cause) =>
          if now < cleanup {
            return None;
          }
          phase := Terminal(CleanupOverdue(cause), cleanup);
        case CommitAttempted(decideBy) =>
          if now < decideBy {
            return None;
          }
          phase := Terminal(CommitIndeterminate, decideBy);
        case Terminal(outcome, at) =>
          if now < at + limits.retention {
            return None;
          }
          phase := Expired(outcome.IsCommitAttempt());
        case Expired(_) =>
          return None;
      }
    }

    method EnterCall(call: Call) returns (failure: Option<LeaseError>)
      requires Valid()
      modifies this`phase, this`lastSeen
      ensures Valid() && (View(), failure) == Enter(old(View()), call)
      ensures failure.None? ==> lastSeen == call.at && DueAt(View(), call.at).NothingDue?
    {
      EnterKeeps(View(), call);
      if call.binding != binding {
        return Some(BindingMismatch);
      }
      if call.at < lastSeen {
        return Some(TimeRegression);
      }
      lastSeen := call.at;
      failure := SettleLoop(call.at);
    }

    method ObserveLease(call: Call) returns (r: Result<Reply, LeaseError>)
      requires Valid()
      modifies this`phase, this`lastSeen
      ensures Valid() && (View(), r) == Step(old(View()), call, Observe)
    {
      var failure := EnterCall(call);
      return if failure.Some? then Err(failure.value) else Ok(Seen);
    }

    method BeginOp(call: Call) returns (r: Result<Reply, LeaseError>)
      requires Valid()
      modifies this`phase, this`lastSeen, this`opSeq
      ensures Valid() && (View(), r) == Step(old(View()), call, BeginOperation)
    {
      var failure := EnterCall(call);
      if failure.Some? {
        return Err(failure.value);
      }
      ApplyKeeps(View(), call.at, BeginOperation);
      if !phase.Idle? {
        return Err(Blocked(phase));
      }
      if opSeq == U64_MAX {
        return Err(CounterExhausted);
      }
      opSeq := opSeq + 1;
      phase := Operating;
      return Ok(OperationBegun(OperationHandle(instance, id, generation, opSeq)));
    }

    method FinishOp(call: Call, handle: OperationHandle) returns (r: Result<Reply, LeaseError>)
      requires Valid()
      modifies this`phase, this`lastSeen
      ensures Valid() && (View(), r) == Step(old(View()), call, FinishOperation(handle))
    {
      var failure := EnterCall(call);
      if failure.Some? {
        return Err(failure.value);
      }
      ApplyKeeps(View(), call.at, FinishOperation(handle));
      if handle.instance != instance || handle.generation != generation || handle.opSeq != opSeq {
        return Err(StaleHandle);
      }
      match phase
      case Operating =>
        phase := Idle;
        return Ok(OperationEnded(Completed));
      case Cancelling(_, cause) =>
        var reason := if cause.RequestedCancel? then CancelledReason else ExpiredReason;
        phase := Terminal(RolledBack(reason), call.at);
        return Ok(OperationEnded(CancelledAcknowledged));
      case Terminal(_, _) => return Err(AlreadyTerminal);
      case Expired(_) => return Err(LeaseExpired);
      case Idle => return Err(StaleHandle);
      case CommitAttempted(_) => return Err(StaleHandle);
    }

    /** Compare-and-swap renewal. The generation cannot run out and the subtraction cannot wrap. */
    method RenewLease(call: Call, expected: nat, requested: nat) returns (r: Result<Reply, LeaseError>)
      requires Valid() && 0 < requested <= U64_MAX
      modifies this`phase, this`lastSeen, this`generation, this`deadline
      ensures Valid() && (View(), r) == Step(old(View()), call, Renew(expected, requested))
    {
      var failure := EnterCall(call);
      if failure.Some? {
        return Err(failure.value);
      }
      ApplyKeeps(View(), call.at, Renew(expected, requested));
      if !phase.Idle? {
        return Err(Blocked(phase));
      }
      if expected != generation {
        return Err(StaleGeneration);
      }
      var granted := Min(requested, limits.maxExtension);
      var end := Min(call.at + granted, U64_MAX);
      var extended: nat := Min(end, absoluteDeadline);
      if extended <= deadline {
        return Err(NoExtension);
      }
      generation := generation + 1;
      deadline := extended;
      return Ok(Renewed(Renewal(generation, extended, extended - call.at)));
    }

    method Cancel(call: Call) returns (r: Result<Reply, LeaseError>)
      requires Valid()
      modifies this`phase, this`lastSeen
      ensures Valid() && (View(), r) == Step(old(View()), call, RequestCancel)
    {
      var failure := EnterCall(call);
      if failure.Some? {
        return Err(failure.value);
      }
      ApplyKeeps(View(), call.at, RequestCancel);
      match phase
      case Idle =>
        phase := Terminal(RolledBack(CancelledReason), call.at);
        return Ok(CancelSeen(phase));
      case Operating =>
        phase := Cancelling(call.at + limits.cancelGrace, RequestedCancel);
        return Ok(CancelSeen(phase));
      case Cancelling(_, _) => return Ok(CancelSeen(phase));
      case Terminal(RolledBack(_), _) => return Ok(CancelSeen(phase));
      case _ => return Err(Blocked(phase));
    }

    method RollBackWith(call: Call, why: RollbackReason) returns (r: Result<Reply, LeaseError>)
      requires Valid()
      modifies this`phase, this`lastSeen
      ensures Valid() && (View(), r) == Step(old(View()), call, RollBack(why))
    {
      var failure := EnterCall(call);
      if failure.Some? {
        return Err(failure.value);
      }
      ApplyKeeps(View(), call.at, RollBack(why));
      if phase.Terminal? && phase.outcome.RolledBack? {
        return Ok(RolledBackAs(phase.outcome));
      }
      if !phase.Idle? {
        return Err(Blocked(phase));
      }
      phase := Terminal(RolledBack(why), call.at);
      return Ok(RolledBackAs(RolledBack(why)));
    }

    method BeginCommitWith(call: Call, key: CommitKey) returns (r: Result<Reply, LeaseError>)
      requires Valid()
      modifies this`phase, this`lastSeen, this`commitKey, this`commitAttempted
      ensures Valid() && (View(), r) == Step(old(View()), call, BeginCommit(key))
    {
      var failure := EnterCall(call);
      if failure.Some? {
        return Err(failure.value);
      }
      ApplyKeeps(View(), call.at, BeginCommit(key));
      if !phase.Idle? {
        return Err(Blocked(phase));
      }
      phase := CommitAttempted(call.at + limits.commitWait);
      commitKey := Some(key);
      commitAttempted := true;
      return Ok(CommitBegun(CommitAttempt(instance, id, generation)));
    }

    method FinishCommitWith(call: Call, attempt: CommitAttempt, result: CommitResult)
        returns (r: Result<Reply, LeaseError>)
      requires Valid()
      modifies this`phase, this`lastSeen
      ensures Valid() && (View(), r) == Step(old(View()), call, FinishCommit(attempt, result))
    {
      var failure := EnterCall(call);
      if failure.Some? {
        return Err(failure.value);
      }
      ApplyKeeps(View(), call.at, FinishCommit(attempt, result));
      if attempt.instance != instance || attempt.generation != generation {
        return Err(StaleHandle);
      }
      match phase
      case CommitAttempted(_) =>
        phase := Terminal(OutcomeOf(result), call.at);
        return Ok(CommitEnded(OutcomeOf(result)));
      case Terminal(_, _) => return Err(AlreadyTerminal);
      case Expired(_) => return Err(LeaseExpired);
      case _ => return Err(StaleHandle);
    }

    method MarkResponseLost(call: Call) returns (r: Result<Reply, LeaseError>)
      requires Valid()
      modifies this`phase, this`lastSeen, this`responseLost
      ensures Valid() && (View(), r) == Step(old(View()), call, ResponseLost)
    {
      var failure := EnterCall(call);
      if failure.Some? {
        return Err(failure.value);
      }
      responseLost := true;
      return Ok(Seen);
    }

    method ResolveWith(call: Call, external: ExternalOutcome) returns (r: Result<Reply, LeaseError>)
      requires Valid()
      modifies this`phase, this`lastSeen
      ensures Valid() && (View(), r) == Step(old(View()), call, Resolve(external))
    {
      var failure := EnterCall(call);
      if failure.Some? {
        return Err(failure.value);
      }
      ApplyKeeps(View(), call.at, Resolve(external));
      match phase
      case Terminal(outcome, at) =>
        var resolved := ResolvedAs(outcome, external);
        if resolved.Err? {
          return Err(resolved.error);
        }
        phase := Terminal(resolved.value, at);
        return Ok(Resolved(resolved.value));
      case Expired(_) => return Err(LeaseExpired);
      case _ => return Err(NotIndeterminate);
    }
  }
}

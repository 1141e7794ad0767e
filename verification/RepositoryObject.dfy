/** The lifecycle machine as the source keeps it: gates read, `Advance` writes, each public method is
    one step of the value model. */
module RepositoryObject {
  import opened Common
  import opened Repositories

  class RepositoryMachine {
    const instance: nat
    const id: string
    const limits: Limits
    var generation: nat
    var lastSeen: nat
    var state: State
    var pendingOpen: Option<OpenMode>
    var tombstoneDeadline: Option<nat>
    var retired: bool
    var recoveryReference: Option<Reference>
    var purgeReference: Option<Reference>

    function View(): Repository
      reads this
    {
      Repository(instance, id, limits, generation, lastSeen, state, pendingOpen, tombstoneDeadline, retired,
                 recoveryReference, purgeReference)
    }

    predicate Valid()
      reads this
    {
      WellFormed(View())
    }

    constructor (instance: nat, id: string, limits: Limits, at: nat)
      requires LimitsOk(limits)
      ensures Valid() && View() == Provision(instance, id, limits, at).0
    {
      this.instance, this.id, this.limits := instance, id, limits;
      generation, lastSeen, state := 1, at, Provisioning;
      pendingOpen, tombstoneDeadline := None, None;
      retired := false;
      recoveryReference, purgeReference := None, None;
    }

    method Advance(at: nat, next: State)
      modifies this
      ensures View() == Commit(old(View()), at, next)
    {
      generation, lastSeen, state := generation + 1, at, next;
      pendingOpen, tombstoneDeadline := None, None;
    }

    method FinishProvisioning(handle: Handle, outcome: ValidationOutcome, at: nat)
        returns (r: Result<Reply, RepositoryError>)
      requires Valid()
      modifies this
      ensures Valid() && (View(), r) == Step(old(View()), at, CompleteProvisioning(handle, outcome))
    {
      StepKeeps(View(), at, CompleteProvisioning(handle, outcome));
      var refusal := GateHandle(View(), handle, at);
      if refusal.Some? {
        return Err(refusal.value);
      }
      if state != Provisioning {
        return Err(InvalidState);
      }
      if !CanAdvance(View()) {
        return Err(GenerationExhausted);
      }
      var next := if outcome.ValidationPassed? then Closed else Failed;
      Advance(at, next);
      return Ok(NowIn(next));
    }

    method StartOpen(expected: nat, mode: OpenMode, at: nat) returns (r: Result<Reply, RepositoryError>)
      requires Valid()
      modifies this
      ensures Valid() && (View(), r) == Step(old(View()), at, BeginOpen(expected, mode))
    {
      StepKeeps(View(), at, BeginOpen(expected, mode));
      var refusal := GateCas(View(), expected, at);
      if refusal.Some? {
        return Err(refusal.value);
      }
      if state != Closed {
        return Err(InvalidState);
      }
      if !CanAdvance(View()) {
        return Err(GenerationExhausted);
      }
      Advance(at, Opening);
      pendingOpen := Some(mode);
      return Ok(Issued(Issue(View())));
    }

    method FinishOpen(handle: Handle, outcome: ValidationOutcome, at: nat) returns (r: Result<Reply, RepositoryError>)
      requires Valid()
      modifies this
      ensures Valid() && (View(), r) == Step(old(View()), at, CompleteOpen(handle, outcome))
    {
      StepKeeps(View(), at, CompleteOpen(handle, outcome));
      var refusal := GateHandle(View(), handle, at);
      if refusal.Some? {
        return Err(refusal.value);
      }
      if state != Opening || pendingOpen.None? {
        return Err(InvalidState);
      }
      var mode := pendingOpen.value;
      if !CanAdvance(View()) {
        return Err(GenerationExhausted);
      }
      var next := if outcome.ValidationFailed? then Failed else if mode.ReadWrite? then ReadyReadWrite
          else ReadyReadOnly;
      Advance(at, next);
      return Ok(NowIn(next));
    }

    method StartQuiesce(expected: nat, at: nat) returns (r: Result<Reply, RepositoryError>)
      requires Valid()
      modifies this
      ensures Valid() && (View(), r) == Step(old(View()), at, BeginQuiesce(expected))
    {
      StepKeeps(View(), at, BeginQuiesce(expected));
      var refusal := GateCas(View(), expected, at);
      if refusal.Some? {
        return Err(refusal.value);
      }
      if !state.Closed? && !state.ReadyReadWrite? && !state.ReadyReadOnly? {
        return Err(InvalidState);
      }
      if !CanAdvance(View()) {
        return Err(GenerationExhausted);
      }
      Advance(at, Quiescing);
      return Ok(Issued(Issue(View())));
    }

    method FinishQuiesce(handle: Handle, drain: DrainConfirmation, target: QuiesceTarget, at: nat)
        returns (r: Result<Reply, RepositoryError>)
      requires Valid()
      modifies this
      ensures Valid() && (View(), r) == Step(old(View()), at, CompleteQuiesce(handle, drain, target))
    {
      StepKeeps(View(), at, CompleteQuiesce(handle, drain, target));
      var refusal := GateHandle(View(), handle, at);
      if refusal.Some? {
        return Err(refusal.value);
      }
      if state != Quiescing {
        return Err(InvalidState);
      }
      if !drain.Confirmed() {
        return Err(NotDrained);
      }
      if !CanAdvance(View()) {
        return Err(GenerationExhausted);
      }
      if target.ToClosed? {
        Advance(at, Closed);
        return Ok(NowIn(Closed));
      }
      var deadline := CheckedAdd(at, limits.retention);
      if deadline.None? {
        return Err(TimeOverflow);
      }
      Advance(at, Tombstoned);
      tombstoneDeadline := deadline;
      return Ok(NowIn(Tombstoned));
    }

    method RestoreTombstone(expected: nat, reference: Reference, at: nat) returns (r: Result<Reply, RepositoryError>)
      requires Valid()
      modifies this
      ensures Valid() && (View(), r) == Step(old(View()), at, Restore(expected, reference))
    {
      StepKeeps(View(), at, Restore(expected, reference));
      var refusal := GateCas(View(), expected, at);
      if refusal.Some? {
        return Err(refusal.value);
      }
      if state != Tombstoned || tombstoneDeadline.None? {
        return Err(InvalidState);
      }
      if at >= tombstoneDeadline.value {
        return Err(RetentionExpired);
      }
      if !CanAdvance(View()) {
        return Err(GenerationExhausted);
      }
      Advance(at, Closed);
      recoveryReference := Some(reference);
      return Ok(NowIn(Closed));
    }

    method StartPurge(expected: nat, reference: Reference, at: nat) returns (r: Result<Reply, RepositoryError>)
      requires Valid()
      modifies this
      ensures Valid() && (View(), r) == Step(old(View()), at, BeginPurge(expected, reference))
    {
      StepKeeps(View(), at, BeginPurge(expected, reference));
      var refusal := GateCas(View(), expected, at);
      if refusal.Some? {
        return Err(refusal.value);
      }
      if !state.Failed? {
        if state != Tombstoned || tombstoneDeadline.None? {
          return Err(InvalidState);
        }
        if at < tombstoneDeadline.value {
          return Err(RetentionActive);
        }
      }
      if !CanAdvance(View()) {
        return Err(GenerationExhausted);
      }
      Advance(at, Deleting);
      purgeReference := Some(reference);
      return Ok(Issued(Issue(View())));
    }

    method FinishPurge(handle: Handle, outcome: DeletionOutcome, at: nat) returns (r: Result<Reply, RepositoryError>)
      requires Valid()
      modifies this
      ensures Valid() && (View(), r) == Step(old(View()), at, CompletePurge(handle, outcome))
    {
      StepKeeps(View(), at, CompletePurge(handle, outcome));
      var refusal := GateHandle(View(), handle, at);
      if refusal.Some? {
        return Err(refusal.value);
      }
      if state != Deleting {
        return Err(InvalidState);
      }
      if !CanAdvance(View()) {
        return Err(GenerationExhausted);
      }
      if outcome.Deleted? {
        Advance(at, Deleting);
        retired := true;
      } else {
        Advance(at, Failed);
      }
      return Ok(NowIn(state));
    }

    method AdmitWork(kind: WorkKind, at: nat) returns (r: Result<Reply, RepositoryError>)
      requires Valid()
      modifies this`lastSeen
      ensures Valid() && (View(), r) == Step(old(View()), at, Admit(kind))
    {
      StepKeeps(View(), at, Admit(kind));
      if at < lastSeen {
        return Err(TimeRegression);
      }
      if retired {
        return Err(AlreadyRetired);
      }
      match state {
        case ReadyReadWrite =>
        case ReadyReadOnly =>
          if kind.Write? {
            return Err(ReadOnlyRepository);
          }
        case Quiescing => return Err(QuiescingRepository);
        case _ => return Err(NotReady);
      }
      lastSeen := at;
      return Ok(WorkAdmitted);
    }
  }
}

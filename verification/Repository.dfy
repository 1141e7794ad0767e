/** The single-repository lifecycle machine as a value: every transition is generation-checked and a
    rejected call changes nothing. */
module Repositories {
  import opened Common

  type Reference = seq<bv8>

  datatype State =
    | Provisioning
    | Closed
    | Opening
    | ReadyReadWrite
    | ReadyReadOnly
    | Quiescing
    | Tombstoned
    | Deleting
    | Failed

  datatype OpenMode = ReadWrite | ReadOnly

  datatype WorkKind = Read | Write

  datatype ValidationOutcome = ValidationPassed | ValidationFailed

  datatype DeletionOutcome = Deleted | DeletionFailed

  datatype QuiesceTarget = ToClosed | ToTombstone

  datatype DrainConfirmation = DrainConfirmation(workDrained: bool, noActiveLeases: bool) {
    predicate Confirmed() {
      workDrained && noActiveLeases
    }
  }

  datatype RepositoryError =
    | InvalidLimits
    | TimeRegression
    | StaleGeneration
    | StaleHandle
    | AlreadyRetired
    | InvalidState
    | NotDrained
    | RetentionActive
    | RetentionExpired
    | GenerationExhausted
    | TimeOverflow
    | NotReady
    | ReadOnlyRepository
    | QuiescingRepository

  datatype Limits = Limits(retention: nat, maxGeneration: nat)

  datatype Handle = Handle(instance: nat, generation: nat)

  datatype Repository = Repository(
    instance: nat,
    id: string,
    limits: Limits,
    generation: nat,
    lastSeen: nat,
    state: State,
    pendingOpen: Option<OpenMode>,
    tombstoneDeadline: Option<nat>,
    retired: bool,
    recoveryReference: Option<Reference>,
    purgeReference: Option<Reference>)

  function NewLimits(retention: nat, maxGeneration: nat): Result<Limits, RepositoryError> {
    if retention == 0 || maxGeneration == 0 then Err(InvalidLimits) else Ok(Limits(retention, maxGeneration))
  }

  function Provision(instance: nat, id: string, limits: Limits, at: nat): (Repository, Handle) {
    (Repository(instance, id, limits, 1, at, Provisioning, None, None, false, None, None), Handle(instance, 1))
  }

  // ---- gates ----

  function GateCas(r: Repository, expected: nat, at: nat): Option<RepositoryError> {
    if at < r.lastSeen then Some(TimeRegression)
    else if expected != r.generation then Some(StaleGeneration)
    else if r.retired then Some(AlreadyRetired)
    else None
  }

  function GateHandle(r: Repository, h: Handle, at: nat): Option<RepositoryError> {
    if at < r.lastSeen then Some(TimeRegression)
    else if h.instance != r.instance || h.generation != r.generation then Some(StaleHandle)
    else if r.retired then Some(AlreadyRetired)
    else None
  }

  predicate CanAdvance(r: Repository) {
    r.generation < U64_MAX && r.generation + 1 <= r.limits.maxGeneration
  }

  /** One accepted transition: state-tied fields are cleared, the generation moves by one. */
  function Commit(r: Repository, at: nat, state: State): Repository {
    r.(generation := r.generation + 1, lastSeen := at, state := state, pendingOpen := None, tombstoneDeadline := None)
  }

  function Issue(r: Repository): Handle {
    Handle(r.instance, r.generation)
  }

  // ---- transitions ----

  datatype Command =
    | CompleteProvisioning(handle: Handle, validation: ValidationOutcome)
    | BeginOpen(expected: nat, mode: OpenMode)
    | CompleteOpen(handle: Handle, validation: ValidationOutcome)
    | BeginQuiesce(expected: nat)
    | CompleteQuiesce(handle: Handle, drain: DrainConfirmation, target: QuiesceTarget)
    | Restore(expected: nat, reference: Reference)
    | BeginPurge(expected: nat, reference: Reference)
    | CompletePurge(handle: Handle, deletion: DeletionOutcome)
    | Admit(kind: WorkKind)

  datatype Reply = NowIn(state: State) | Issued(handle: Handle) | WorkAdmitted

  function Gate(r: Repository, at: nat, cmd: Command): Option<RepositoryError> {
    match cmd
    case CompleteProvisioning(h, _) => GateHandle(r, h, at)
    case CompleteOpen(h, _) => GateHandle(r, h, at)
    case CompleteQuiesce(h, _, _) => GateHandle(r, h, at)
    case CompletePurge(h, _) => GateHandle(r, h, at)
    case BeginOpen(expected, _) => GateCas(r, expected, at)
    case BeginQuiesce(expected) => GateCas(r, expected, at)
    case Restore(expected, _) => GateCas(r, expected, at)
    case BeginPurge(expected, _) => GateCas(r, expected, at)
    case Admit(_) => if at < r.lastSeen then Some(TimeRegression) else if r.retired then Some(AlreadyRetired) else None
  }

  /** The state a command asks for, or why the current state refuses it. */
  function Target(r: Repository, at: nat, cmd: Command): Result<State, RepositoryError> {
    match cmd
    case CompleteProvisioning(_, v) =>
      if r.state != Provisioning then Err(InvalidState) else Ok(if v.ValidationPassed? then Closed else Failed)
    case BeginOpen(_, _) => if r.state != Closed then Err(InvalidState) else Ok(Opening)
    case CompleteOpen(_, v) =>
      if r.state != Opening || r.pendingOpen.None? then Err(InvalidState)
      else Ok(if v.ValidationFailed? then Failed else if r.pendingOpen.value.ReadWrite? then ReadyReadWrite
          else ReadyReadOnly)
    case BeginQuiesce(_) =>
      if r.state.Closed? || r.state.ReadyReadWrite? || r.state.ReadyReadOnly? then Ok(Quiescing) else Err(InvalidState)
    case CompleteQuiesce(_, drain, target) =>
      if r.state != Quiescing then Err(InvalidState)
      else if !drain.Confirmed() then Err(NotDrained)
      else Ok(if target.ToClosed? then Closed else Tombstoned)
    case Restore(_, _) =>
      if r.state != Tombstoned || r.tombstoneDeadline.None? then Err(InvalidState)
      else if at >= r.tombstoneDeadline.value then Err(RetentionExpired)
      else Ok(Closed)
    case BeginPurge(_, _) =>
      if r.state.Failed? then Ok(Deleting)
      else if r.state != Tombstoned || r.tombstoneDeadline.None? then Err(InvalidState)
      else if at < r.tombstoneDeadline.value then Err(RetentionActive)
      else Ok(Deleting)
    case CompletePurge(_, d) =>
      if r.state != Deleting then Err(InvalidState) else Ok(if d.Deleted? then Deleting else Failed)
    case Admit(kind) =>
      if r.state.ReadyReadWrite? || (r.state.ReadyReadOnly? && kind.Read?) then Ok(r.state)
      else if r.state.ReadyReadOnly? then Err(ReadOnlyRepository)
      else if r.state.Quiescing? then Err(QuiescingRepository)
      else Err(NotReady)
  }

  function Accept(r: Repository, at: nat, cmd: Command, state: State): (Repository, Result<Reply, RepositoryError>) {
    var t := Commit(r, at, state);
    match cmd
    case CompleteProvisioning(_, _) => (t, Ok(NowIn(state)))
    case BeginOpen(_, mode) => (t.(pendingOpen := Some(mode)), Ok(Issued(Issue(t))))
    case CompleteOpen(_, _) => (t, Ok(NowIn(state)))
    case BeginQuiesce(_) => (t, Ok(Issued(Issue(t))))
    case CompleteQuiesce(_, _, target) =>
      if target.ToClosed? then (t, Ok(NowIn(state)))
      else
        (match CheckedAdd(at, r.limits.retention)
         case None => (r, Err(TimeOverflow))
         case Some(deadline) => (t.(tombstoneDeadline := Some(deadline)), Ok(NowIn(state))))
    case Restore(_, reference) => (t.(recoveryReference := Some(reference)), Ok(NowIn(state)))
    case BeginPurge(_, reference) => (t.(purgeReference := Some(reference)), Ok(Issued(Issue(t))))
    case CompletePurge(_, d) => (if d.Deleted? then t.(retired := true) else t, Ok(NowIn(state)))
    case Admit(_) => (r.(lastSeen := at), Ok(WorkAdmitted))
  }

  /** One call. */
  function Step(r: Repository, at: nat, cmd: Command): (Repository, Result<Reply, RepositoryError>) {
    var refusal := Gate(r, at, cmd);
    if refusal.Some? then (r, Err(refusal.value))
    else
      match Target(r, at, cmd)
      case Err(e) => (r, Err(e))
      case Ok(state) =>
        if !cmd.Admit? && !CanAdvance(r) then (r, Err(GenerationExhausted)) else Accept(r, at, cmd, state)
  }

  // ---- what every call keeps ----

  predicate LimitsOk(l: Limits) {
    0 < l.retention && 1 <= l.maxGeneration <= U64_MAX
  }

  predicate WellFormed(r: Repository) {
    && LimitsOk(r.limits)
    && 1 <= r.generation <= r.limits.maxGeneration
    && (r.pendingOpen.Some? <==> r.state.Opening?)
    && (r.tombstoneDeadline.Some? <==> r.state.Tombstoned?)
    && (r.tombstoneDeadline.Some? ==> r.tombstoneDeadline.value <= r.lastSeen + r.limits.retention)
    && (r.retired ==> r.state.Deleting?)
    && (r.state.Deleting? ==> r.purgeReference.Some?)
  }

  /** Success adds exactly one generation (admission adds none), failure changes nothing, and time,
      identity and limits never go back. */
  lemma StepKeeps(r: Repository, at: nat, cmd: Command)
    requires WellFormed(r)
    ensures var (t, reply) := Step(r, at, cmd);
      && WellFormed(t)
      && (reply.Err? ==> t == r)
      && (reply.Ok? ==> t.generation == r.generation + (if cmd.Admit? then 0 else 1) && t.lastSeen == at >= r.lastSeen)
      && t.instance == r.instance && t.id == r.id && t.limits == r.limits
      && (reply.Ok? && reply.value.Issued? ==> reply.value.handle == Handle(r.instance, t.generation))
  {
  }

  predicate Doomed(s: State) {
    s.Failed? || s.Deleting?
  }

  /** Failure and deletion are never left, and retirement is absorbing. */
  lemma DoomIsFinal(r: Repository, at: nat, cmd: Command)
    requires WellFormed(r)
    ensures Doomed(r.state) ==> Doomed(Step(r, at, cmd).0.state)
    ensures r.retired ==> Step(r, at, cmd).1.Err? && Step(r, at, cmd).0 == r
  {
  }

  /** At each moment a live tombstone admits exactly one of restoring and purging. */
  lemma TombstoneDecides(r: Repository, at: nat, reference: Reference)
    requires WellFormed(r) && r.state.Tombstoned? && r.lastSeen <= at && CanAdvance(r)
    ensures Step(r, at, Restore(r.generation, reference)).1.Ok? <==> at < r.tombstoneDeadline.value
    ensures Step(r, at, BeginPurge(r.generation, reference)).1.Ok? <==> at >= r.tombstoneDeadline.value
  {
  }

  // ---- runs ----

  datatype Event = Event(at: nat, cmd: Command)

  ghost predicate IsRun(rs: seq<Repository>, evs: seq<Event>) {
    && |rs| == |evs| + 1
    && WellFormed(rs[0])
    && forall i :: 0 <= i < |evs| ==> rs[i + 1] == Step(rs[i], evs[i].at, evs[i].cmd).0
  }

  predicate Succeeds(r: Repository, ev: Event) {
    Step(r, ev.at, ev.cmd).1.Ok?
  }

  ghost function Transitions(rs: seq<Repository>, evs: seq<Event>, n: nat): nat
    requires n <= |evs| && |rs| == |evs| + 1
  {
    if n == 0 then 0
    else Transitions(rs, evs, n - 1) + (if Succeeds(rs[n - 1], evs[n - 1]) && !evs[n - 1].cmd.Admit? then 1 else 0)
  }

  /** In every run the generation counts the accepted transitions exactly. */
  lemma {:induction false} GenerationCounts(rs: seq<Repository>, evs: seq<Event>, n: nat)
    requires IsRun(rs, evs) && n <= |evs|
    ensures WellFormed(rs[n]) && rs[n].generation == rs[0].generation + Transitions(rs, evs, n)
    ensures rs[0].lastSeen <= rs[n].lastSeen && rs[n].instance == rs[0].instance
  {
    hide Step, WellFormed;
    if n > 0 {
      GenerationCounts(rs, evs, n - 1);
      StepKeeps(rs[n - 1], evs[n - 1].at, evs[n - 1].cmd);
    }
  }

  lemma {:induction false} GenerationsGrow(rs: seq<Repository>, evs: seq<Event>, i: nat, j: nat)
    requires IsRun(rs, evs) && i <= j <= |evs|
    ensures rs[i].generation <= rs[j].generation
    decreases j
  {
    if i < j {
      GenerationsGrow(rs, evs, i, j - 1);
      GenerationCounts(rs, evs, j - 1);
      StepKeeps(rs[j - 1], evs[j - 1].at, evs[j - 1].cmd);
    }
  }

  function HandleOf(cmd: Command): Option<Handle> {
    match cmd
    case CompleteProvisioning(h, _) => Some(h)
    case CompleteOpen(h, _) => Some(h)
    case CompleteQuiesce(h, _, _) => Some(h)
    case CompletePurge(h, _) => Some(h)
    case _ => None
  }

  /** In every run a transition handle is spent at most once, whatever it is presented to. */
  lemma HandleSpentOnce(rs: seq<Repository>, evs: seq<Event>, h: Handle, i: nat, j: nat)
    requires IsRun(rs, evs) && i < j < |evs|
    requires HandleOf(evs[i].cmd) == Some(h) && HandleOf(evs[j].cmd) == Some(h)
    ensures !(Succeeds(rs[i], evs[i]) && Succeeds(rs[j], evs[j]))
  {
    GenerationCounts(rs, evs, i);
    StepKeeps(rs[i], evs[i].at, evs[i].cmd);
    GenerationsGrow(rs, evs, i + 1, j);
  }

  predicate Provisioned(s: State) {
    !s.Provisioning? && !Doomed(s)
  }

  predicate Ready(s: State) {
    s.ReadyReadWrite? || s.ReadyReadOnly?
  }

  predicate PassedProvisioning(r: Repository, ev: Event) {
    Succeeds(r, ev) && ev.cmd.CompleteProvisioning? && ev.cmd.validation.ValidationPassed?
  }

  predicate PassedOpen(r: Repository, ev: Event, s: State) {
    && Succeeds(r, ev) && ev.cmd.CompleteOpen? && ev.cmd.validation.ValidationPassed?
    && r.pendingOpen == Some(if s.ReadyReadWrite? then ReadWrite else ReadOnly)
  }

  /** Whatever is past provisioning and not doomed got there through a passed validation. */
  lemma {:induction false} ProvisionedMeansValidated(rs: seq<Repository>, evs: seq<Event>, i: nat) returns (k: nat)
    requires IsRun(rs, evs) && i <= |evs| && rs[0].state.Provisioning? && Provisioned(rs[i].state)
    ensures k < i && PassedProvisioning(rs[k], evs[k])
  {
    k := i - 1;
    GenerationCounts(rs, evs, i - 1);
    if Provisioned(rs[i - 1].state) {
      k := ProvisionedMeansValidated(rs, evs, i - 1);
    } else {
      StepKeeps(rs[k], evs[k].at, evs[k].cmd);
    }
  }

  lemma BecomingReady(r: Repository, ev: Event)
    requires WellFormed(r) && Ready(Step(r, ev.at, ev.cmd).0.state) && Step(r, ev.at, ev.cmd).0.state != r.state
    ensures PassedOpen(r, ev, Step(r, ev.at, ev.cmd).0.state) && Provisioned(r.state)
  {
  }

  /** In every run a ready repository has passed provisioning validation and, after it, an opening
      validation in exactly the mode it is ready in. */
  lemma {:induction false} ReadyMeansValidated(rs: seq<Repository>, evs: seq<Event>, i: nat) returns (j: nat, k: nat)
    requires IsRun(rs, evs) && i <= |evs| && rs[0].state.Provisioning? && Ready(rs[i].state)
    ensures k < j < i && PassedProvisioning(rs[k], evs[k]) && PassedOpen(rs[j], evs[j], rs[i].state)
    ensures forall m :: j < m <= i ==> rs[m].state == rs[i].state
  {
    hide Step, WellFormed, Provisioned, PassedOpen, PassedProvisioning;
    GenerationCounts(rs, evs, i - 1);
    if rs[i - 1].state == rs[i].state {
      j, k := ReadyMeansValidated(rs, evs, i - 1);
    } else {
      j := i - 1;
      BecomingReady(rs[j], evs[j]);
      k := ProvisionedMeansValidated(rs, evs, j);
    }
  }

  lemma {:induction false} DoomForever(rs: seq<Repository>, evs: seq<Event>, i: nat, j: nat)
    requires IsRun(rs, evs) && i <= j <= |evs|
    ensures Doomed(rs[i].state) ==> Doomed(rs[j].state)
    ensures rs[i].retired ==> rs[j] == rs[i]
    decreases j
  {
    if i < j {
      DoomForever(rs, evs, i, j - 1);
      GenerationCounts(rs, evs, j - 1);
      DoomIsFinal(rs[j - 1], evs[j - 1].at, evs[j - 1].cmd);
    }
  }

  // ---- the catalog's embedded use ----

  /** The provision, complete, begin-open, complete-open sequence that opening a catalogued repository
      performs at one time: three transitions from generation one. */
  function OpenSequence(instance: nat, id: string, limits: Limits, mode: OpenMode,
      at: nat): Result<Repository, RepositoryError> {
    var (r0, provision) := Provision(instance, id, limits, at);
    var (r1, a) := Step(r0, at, CompleteProvisioning(provision, ValidationPassed));
    if a.Err? then Err(a.error)
    else
      var (r2, b) := Step(r1, at, BeginOpen(r1.generation, mode));
      if b.Err? then Err(b.error)
      else if !b.value.Issued? then Err(InvalidState)
      else
        var (r3, c) := Step(r2, at, CompleteOpen(b.value.handle, ValidationPassed));
        if c.Err? then Err(c.error) else Ok(r3)
  }

  /** The embedded sequence succeeds exactly when the limits allow four generations, and then ends
      ready in the requested mode. */
  lemma OpenSequenceSucceeds(instance: nat, id: string, limits: Limits, mode: OpenMode, at: nat)
    requires LimitsOk(limits)
    ensures var r := OpenSequence(instance, id, limits, mode, at);
      && (r.Ok? <==> limits.maxGeneration >= 4)
      && (r.Ok? ==> r.value.generation == 4 && WellFormed(r.value)
                    && r.value.state == if mode.ReadWrite? then ReadyReadWrite else ReadyReadOnly)
  {
  }
}

/** The admission scheduler as a value: its state, the pieces of each locked section, and the
    atomic steps that threads take under the controller's mutex.

    Cancellation is the environment's: a step carries the reasons its thread observes and the set
    of queued ids whose tokens the purge finds cancelled. Nothing relates these from one step to
    the next, so every theorem covers tokens that other threads set at any moment. */
module Admission {
  import opened Common
  import opened WorkloadPolicies

  datatype CancelReason = DeadlineElapsed | Requested

  datatype Occupancy = Occupancy(active: nat, queued: nat)

  datatype Entry = Entry(
    id: nat,
    workClass: string,
    operator: bool,
    principal: Option<PrincipalKey>,
    deadline: nat,
    policy: Policy,
    priority: nat,
    bypassLimit: nat,
    bypasses: nat)

  datatype State = State(
    policy: Policy,
    active: nat,
    operatorActive: nat,
    classes: map<string, nat>,
    principals: map<PrincipalKey, Occupancy>,
    queue: seq<Entry>,
    nextId: nat)

  datatype Lease = Lease(workClass: string, operator: bool, principal: Option<PrincipalKey>, policy: Policy)

  function NewState(policy: Policy): State {
    State(policy, 0, 0, map[], map[], [], 0)
  }

  // ---- occupancy lookups ----

  function ClassActive(s: State, c: string): nat {
    if c in s.classes then s.classes[c] else 0
  }

  function PrincipalActive(s: State, p: PrincipalKey): nat {
    if p in s.principals then s.principals[p].active else 0
  }

  function PrincipalQueued(s: State, p: PrincipalKey): nat {
    if p in s.principals then s.principals[p].queued else 0
  }

  /** What `AdmissionController::entry` builds, and what every queued entry keeps. */
  predicate EntryOk(e: Entry) {
    && e.workClass in e.policy.classes
    && Admissible(e.policy)
    && (e.operator <==> e.principal.None?)
    && e.priority <= 3
    && (e.operator ==> e.priority == 0 && e.bypassLimit == 0)
    && e.bypasses <= e.bypassLimit
  }

  /** Whether the entry fits under every active cap of its own policy snapshot. */
  predicate Available(s: State, e: Entry) {
    if e.operator then
      s.operatorActive < e.policy.operatorMaxActive
    else
      && s.active < e.policy.maxActive
      && e.workClass in e.policy.classes
      && ClassActive(s, e.workClass) < e.policy.classes[e.workClass].maxActive
      && (e.policy.principal.Some? && e.principal.Some? ==>
            PrincipalActive(s, e.principal.value) < e.policy.principal.value.maxActive)
  }

  // ---- the selection rule ----

  predicate Eligible(s: State, e: Entry, operator: bool) {
    e.operator == operator && Available(s, e)
  }

  predicate AgedOut(e: Entry) {
    e.bypasses >= e.bypassLimit
  }

  /** A level is protected once any eligible entry of it has been bypassed to its own limit. */
  predicate Protected(s: State, level: nat) {
    exists i :: 0 <= i < |s.queue| && Eligible(s, s.queue[i], false) && s.queue[i].priority == level
        && AgedOut(s.queue[i])
  }

  predicate AnyProtected(s: State) {
    exists i :: 0 <= i < |s.queue| && Eligible(s, s.queue[i], false) && AgedOut(s.queue[i])
  }

  /** No eligible data entry outranks `e`. */
  predicate TopLevel(s: State, e: Entry) {
    forall i :: 0 <= i < |s.queue| && Eligible(s, s.queue[i], false) ==> s.queue[i].priority <= e.priority
  }

  /** Entries that the pool may admit next, before age decides between them. */
  predicate Candidate(s: State, e: Entry, operator: bool) {
    && Eligible(s, e, operator)
    && (!operator ==> if AnyProtected(s) then Protected(s, e.priority) else TopLevel(s, e))
  }

  /** The declarative rule: the oldest candidate. */
  function FirstEligible(s: State, operator: bool): Option<nat> {
    FirstCandidate(s, operator, 0)
  }

  function FirstCandidate(s: State, operator: bool, from: nat): Option<nat>
    decreases |s.queue| - from
  {
    if from >= |s.queue| then None
    else if Candidate(s, s.queue[from], operator) then Some(s.queue[from].id)
    else FirstCandidate(s, operator, from + 1)
  }

  // ---- pieces of a locked section ----

  predicate Keep(e: Entry, now: nat, cancelled: set<nat>) {
    now < e.deadline && e.id !in cancelled
  }

  function ReleaseQueued(principals: map<PrincipalKey, Occupancy>, e: Entry): map<PrincipalKey, Occupancy> {
    if e.principal.Some? && e.principal.value in principals then
      var p := e.principal.value;
      var o := principals[p];
      var queued := if o.queued > 0 then o.queued - 1 else 0;
      if o.active == 0 && queued == 0 then principals - {p} else principals[p := Occupancy(o.active, queued)]
    else principals
  }

  function PurgeFrom(queue: seq<Entry>, principals: map<PrincipalKey, Occupancy>, now: nat, cancelled: set<nat>)
    : (seq<Entry>, map<PrincipalKey, Occupancy>)
  {
    if queue == [] then ([], principals)
    else if Keep(queue[0], now, cancelled) then
      var rest := PurgeFrom(queue[1..], principals, now, cancelled);
      ([queue[0]] + rest.0, rest.1)
    else PurgeFrom(queue[1..], ReleaseQueued(principals, queue[0]), now, cancelled)
  }

  function Purge(s: State, now: nat, cancelled: set<nat>): State {
    var r := PurgeFrom(s.queue, s.principals, now, cancelled);
    s.(queue := r.0, principals := r.1)
  }

  function CountQueued(queue: seq<Entry>, f: Entry -> bool): nat {
    if queue == [] then 0 else (if f(queue[0]) then 1 else 0) + CountQueued(queue[1..], f)
  }

  function DataQueued(queue: seq<Entry>): nat {
    CountQueued(queue, (e: Entry) => !e.operator)
  }

  function OperatorQueued(queue: seq<Entry>): nat {
    CountQueued(queue, (e: Entry) => e.operator)
  }

  function ClassQueued(queue: seq<Entry>, c: string): nat {
    CountQueued(queue, (e: Entry) => !e.operator && e.workClass == c)
  }

  /** The first queue cap of the entry's own snapshot that is already used up. */
  function QueueRefusal(s: State, e: Entry): Option<AdmissionScope> {
    if e.operator then
      if OperatorQueued(s.queue) >= e.policy.operatorMaxQueued then Some(Operator) else None
    else if DataQueued(s.queue) >= e.policy.maxQueued then Some(Global)
    else if e.workClass in e.policy.classes
        && ClassQueued(s.queue, e.workClass) >= e.policy.classes[e.workClass].maxQueued then Some(Class)
    else if e.policy.principal.Some? && e.principal.Some?
            && PrincipalQueued(s, e.principal.value) >= e.policy.principal.value.maxQueued then Some(Principal)
    else None
  }

  /** One newer admission, seen by one queued entry at the scheduling point. */
  function Aged(s: State, e: Entry, admittedId: nat): Entry {
    if !e.operator && e.id < admittedId && e.bypasses < e.bypassLimit && Available(s, e) then
      e.(bypasses := e.bypasses + 1)
    else e
  }

  function AgeOlderEligible(s: State, admittedId: nat): State {
    s.(queue := seq(|s.queue|, i requires 0 <= i < |s.queue| => Aged(s, s.queue[i], admittedId)))
  }

  function Occupy(s: State, e: Entry): State {
    if e.operator then s.(operatorActive := s.operatorActive + 1)
    else
      var t := s.(active := s.active + 1, classes := s.classes[e.workClass := ClassActive(s, e.workClass) + 1]);
      if e.principal.Some? then
        t.(principals := s.principals[e.principal.value := Occupancy(PrincipalActive(s, e.principal.value) + 1,
                                                                    PrincipalQueued(s, e.principal.value))])
      else t
  }

  function ErrorOf(reason: CancelReason): WorkloadError {
    match reason
    case DeadlineElapsed => RequestTimedOut
    case Requested => Cancelled
  }

  function LeaseOf(e: Entry): Lease {
    Lease(e.workClass, e.operator, e.principal, e.policy)
  }

  function Activate(s: State, e: Entry, reason: Option<CancelReason>): (State, Result<Lease, WorkloadError>) {
    if reason.Some? then (s, Err(ErrorOf(reason.value)))
    else (Occupy(if e.operator then s else AgeOlderEligible(s, e.id), e), Ok(LeaseOf(e)))
  }

  function Enqueue(s: State, e: Entry): State {
    var t := if e.principal.Some? then
               s.(principals := s.principals[e.principal.value := Occupancy(PrincipalActive(s, e.principal.value),
                                                                           PrincipalQueued(s, e.principal.value) + 1)])
             else s;
    t.(queue := s.queue + [e])
  }

  /** Position of the queued entry with this id. */
  function IndexOf(queue: seq<Entry>, id: nat): (r: Option<nat>)
    ensures r.Some? ==> r.value < |queue| && queue[r.value].id == id
    ensures r.None? ==> forall i :: 0 <= i < |queue| ==> queue[i].id != id
  {
    if queue == [] then None
    else if queue[0].id == id then Some(0)
    else
      match IndexOf(queue[1..], id)
      case None => None
      case Some(i) => Some(i + 1)
  }

  function RemoveQueued(s: State, index: nat): State
    requires index < |s.queue|
  {
    s.(queue := s.queue[..index] + s.queue[index + 1..], principals := ReleaseQueued(s.principals, s.queue[index]))
  }

  function ReleaseActive(principals: map<PrincipalKey, Occupancy>, p: PrincipalKey): map<PrincipalKey, Occupancy> {
    if p in principals then
      var o := principals[p];
      var active := if o.active > 0 then o.active - 1 else 0;
      if active == 0 && o.queued == 0 then principals - {p} else principals[p := Occupancy(active, o.queued)]
    else principals
  }

  function ReleaseLease(s: State, l: Lease): State {
    if l.operator then s.(operatorActive := if s.operatorActive > 0 then s.operatorActive - 1 else 0)
    else
      var left := if ClassActive(s, l.workClass) > 0 then ClassActive(s, l.workClass) - 1 else 0;
      s.(active := if s.active > 0 then s.active - 1 else 0,
         classes := if left == 0 then s.classes - {l.workClass} else s.classes[l.workClass := left],
         principals := if l.principal.Some? then ReleaseActive(s.principals, l.principal.value) else s.principals)
  }

  // ---- the locked sections ----

  datatype Request = Request(workClass: string, operator: bool, principal: PrincipalKey)

  /** What the environment shows to one arrival: the clock, and the cancellation observed when the
      entry is built, by the purge, and at the last check before activation. */
  datatype Arrival = Arrival(
    now: nat,
    horizon: nat,
    entryReason: Option<CancelReason>,
    purgeAt: nat,
    cancelled: set<nat>,
    finalReason: Option<CancelReason>)

  datatype ArriveOutcome = Refused(error: WorkloadError) | Admitted(lease: Lease) | Queued(id: nat, deadline: nat)

  datatype PollOutcome = PollRefused(error: WorkloadError) | PollAdmitted(lease: Lease) | Waiting

  function SchedulingOf(policy: Policy, request: Request): (nat, nat) {
    if request.operator || policy.priorityScheduling.None? then (0, 0)
    else
      var p := policy.priorityScheduling.value;
      (if request.workClass in p.classPriorities then p.classPriorities[request.workClass] else 0, p.maxBypass)
  }

  /** `AdmissionController::entry`: the id is consumed before the deadline is computed. */
  function MakeEntry(s: State, request: Request, a: Arrival): (State, Result<Entry, WorkloadError>) {
    if request.workClass !in s.policy.classes then (s, Err(UnknownClass))
    else if a.entryReason.Some? then (s, Err(ErrorOf(a.entryReason.value)))
    else if CheckedAdd(s.nextId, 1).None? then (s, Err(Unavailable))
    else
      var t := s.(nextId := s.nextId + 1);
      var scheduling := SchedulingOf(s.policy, request);
      match CheckedInstant(a.now, s.policy.queueTimeout, a.horizon)
      case None => (t, Err(InvalidPolicy))
      case Some(deadline) =>
        (t, Ok(Entry(s.nextId, request.workClass, request.operator,
                     if request.operator then None else Some(request.principal),
                     deadline, s.policy, scheduling.0, scheduling.1, 0)))
  }

  /** The first locked section of `try_acquire`. */
  function Arrive(s: State, request: Request, a: Arrival): (State, ArriveOutcome) {
    if s.policy.requestTimeout.Some? && CheckedInstant(a.now, s.policy.requestTimeout.value, a.horizon).None? then
      (s, Refused(InvalidPolicy))
    else
      var (t, made) := MakeEntry(s, request, a);
      match made
      case Err(error) => (t, Refused(error))
      case Ok(e) => Place(Purge(t, a.purgeAt, a.cancelled), e, a.finalReason)
  }

  /** Direct admission if nothing queued in the pool could go first, else a queue slot. */
  function Place(s: State, e: Entry, finalReason: Option<CancelReason>): (State, ArriveOutcome) {
    if Available(s, e) && FirstEligible(s, e.operator).None? then
      var (t, lease) := Activate(s, e, finalReason);
      (t, if lease.Ok? then Admitted(lease.value) else Refused(lease.error))
    else
      match QueueRefusal(s, e)
      case Some(scope) => (s, Refused(Overloaded(scope)))
      case None => (Enqueue(s, e), Queued(e.id, e.deadline))
  }

  datatype Ticket = Ticket(deadline: nat, operator: bool)

  datatype Observation = Observation(
    now: nat,
    reason: Option<CancelReason>,
    cancelled: set<nat>,
    finalReason: Option<CancelReason>)

  /** One pass of the waiting loop of `try_acquire`. */
  function Poll(s: State, id: nat, ticket: Ticket, o: Observation): (State, PollOutcome) {
    var t := Purge(s, o.now, o.cancelled);
    if o.reason.Some? then (t, PollRefused(ErrorOf(o.reason.value)))
    else if o.now >= ticket.deadline then (t, PollRefused(AdmissionTimedOut))
    else if FirstEligible(t, ticket.operator) == Some(id) then
      match IndexOf(t.queue, id)
      case None => (t, PollRefused(Unavailable))
      case Some(index) =>
        var (u, lease) := Activate(RemoveQueued(t, index), t.queue[index], o.finalReason);
        (u, if lease.Ok? then PollAdmitted(lease.value) else PollRefused(lease.error))
    else (t, Waiting)
  }

  /** `QueueTicket::drop`. */
  function DropTicket(s: State, id: nat): State {
    match IndexOf(s.queue, id)
    case None => s
    case Some(index) => RemoveQueued(s, index)
  }

  function DataCeiling(p: Policy): nat {
    p.maxActive + p.maxQueued
  }

  function OperatorCeiling(p: Policy): nat {
    p.operatorMaxActive + p.operatorMaxQueued
  }

  /** `apply_candidate`: startup ceilings first, then identity, version and class coverage. */
  function ApplyCandidate(startup: Policy, s: State, candidate: Policy, declared: set<string>,
      reason: Option<CancelReason>)
    : (State, Result<nat, WorkloadError>)
  {
    if || DataCeiling(candidate) + 1 > USIZE_MAX
       || OperatorCeiling(candidate) + 1 > USIZE_MAX
       || DataCeiling(candidate) > DataCeiling(startup)
       || OperatorCeiling(candidate) > OperatorCeiling(startup) then (s, Err(InvalidPolicy))
    else if !(declared <= candidate.classes.Keys) then (s, Err(UnknownClass))
    else if candidate.policyId != s.policy.policyId
        || candidate.version <= s.policy.version then (s, Err(InvalidPolicy))
    else if reason.Some? then (s, Err(ErrorOf(reason.value)))
    else (s.(policy := candidate, classes := map c | c in s.classes && s.classes[c] != 0 :: s.classes[c]),
        Ok(candidate.version))
  }
}

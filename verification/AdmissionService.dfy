/** What the scheduler owes a request: an answer that follows from the live leases and the waiting
    requests alone, a lease on the terms it asked for, and its turn when its turn comes. */
module AdmissionService {
  import opened Common
  import opened WorkloadPolicies
  import opened Admission
  import opened AdmissionChoice
  import opened AdmissionCounting
  import opened AdmissionInvariant
  import opened AdmissionRuns
  import opened AdmissionFairness

  // ---- room, as a statement about the live leases ----

  /** One more lease on these terms stays within every active cap of its own policy. */
  ghost predicate Room(leases: map<nat, Lease>, l: Lease) {
    if l.operator then OperatorLeases(leases) < l.policy.operatorMaxActive
    else
      && DataLeases(leases) < l.policy.maxActive
      && l.workClass in l.policy.classes && ClassLeases(leases, l.workClass) < l.policy.classes[l.workClass].maxActive
      && (l.policy.principal.Some? && l.principal.Some? ==>
            PrincipalLeases(leases, l.principal.value) < l.policy.principal.value.maxActive)
  }

  lemma RoomIsAvailability(startup: Policy, s: State, leases: map<nat, Lease>, e: Entry)
    requires Consistent(startup, s, leases)
    ensures Available(s, e) <==> Room(leases, LeaseOf(e))
  {
    assert e.workClass in s.classes <==> ClassLeases(leases, e.workClass) > 0;
    if e.principal.Some? {
      var k := e.principal.value;
      assert PrincipalExact(s.principals, PrincipalQueuedCount(s.queue, k), PrincipalLeases(leases, k), k);
    }
  }

  /** Some request of the pool is still waiting, in time and not cancelled, and has room. */
  ghost predicate Waits(w: World, operator: bool, now: nat, cancelled: set<nat>) {
    exists e :: e in w.state.queue && Keep(e, now, cancelled) && e.operator == operator && Room(w.leases, LeaseOf(e))
  }

  /** The purged state is consistent and holds exactly the kept entries. */
  lemma Purges(startup: Policy, s: State, leases: map<nat, Lease>, now: nat, cancelled: set<nat>)
    requires Consistent(startup, s, leases)
    ensures var t := Purge(s, now, cancelled);
      && Consistent(startup, t, leases) && InIdOrder(t.queue)
      && forall e :: e in t.queue <==> e in s.queue && Keep(e, now, cancelled)
  {
    PurgeConsistent(startup, s, leases, now, cancelled);
    PurgeKeepsExactly(s.queue, s.principals, now, cancelled);
  }

  /** Selection finds nobody exactly when nobody of the pool waits with room. */
  lemma NobodyWaits(w: World, s: State, operator: bool, now: nat, cancelled: set<nat>)
    requires Consistent(w.startup, s, w.leases) && s.queue == w.state.queue
    ensures FirstEligible(Purge(s, now, cancelled), operator).None? <==> !Waits(w, operator, now, cancelled)
  {
    hide Consistent, Available, Purge, FirstEligible, Room;
    var t := Purge(s, now, cancelled);
    Purges(w.startup, s, w.leases, now, cancelled);
    NoneIffNothingEligible(t, operator);
    forall e | e in t.queue ensures Available(t, e) <==> Room(w.leases, LeaseOf(e)) {
      RoomIsAvailability(w.startup, t, w.leases, e);
    }
    if Waits(w, operator, now, cancelled) {
      var e :| e in s.queue && Keep(e, now, cancelled) && e.operator == operator && Room(w.leases, LeaseOf(e));
      assert e in t.queue;
      var i :| 0 <= i < |t.queue| && t.queue[i] == e;
      assert Eligible(t, t.queue[i], operator);
    } else {
      forall i | 0 <= i < |t.queue| ensures !Eligible(t, t.queue[i], operator) {
        assert t.queue[i] in t.queue;
      }
    }
  }

  // ---- polls ----

  /** After the purge, the rule stops at this request. */
  ghost predicate HasTurn(w: World, id: nat, o: Observation)
    requires id in w.tickets
  {
    var t := Purge(w.state, o.now, o.cancelled);
    exists k :: 0 <= k < |t.queue| && ChosenAt(t, w.tickets[id].operator, k) && t.queue[k].id == id
  }

  lemma TurnIsSelection(w: World, id: nat, o: Observation)
    requires id in w.tickets
    ensures HasTurn(w, id, o) <==>
        FirstEligible(Purge(w.state, o.now, o.cancelled), w.tickets[id].operator) == Some(id)
  {
    hide Purge, FirstEligible, Candidate;
    var t := Purge(w.state, o.now, o.cancelled);
    if HasTurn(w, id, o) {
      var k :| 0 <= k < |t.queue| && ChosenAt(t, w.tickets[id].operator, k) && t.queue[k].id == id;
      ChosenDecides(t, w.tickets[id].operator, k);
    } else if FirstEligible(t, w.tickets[id].operator) == Some(id) {
      var k := ChosenIsOldestOfItsLevel(t, w.tickets[id].operator);
    }
  }

  /** Whoever has its turn is queued, in time and not cancelled, has room and holds no lease yet. */
  lemma TurnMeansWaiting(w: World, id: nat, o: Observation)
    requires Inv(w) && id in w.tickets && HasTurn(w, id, o)
    ensures id !in w.leases && Find(w.state.queue, id).Some?
    ensures var e := Find(w.state.queue, id).value;
      && Find(Purge(w.state, o.now, o.cancelled).queue, id) == Some(e)
      && Keep(e, o.now, o.cancelled) && e.operator == w.tickets[id].operator && Room(w.leases, LeaseOf(e))
  {
    hide Purge, Room;
    var t := Purge(w.state, o.now, o.cancelled);
    Purges(w.startup, w.state, w.leases, o.now, o.cancelled);
    var k :| 0 <= k < |t.queue| && ChosenAt(t, w.tickets[id].operator, k) && t.queue[k].id == id;
    assert t.queue[k] in t.queue;
    FindsMember(t.queue, t.queue[k]);
    FindsMember(w.state.queue, t.queue[k]);
    RoomIsAvailability(w.startup, t, w.leases, t.queue[k]);
  }

  function RefusalFor(reason: CancelReason): PollOutcome {
    PollRefused(if reason.DeadlineElapsed? then RequestTimedOut else Cancelled)
  }

  /** A poll answers with the reason of its own cancellation, with a timeout from the deadline on, with the
      lease exactly when it has its turn and is not cancelled at the last moment, and otherwise goes on
      waiting. */
  lemma PollAnswers(w: World, id: nat, o: Observation)
    requires Inv(w) && id in w.tickets
    ensures var answer := Poll(w.state, id, w.tickets[id], o).1;
      if o.reason.Some? then answer == RefusalFor(o.reason.value)
      else if w.tickets[id].deadline <= o.now then answer == PollRefused(AdmissionTimedOut)
      else if !HasTurn(w, id, o) then answer == Waiting
      else if o.finalReason.Some? then answer == RefusalFor(o.finalReason.value)
      else
        && Find(w.state.queue, id).Some?
        && var e := Find(w.state.queue, id).value;
           answer == PollAdmitted(Lease(e.workClass, e.operator, e.principal, e.policy))
  {
    hide Purge, FirstEligible, Consistent;
    TurnIsSelection(w, id, o);
    if HasTurn(w, id, o) {
      TurnMeansWaiting(w, id, o);
    }
  }

  /** A waiting request is served exactly when it has its turn: it leaves the queue, and its lease carries
      the class, principal and policy it was queued with. Otherwise nothing changes but the purge. */
  lemma PollServes(w: World, id: nat, o: Observation)
    requires Inv(w) && id in w.tickets
    requires o.reason.None? && o.finalReason.None? && o.now < w.tickets[id].deadline
    ensures var v := Step(w, Polling(id, o));
      && (id in v.leases && id !in w.leases <==> HasTurn(w, id, o))
      && (HasTurn(w, id, o) ==>
            && Find(w.state.queue, id).Some? && Find(v.state.queue, id).None?
            && var e := Find(w.state.queue, id).value;
               Keep(e, o.now, o.cancelled)
               && v.leases == w.leases[id := Lease(e.workClass, e.operator, e.principal, e.policy)])
      && (!HasTurn(w, id, o) ==> v.leases == w.leases && v.state == Purge(w.state, o.now, o.cancelled))
  {
    hide Purge, FirstEligible, Consistent;
    PollAnswers(w, id, o);
    TurnIsSelection(w, id, o);
    if HasTurn(w, id, o) {
      TurnMeansWaiting(w, id, o);
      var v := Step(w, Polling(id, o));
      StepKeepsInv(w, Polling(id, o));
      GranteeLeaves(v, id);
    }
  }

  lemma GranteeLeaves(w: World, id: nat)
    requires Inv(w) && id in w.leases
    ensures Find(w.state.queue, id).None?
  {
  }

  /** Work conservation: as long as somebody of a pool waits with room, exactly one waiting request of
      the pool would be served by polling now. */
  lemma OneIsServed(w: World, operator: bool, o: Observation) returns (id: nat)
    requires Inv(w) && o.reason.None? && o.finalReason.None? && Waits(w, operator, o.now, o.cancelled)
    ensures id in w.tickets && w.tickets[id].operator == operator && o.now < w.tickets[id].deadline
    ensures id in Step(w, Polling(id, o)).leases && id !in w.leases
    ensures forall x :: x in w.tickets && x != id && w.tickets[x].operator == operator ==>
        Step(w, Polling(x, o)).leases == w.leases
  {
    hide Consistent, Purge, FirstEligible, Step, Room;
    var t := Purge(w.state, o.now, o.cancelled);
    NobodyWaits(w, w.state, operator, o.now, o.cancelled);
    var k := ChosenIsOldestOfItsLevel(t, operator);
    id := t.queue[k].id;
    Purges(w.startup, w.state, w.leases, o.now, o.cancelled);
    assert t.queue[k] in t.queue;
    var i :| 0 <= i < |w.state.queue| && w.state.queue[i] == t.queue[k];
    assert HasTurn(w, id, o);
    PollServes(w, id, o);
    forall x | x in w.tickets && x != id && w.tickets[x].operator == operator
      ensures Step(w, Polling(x, o)).leases == w.leases
    {
      OthersWait(w, x, o, id);
    }
  }

  lemma OthersWait(w: World, x: nat, o: Observation, id: nat)
    requires Inv(w) && x in w.tickets && x != id
    requires FirstEligible(Purge(w.state, o.now, o.cancelled), w.tickets[x].operator) == Some(id)
    ensures Step(w, Polling(x, o)).leases == w.leases
  {
    hide Purge, FirstEligible, Consistent;
  }

  // ---- arrivals ----

  /** The lease that a request asks for under a policy. */
  function Terms(request: Request, policy: Policy): Lease {
    Lease(request.workClass, request.operator, if request.operator then None else Some(request.principal), policy)
  }

  /** The request can be numbered and timed at all. */
  predicate Considered(w: World, request: Request, a: Arrival) {
    var p := w.state.policy;
    && request.workClass in p.classes && a.entryReason.None? && w.state.nextId < U64_MAX
    && a.now + p.queueTimeout <= a.horizon
    && (p.requestTimeout.Some? ==> a.now + p.requestTimeout.value <= a.horizon)
  }

  /** The entry of a request that has to wait. */
  predicate QueuedAs(e: Entry, id: nat, request: Request, a: Arrival, policy: Policy) {
    && e.id == id && e.bypasses == 0 && e.deadline == a.now + policy.queueTimeout
    && LeaseOf(e) == Terms(request, policy)
    && (request.operator || policy.priorityScheduling.None? ==> e.priority == 0 && e.bypassLimit == 0)
    && (!request.operator && policy.priorityScheduling.Some? ==>
          var table := policy.priorityScheduling.value;
          && request.workClass in table.classPriorities && e.priority == table.classPriorities[request.workClass]
          && e.bypassLimit == table.maxBypass)
  }

  lemma MakeEntryIsExact(w: World, request: Request, a: Arrival)
    requires Inv(w) && Considered(w, request, a)
    ensures var (t, made) := MakeEntry(w.state, request, a);
      && made.Ok? && QueuedAs(made.value, w.state.nextId, request, a, w.state.policy)
      && EntryOk(made.value) && WithinEnvelope(w.startup, made.value.policy)
      && t == w.state.(nextId := w.state.nextId + 1) && Consistent(w.startup, t, w.leases)
      && Arrive(w.state, request, a) == Place(Purge(t, a.purgeAt, a.cancelled), made.value, a.finalReason)
  {
    hide Place, Purge;
    MakeEntryOk(w.startup, w.state, w.leases, request, a);
  }

  /** Waiting entries of one kind that this arrival's purge leaves. */
  function Waiters(queue: seq<Entry>, a: Arrival, f: Entry -> bool): nat {
    CountQueued(queue, (e: Entry) => Keep(e, a.purgeAt, a.cancelled) && f(e))
  }

  lemma {:induction false} PurgeCounts(queue: seq<Entry>, principals: map<PrincipalKey, Occupancy>, a: Arrival,
      f: Entry -> bool)
    ensures CountQueued(PurgeFrom(queue, principals, a.purgeAt, a.cancelled).0, f) == Waiters(queue, a, f)
  {
    if queue != [] {
      var keep := Keep(queue[0], a.purgeAt, a.cancelled);
      var rest := if keep then principals else ReleaseQueued(principals, queue[0]);
      PurgeCounts(queue[1..], rest, a, f);
      var kept := PurgeFrom(queue[1..], rest, a.purgeAt, a.cancelled).0;
      assert ([queue[0]] + kept)[1..] == kept;
    }
  }

  /** The widest queue cap of the terms' own policy that the waiting requests already use up. */
  function FullScope(queue: seq<Entry>, a: Arrival, l: Lease): Option<AdmissionScope>
    requires l.workClass in l.policy.classes
  {
    if l.operator then
      if Waiters(queue, a, (e: Entry) => e.operator) < l.policy.operatorMaxQueued then None else Some(Operator)
    else if Waiters(queue, a, (e: Entry) => !e.operator) >= l.policy.maxQueued then Some(Global)
    else if Waiters(queue, a, (e: Entry) => !e.operator && e.workClass == l.workClass)
        >= l.policy.classes[l.workClass].maxQueued then Some(Class)
    else if l.policy.principal.Some? && l.principal.Some?
        && Waiters(queue, a, (e: Entry) => e.principal == l.principal) >= l.policy.principal.value.maxQueued then
      Some(Principal)
    else None
  }

  lemma RefusalIsFullScope(w: World, s: State, e: Entry, a: Arrival)
    requires Consistent(w.startup, s, w.leases) && s.queue == w.state.queue && EntryOk(e)
    ensures QueueRefusal(Purge(s, a.purgeAt, a.cancelled), e) == FullScope(w.state.queue, a, LeaseOf(e))
  {
    var t := Purge(s, a.purgeAt, a.cancelled);
    PurgeConsistent(w.startup, s, w.leases, a.purgeAt, a.cancelled);
    PurgeCounts(s.queue, s.principals, a, (x: Entry) => x.operator);
    PurgeCounts(s.queue, s.principals, a, (x: Entry) => !x.operator);
    PurgeCounts(s.queue, s.principals, a, (x: Entry) => !x.operator && x.workClass == e.workClass);
    if e.principal.Some? {
      var k := e.principal.value;
      PurgeCounts(s.queue, s.principals, a, (x: Entry) => x.principal == Some(k));
      PurgeCounts(s.queue, s.principals, a, (x: Entry) => x.principal == e.principal);
      SameKind(t.queue, (x: Entry) => x.principal == Some(k), (x: Entry) => x.principal == e.principal);
      assert PrincipalExact(t.principals, PrincipalQueuedCount(t.queue, k), PrincipalLeases(w.leases, k), k);
    }
  }

  lemma {:induction false} SameKind(queue: seq<Entry>, f: Entry -> bool, g: Entry -> bool)
    requires forall i :: 0 <= i < |queue| ==> f(queue[i]) == g(queue[i])
    ensures CountQueued(queue, f) == CountQueued(queue, g)
  {
    if queue != [] {
      SameKind(queue[1..], f, g);
    }
  }

  /** A request that is considered is admitted at once exactly when there is room and nobody of its pool
      waits with room; otherwise it is queued exactly when the waiting requests leave a place. */
  ghost function Expected(w: World, request: Request, a: Arrival): ArriveOutcome
    requires Considered(w, request, a)
  {
    var l := Terms(request, w.state.policy);
    if Room(w.leases, l) && !Waits(w, request.operator, a.purgeAt, a.cancelled) then
      if a.finalReason.Some? then Refused(RefusalFor(a.finalReason.value).error) else Admitted(l)
    else
      match FullScope(w.state.queue, a, l)
      case Some(scope) => Refused(Overloaded(scope))
      case None => Queued(w.state.nextId, a.now + w.state.policy.queueTimeout)
  }

  lemma ArrivalIsExact(w: World, request: Request, a: Arrival)
    requires Inv(w) && Considered(w, request, a)
    ensures Arrive(w.state, request, a).1 == Expected(w, request, a)
  {
    hide Purge, FirstEligible, Available, QueueRefusal, FullScope, Room, Waits, Arrive, Consistent, MakeEntry, EntryOk;
    MakeEntryIsExact(w, request, a);
    var (t, made) := MakeEntry(w.state, request, a);
    var e := made.value;
    var s := Purge(t, a.purgeAt, a.cancelled);
    Purges(w.startup, t, w.leases, a.purgeAt, a.cancelled);
    RoomIsAvailability(w.startup, s, w.leases, e);
    NobodyWaits(w, t, e.operator, a.purgeAt, a.cancelled);
    RefusalIsFullScope(w, t, e, a);
  }

  /** Anything else is refused for the first of these reasons, and touches neither queue nor leases. */
  lemma UnconsideredIsRefused(w: World, request: Request, a: Arrival)
    requires Inv(w) && !Considered(w, request, a)
    ensures var p := w.state.policy;
      var answer := Arrive(w.state, request, a).1;
      var v := Step(w, Arriving(request, a));
      && v.leases == w.leases && v.tickets == w.tickets && v.state == w.state.(nextId := v.state.nextId)
      && answer.Refused?
      && answer.error ==
           if p.requestTimeout.Some? && a.horizon < a.now + p.requestTimeout.value then InvalidPolicy
           else if request.workClass !in p.classes then UnknownClass
           else if a.entryReason.Some? then RefusalFor(a.entryReason.value).error
           else if w.state.nextId == U64_MAX then Unavailable
           else InvalidPolicy
  {
    hide Place, Purge, Consistent;
    assert w.state.nextId <= U64_MAX by {
      NextIdFits(w.startup, w.state, w.leases);
    }
  }

  lemma NextIdFits(startup: Policy, s: State, leases: map<nat, Lease>)
    requires Consistent(startup, s, leases)
    ensures s.nextId <= U64_MAX
  {
  }

  /** What an arrival leaves in the world: its own lease or its own entry and ticket, on its own terms. */
  lemma ArrivalPlaces(w: World, request: Request, a: Arrival)
    requires Inv(w) && Considered(w, request, a)
    ensures var id, v := w.state.nextId, Step(w, Arriving(request, a));
      var entry := Find(v.state.queue, id);
      && v.state.nextId == id + 1
      && v.leases ==
           (if Expected(w, request, a).Admitted? then w.leases[id := Terms(request, w.state.policy)] else w.leases)
      && (entry.Some? <==> Expected(w, request, a).Queued?)
      && (entry.Some? ==> QueuedAs(entry.value, id, request, a, w.state.policy) && id in v.tickets
                          && v.tickets[id] == Ticket(a.now + w.state.policy.queueTimeout, request.operator))
      && (entry.None? ==> v.tickets == w.tickets)
  {
    hide PurgeFrom, FirstEligible, Available, QueueRefusal, FullScope, Room, Waits, Arrive, Consistent, MakeEntry,
        EntryOk;
    ArrivalIsExact(w, request, a);
    MakeEntryIsExact(w, request, a);
    var (t, made) := MakeEntry(w.state, request, a);
    var s := Purge(t, a.purgeAt, a.cancelled);
    PurgedQueue(w.startup, t, w.leases, a.purgeAt, a.cancelled);
    NewcomerIsFresh(w, request, a);
    PlaceQueues(s, made.value, a.finalReason);
  }

  lemma PlaceQueues(s: State, e: Entry, finalReason: Option<CancelReason>)
    requires InIdOrder(s.queue) && forall i :: 0 <= i < |s.queue| ==> s.queue[i].id < e.id
    ensures var (t, outcome) := Place(s, e, finalReason);
      && Find(t.queue, e.id) == (if outcome.Queued? then Some(e) else None)
      && t.nextId == s.nextId
  {
    hide FirstEligible, Available, QueueRefusal;
    FindAfterEnqueue(s.queue, e, e.id);
    FindAfterAging(s, e.id, e.id);
    var t := Place(s, e, finalReason).0;
    assert Find(s.queue, e.id).None?;
  }

  // ---- leaving the queue ----

  /** What takes a waiting request out of the queue: the purge of a section that finds it late or
      cancelled, its own turn, or its own thread giving up. */
  ghost predicate Leaves(w: World, ev: Event, e: Entry)
    requires Enabled(w, ev)
  {
    match ev
    case Arriving(request, a) => Considered(w, request, a) && !Keep(e, a.purgeAt, a.cancelled)
    case Polling(id, o) => !Keep(e, o.now, o.cancelled) || (id == e.id && o.reason.None? && HasTurn(w, id, o))
    case TicketDropped(id) => id == e.id
    case LeaseDropped(_) => false
    case Reloading(_, _, _, _, _) => false
  }

  lemma FindKept(s: State, now: nat, cancelled: set<nat>, id: nat)
    requires InIdOrder(s.queue) && InIdOrder(Purge(s, now, cancelled).queue) && Find(s.queue, id).Some?
    ensures var e := Find(s.queue, id).value;
      Find(Purge(s, now, cancelled).queue, id) == if Keep(e, now, cancelled) then Some(e) else None
  {
    var e := Find(s.queue, id).value;
    var t := Purge(s, now, cancelled);
    PurgeKeepsExactly(s.queue, s.principals, now, cancelled);
    assert e in s.queue;
    if Keep(e, now, cancelled) {
      FindsMember(t.queue, e);
    } else if Find(t.queue, id).Some? {
      FindAfterPurge(s, now, cancelled, id);
    }
  }

  lemma FindBesides(s: State, index: nat, id: nat)
    requires InIdOrder(s.queue) && index < |s.queue| && s.queue[index].id != id && Find(s.queue, id).Some?
    ensures Find(RemoveQueued(s, index).queue, id) == Find(s.queue, id)
  {
    var e := Find(s.queue, id).value;
    var rest := RemoveQueued(s, index).queue;
    var i := IndexOf(s.queue, id).value;
    assert rest[if i < index then i else i - 1] == e;
    assert InIdOrder(rest);
    FindsMember(rest, e);
  }

  lemma PollDeparture(w: World, x: nat, o: Observation, id: nat)
    requires Inv(w) && x in w.tickets && Find(w.state.queue, id).Some?
    ensures Find(Step(w, Polling(x, o)).state.queue, id).None? <==>
        Leaves(w, Polling(x, o), Find(w.state.queue, id).value)
  {
    hide Purge, FirstEligible, Consistent, Activate, HasTurn, Available;
    var t := Purge(w.state, o.now, o.cancelled);
    var e := Find(w.state.queue, id).value;
    PurgedQueue(w.startup, w.state, w.leases, o.now, o.cancelled);
    InOrder(w.startup, w.state, w.leases);
    FindKept(w.state, o.now, o.cancelled, id);
    TurnIsSelection(w, x, o);
    if HasTurn(w, x, o) {
      TurnMeansWaiting(w, x, o);
      var index := IndexOf(t.queue, x).value;
      AfterSelection(t, index, o.finalReason, id);
    }
  }

  lemma AfterSelection(t: State, index: nat, reason: Option<CancelReason>, id: nat)
    requires InIdOrder(t.queue) && index < |t.queue|
    ensures Find(Activate(RemoveQueued(t, index), t.queue[index], reason).0.queue, id).Some? <==>
        Find(t.queue, id).Some? && t.queue[index].id != id
  {
    hide Available, ReleaseQueued;
    FindAfterAging(RemoveQueued(t, index), t.queue[index].id, id);
    if Find(RemoveQueued(t, index).queue, id).Some? {
      FindAfterRemove(t, index, id);
    } else if Find(t.queue, id).Some? && t.queue[index].id != id {
      FindBesides(t, index, id);
    }
  }

  lemma ArrivalDeparture(w: World, request: Request, a: Arrival, id: nat)
    requires Inv(w) && Find(w.state.queue, id).Some?
    ensures Find(Step(w, Arriving(request, a)).state.queue, id).None? <==>
        Leaves(w, Arriving(request, a), Find(w.state.queue, id).value)
  {
    hide Purge, Consistent, Place, MakeEntry, Arrive, EntryOk;
    if Considered(w, request, a) {
      MakeEntryIsExact(w, request, a);
      var (t, made) := MakeEntry(w.state, request, a);
      PurgedQueue(w.startup, t, w.leases, a.purgeAt, a.cancelled);
      InOrder(w.startup, w.state, w.leases);
      FindKept(t, a.purgeAt, a.cancelled, id);
      NewcomerIsFresh(w, request, a);
      AfterPlace(Purge(t, a.purgeAt, a.cancelled), made.value, a.finalReason, id);
      QueuedIdsAreOld(w);
    } else {
      UnconsideredIsRefused(w, request, a);
    }
  }

  lemma AfterPlace(s: State, e: Entry, finalReason: Option<CancelReason>, id: nat)
    requires InIdOrder(s.queue) && id != e.id && forall i :: 0 <= i < |s.queue| ==> s.queue[i].id < e.id
    ensures Find(Place(s, e, finalReason).0.queue, id).Some? <==> Find(s.queue, id).Some?
  {
    hide FirstEligible, Available, QueueRefusal;
    FindAfterEnqueue(s.queue, e, id);
    FindAfterAging(s, e.id, id);
  }

  /** Every step takes out of the queue exactly the requests it must: nobody is dropped without cause. */
  lemma DepartureIsExact(w: World, ev: Event, id: nat)
    requires Inv(w) && Enabled(w, ev) && Find(w.state.queue, id).Some?
    ensures Find(Step(w, ev).state.queue, id).None? <==> Leaves(w, ev, Find(w.state.queue, id).value)
  {
    hide Arrive, Poll, Consistent, HasTurn, Considered, Keep;
    match ev
    case Arriving(request, a) => ArrivalDeparture(w, request, a, id);
    case Polling(x, o) => PollDeparture(w, x, o, id);
    case TicketDropped(x) =>
      var index := IndexOf(w.state.queue, x);
      InOrder(w.startup, w.state, w.leases);
      if x == id {
        DroppedIsGone(w, id);
      } else if index.Some? {
        FindBesides(w.state, index.value, id);
      }
    case LeaseDropped(_) =>
    case Reloading(_, _, _, _, _) =>
  }
}

/** Whole runs of the scheduler: any interleaving of arrivals, polls, ticket drops, lease drops and
    policy reloads, each one locked section. */
module AdmissionRuns {
  import opened Common
  import opened WorkloadPolicies
  import opened Admission
  import opened AdmissionChoice
  import opened AdmissionCounting
  import opened AdmissionInvariant

  /** The scheduler with what lives outside its mutex: granted leases and waiting tickets. */
  datatype World = World(startup: Policy, state: State, leases: map<nat, Lease>, tickets: map<nat, Ticket>)

  datatype Event =
    | Arriving(request: Request, arrival: Arrival)
    | Polling(id: nat, observation: Observation)
    | TicketDropped(id: nat)
    | LeaseDropped(id: nat)
    | Reloading(candidate: Policy, loadedAt: nat, horizon: nat, declared: set<string>, reason: Option<CancelReason>)

  predicate Enabled(w: World, ev: Event) {
    match ev
    case Polling(id, _) => id in w.tickets
    case TicketDropped(id) => id in w.tickets
    case LeaseDropped(id) => id in w.leases
    case _ => true
  }

  function Step(w: World, ev: Event): World
    requires Enabled(w, ev)
  {
    match ev
    case Arriving(request, arrival) =>
      var (t, outcome) := Arrive(w.state, request, arrival);
      (match outcome
       case Refused(_) => w.(state := t)
       case Admitted(l) => w.(state := t, leases := w.leases[w.state.nextId := l])
       case Queued(id, deadline) => w.(state := t, tickets := w.tickets[id := Ticket(deadline, request.operator)]))
    case Polling(id, o) =>
      var (t, outcome) := Poll(w.state, id, w.tickets[id], o);
      if outcome.PollAdmitted? then w.(state := t, leases := w.leases[id := outcome.lease]) else w.(state := t)
    case TicketDropped(id) => w.(state := DropTicket(w.state, id), tickets := w.tickets - {id})
    case LeaseDropped(id) => w.(state := ReleaseLease(w.state, w.leases[id]), leases := w.leases - {id})
    case Reloading(candidate, loadedAt, horizon, declared, reason) =>
      if Validate(candidate, loadedAt, horizon).Err? then w
      else w.(state := ApplyCandidate(w.startup, w.state, candidate, declared, reason).0)
  }

  function Start(policy: Policy): World {
    World(policy, NewState(policy), map[], map[])
  }

  /** Every queued entry has its waiting thread's ticket. */
  ghost predicate Inv(w: World) {
    && Consistent(w.startup, w.state, w.leases)
    && (forall i :: 0 <= i < |w.state.queue| ==>
          && w.state.queue[i].id in w.tickets
          && w.tickets[w.state.queue[i].id] == Ticket(w.state.queue[i].deadline, w.state.queue[i].operator))
    && (forall id :: id in w.tickets ==> id < w.state.nextId)
  }

  ghost predicate IsRun(ws: seq<World>, evs: seq<Event>) {
    && |ws| == |evs| + 1
    && forall i :: 0 <= i < |evs| ==> Enabled(ws[i], evs[i]) && ws[i + 1] == Step(ws[i], evs[i])
  }

  /** A run of a controller that was started with a validated policy. */
  ghost predicate IsRunFromStart(ws: seq<World>, evs: seq<Event>) {
    && IsRun(ws, evs)
    && Admissible(ws[0].startup)
    && ws[0] == Start(ws[0].startup)
  }

  // ---- the invariant ----

  lemma StartInv(policy: Policy)
    requires Admissible(policy)
    ensures Inv(Start(policy))
  {
    var w := Start(policy);
    assert LeaseIds(w.leases, (l: Lease) => !l.operator) == {};
    assert LeaseIds(w.leases, (l: Lease) => l.operator) == {};
    forall c ensures ClassLeases(w.leases, c) == 0 {
      assert LeaseIds(w.leases, (l: Lease) => !l.operator && l.workClass == c) == {};
    }
    forall p: PrincipalKey ensures PrincipalLeases(w.leases, p) == 0 {
      assert LeaseIds(w.leases, (l: Lease) => l.principal == Some(p)) == {};
    }
  }

  lemma MakeEntryOk(startup: Policy, s: State, leases: map<nat, Lease>, request: Request, a: Arrival)
    requires Consistent(startup, s, leases)
    ensures var (t, made) := MakeEntry(s, request, a);
      && Consistent(startup, t, leases) && t.queue == s.queue && s.nextId <= t.nextId
      && (made.Ok? ==>
            && EntryOk(made.value) && made.value.policy == s.policy
            && made.value.id == s.nextId && t.nextId == s.nextId + 1
            && made.value.bypasses == 0 && made.value.operator == request.operator)
  {
  }

  /** The new entry's id is still the newest once the purge is done. */
  lemma FreshAfterPurge(startup: Policy, s: State, leases: map<nat, Lease>, id: nat, now: nat, cancelled: set<nat>)
    requires Consistent(startup, s, leases)
    requires forall i :: 0 <= i < |s.queue| ==> s.queue[i].id < id
    ensures forall i :: 0 <= i < |Purge(s, now, cancelled).queue| ==> Purge(s, now, cancelled).queue[i].id < id
  {
    PurgeKeepsExactly(s.queue, s.principals, now, cancelled);
    var kept := Purge(s, now, cancelled).queue;
    forall i | 0 <= i < |kept| ensures kept[i].id < id {
      assert kept[i] in kept;
    }
  }

  lemma PlaceConsistent(startup: Policy, s: State, leases: map<nat, Lease>, e: Entry, finalReason: Option<CancelReason>)
    requires Consistent(startup, s, leases)
    requires EntryOk(e) && WithinEnvelope(startup, e.policy) && Fresh(s, leases, e)
    requires forall i :: 0 <= i < |s.queue| ==> s.queue[i].id < e.id
    ensures var (t, outcome) := Place(s, e, finalReason);
      Consistent(startup, t, if outcome.Admitted? then leases[e.id := outcome.lease] else leases)
  {
    if Available(s, e) && FirstEligible(s, e.operator).None? {
      ActivateConsistent(startup, s, leases, e, finalReason);
    } else if QueueRefusal(s, e).None? {
      EnqueueConsistent(startup, s, leases, e);
    }
  }

  lemma ArriveConsistent(w: World, request: Request, a: Arrival)
    requires Inv(w)
    ensures Consistent(w.startup, Step(w, Arriving(request, a)).state, Step(w, Arriving(request, a)).leases)
  {
    hide PurgeFrom, CheckedInstant, SchedulingOf, Place, Available;
    MakeEntryOk(w.startup, w.state, w.leases, request, a);
    var (t, made) := MakeEntry(w.state, request, a);
    if made.Ok? {
      PurgeConsistent(w.startup, t, w.leases, a.purgeAt, a.cancelled);
      FreshAfterPurge(w.startup, t, w.leases, made.value.id, a.purgeAt, a.cancelled);
      PlaceConsistent(w.startup, Purge(t, a.purgeAt, a.cancelled), w.leases, made.value, a.finalReason);
    }
  }

  lemma PollConsistent(w: World, id: nat, o: Observation)
    requires Inv(w) && id in w.tickets
    ensures Consistent(w.startup, Step(w, Polling(id, o)).state, Step(w, Polling(id, o)).leases)
  {
    hide Available, FirstEligible, PurgeFrom, ReleaseQueued, AgeOlderEligible, Occupy;
    var t := Purge(w.state, o.now, o.cancelled);
    PurgeConsistent(w.startup, w.state, w.leases, o.now, o.cancelled);
    var index := IndexOf(t.queue, id);
    if o.reason.None? && o.now < w.tickets[id].deadline && FirstEligible(t, w.tickets[id].operator) == Some(id)
        && index.Some? {
      RemoveConsistent(w.startup, t, w.leases, index.value);
      ActivateConsistent(w.startup, RemoveQueued(t, index.value), w.leases, t.queue[index.value], o.finalReason);
    }
  }

  lemma StepConsistent(w: World, ev: Event)
    requires Inv(w) && Enabled(w, ev)
    ensures Consistent(w.startup, Step(w, ev).state, Step(w, ev).leases)
  {
    match ev
    case Arriving(request, a) => ArriveConsistent(w, request, a);
    case Polling(id, o) => PollConsistent(w, id, o);
    case TicketDropped(id) =>
      var index := IndexOf(w.state.queue, id);
      if index.Some? {
        RemoveConsistent(w.startup, w.state, w.leases, index.value);
      }
    case LeaseDropped(id) => ReleaseConsistent(w.startup, w.state, w.leases, id);
    case Reloading(candidate, loadedAt, horizon, declared, reason) =>
      if Validate(candidate, loadedAt, horizon).Ok? {
        ValidatedIsAdmissible(candidate, loadedAt, horizon);
        assert (map c | c in w.state.classes && w.state.classes[c] != 0 :: w.state.classes[c]) == w.state.classes by {
          forall c | c in w.state.classes ensures w.state.classes[c] != 0 {
            assert w.state.classes[c] == ClassLeases(w.leases, c);
          }
        }
      }
  }

  // ---- following one entry through a step ----

  function Find(queue: seq<Entry>, id: nat): Option<Entry> {
    match IndexOf(queue, id)
    case None => None
    case Some(i) => Some(queue[i])
  }

  lemma FindsMember(queue: seq<Entry>, e: Entry)
    requires InIdOrder(queue) && e in queue
    ensures Find(queue, e.id) == Some(e)
  {
    var i :| 0 <= i < |queue| && queue[i] == e;
    var j := IndexOf(queue, e.id).value;
    assert i == j by {
      assert !(i < j) && !(j < i);
    }
  }

  /** Removing entries from an ordered queue does not change what is found of the rest. */
  lemma FindInPart(part: seq<Entry>, queue: seq<Entry>, id: nat)
    requires InIdOrder(queue) && Find(part, id).Some?
    requires forall i :: 0 <= i < |part| ==> part[i] in queue
    ensures Find(queue, id) == Find(part, id)
  {
    FindsMember(queue, part[IndexOf(part, id).value]);
  }

  lemma FindAfterPurge(s: State, now: nat, cancelled: set<nat>, id: nat)
    requires InIdOrder(s.queue) && Find(Purge(s, now, cancelled).queue, id).Some?
    ensures Find(s.queue, id) == Find(Purge(s, now, cancelled).queue, id)
  {
    PurgeKeepsExactly(s.queue, s.principals, now, cancelled);
    var kept := Purge(s, now, cancelled).queue;
    forall i | 0 <= i < |kept| ensures kept[i] in s.queue {
      assert kept[i] in kept;
    }
    FindInPart(kept, s.queue, id);
  }

  lemma FindAfterRemove(s: State, index: nat, id: nat)
    requires InIdOrder(s.queue) && index < |s.queue| && Find(RemoveQueued(s, index).queue, id).Some?
    ensures Find(s.queue, id) == Find(RemoveQueued(s, index).queue, id)
    ensures id != s.queue[index].id
  {
    FindInPart(RemoveQueued(s, index).queue, s.queue, id);
  }

  lemma {:induction false} IndexSurvivesAging(a: seq<Entry>, b: seq<Entry>, id: nat)
    requires |a| == |b| && forall i :: 0 <= i < |a| ==> a[i].id == b[i].id
    ensures IndexOf(a, id) == IndexOf(b, id)
  {
    if a != [] {
      IndexSurvivesAging(a[1..], b[1..], id);
    }
  }

  lemma FindAfterAging(s: State, admittedId: nat, id: nat)
    ensures var before := Find(s.queue, id);
      Find(AgeOlderEligible(s, admittedId).queue, id) == if before.Some? then Some(Aged(s, before.value, admittedId))
          else None
  {
    IndexSurvivesAging(AgeOlderEligible(s, admittedId).queue, s.queue, id);
  }

  lemma FindAfterEnqueue(queue: seq<Entry>, e: Entry, id: nat)
    requires InIdOrder(queue) && forall i :: 0 <= i < |queue| ==> queue[i].id < e.id
    ensures Find(queue + [e], id) == if id == e.id then Some(e) else Find(queue, id)
  {
    assert InIdOrder(queue + [e]);
    if id == e.id {
      FindsMember(queue + [e], e);
    } else if Find(queue, id).Some? {
      FindInPart(queue, queue + [e], id);
    } else {
      assert forall i :: 0 <= i < |queue + [e]| ==> (queue + [e])[i].id != id;
    }
  }

  // ---- availability depends only on the live leases ----

  lemma SameAvailability(startup: Policy, s: State, t: State, leases: map<nat, Lease>, e: Entry)
    requires Consistent(startup, s, leases) && Consistent(startup, t, leases)
    ensures Available(s, e) == Available(t, e)
  {
    assert ClassActive(s, e.workClass) == ClassLeases(leases, e.workClass) == ClassActive(t, e.workClass);
    if e.principal.Some? {
      var p := e.principal.value;
      assert PrincipalExact(s.principals, PrincipalQueuedCount(s.queue, p), PrincipalLeases(leases, p), p);
      assert PrincipalExact(t.principals, PrincipalQueuedCount(t.queue, p), PrincipalLeases(leases, p), p);
    }
  }
}

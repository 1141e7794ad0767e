/** Caps: what one grant respects, what holds without reloads, and what survives any reloads. */
module AdmissionCapacity {
  import opened Common
  import opened WorkloadPolicies
  import opened Admission
  import opened AdmissionChoice
  import opened AdmissionCounting
  import opened AdmissionInvariant
  import opened AdmissionRuns
  import opened AdmissionFairness

  // ---- caps as statements about live leases and queued entries ----

  ghost predicate ActiveWithin(p: Policy, leases: map<nat, Lease>) {
    && DataLeases(leases) <= p.maxActive
    && OperatorLeases(leases) <= p.operatorMaxActive
    && (forall c :: c in p.classes ==> ClassLeases(leases, c) <= p.classes[c].maxActive)
    && (p.principal.Some? ==> forall k: PrincipalKey :: PrincipalLeases(leases, k) <= p.principal.value.maxActive)
  }

  predicate QueueWithin(p: Policy, queue: seq<Entry>, c: string, k: PrincipalKey) {
    && DataQueued(queue) <= p.maxQueued
    && OperatorQueued(queue) <= p.operatorMaxQueued
    && (c in p.classes ==> ClassQueued(queue, c) <= p.classes[c].maxQueued)
    && (p.principal.Some? ==> PrincipalQueuedCount(queue, k) <= p.principal.value.maxQueued)
  }

  /** The caps of its own snapshot that one newly granted lease counts against. */
  ghost predicate GrantWithin(l: Lease, leases: map<nat, Lease>) {
    if l.operator then OperatorLeases(leases) <= l.policy.operatorMaxActive
    else
      && DataLeases(leases) <= l.policy.maxActive
      && l.workClass in l.policy.classes && ClassLeases(leases, l.workClass) <= l.policy.classes[l.workClass].maxActive
      && (l.policy.principal.Some? && l.principal.Some? ==>
            PrincipalLeases(leases, l.principal.value) <= l.policy.principal.value.maxActive)
  }

  /** The queue caps of its own snapshot that one newly queued entry counts against. */
  predicate EntryWithin(e: Entry, queue: seq<Entry>) {
    if e.operator then OperatorQueued(queue) <= e.policy.operatorMaxQueued
    else
      && DataQueued(queue) <= e.policy.maxQueued
      && e.workClass in e.policy.classes && ClassQueued(queue, e.workClass) <= e.policy.classes[e.workClass].maxQueued
      && (e.policy.principal.Some? && e.principal.Some? ==>
            PrincipalQueuedCount(queue, e.principal.value) <= e.policy.principal.value.maxQueued)
  }

  /** Policies whose snapshots a step may still act under. */
  predicate InPlay(w: World, p: Policy) {
    p == w.state.policy || exists i :: 0 <= i < |w.state.queue| && w.state.queue[i].policy == p
  }

  // ---- grants ----

  lemma AvailableGrant(startup: Policy, s: State, leases: map<nat, Lease>, e: Entry)
    requires Consistent(startup, s, leases) && EntryOk(e) && Available(s, e) && e.id !in leases
    ensures GrantWithin(LeaseOf(e), leases[e.id := LeaseOf(e)])
  {
    var l := LeaseOf(e);
    AddLease(leases, e.id, l, (x: Lease) => !x.operator);
    AddLease(leases, e.id, l, (x: Lease) => x.operator);
    AddLease(leases, e.id, l, (x: Lease) => !x.operator && x.workClass == e.workClass);
    assert e.workClass in s.classes <==> ClassLeases(leases, e.workClass) > 0;
    if e.principal.Some? {
      var k := e.principal.value;
      AddLease(leases, e.id, l, (x: Lease) => x.principal == Some(k));
      assert PrincipalExact(s.principals, PrincipalQueuedCount(s.queue, k), PrincipalLeases(leases, k), k);
    }
  }

  /** How the set of live leases can change in one step. */
  ghost predicate LeaseChange(w: World, v: World) {
    || v.leases == w.leases
    || (exists id :: id in w.leases && v.leases == w.leases - {id})
    || exists id, l :: GrantChange(w, v, id, l)
  }

  ghost predicate GrantChange(w: World, v: World, id: nat, l: Lease) {
    && id !in w.leases && v.leases == w.leases[id := l]
    && (l.operator <==> l.principal.None?)
    && GrantWithin(l, v.leases) && InPlay(w, l.policy)
  }

  lemma PurgedPolicyInPlay(w: World, now: nat, cancelled: set<nat>, index: nat)
    requires index < |Purge(w.state, now, cancelled).queue|
    ensures InPlay(w, Purge(w.state, now, cancelled).queue[index].policy)
  {
    PurgeKeepsExactly(w.state.queue, w.state.principals, now, cancelled);
    var kept := Purge(w.state, now, cancelled).queue;
    assert kept[index] in kept;
  }

  lemma PollGrant(w: World, a: nat, o: Observation)
    requires Inv(w) && a in w.tickets
    ensures LeaseChange(w, Step(w, Polling(a, o)))
  {
    hide GrantWithin, Available, FirstEligible, PurgeFrom, ReleaseQueued, InPlay, AgeOlderEligible;
    var t := Purge(w.state, o.now, o.cancelled);
    var v := Step(w, Polling(a, o));
    PurgeConsistent(w.startup, w.state, w.leases, o.now, o.cancelled);
    if v.leases != w.leases {
      var k := ChosenIsOldestOfItsLevel(t, w.tickets[a].operator);
      FindsMember(t.queue, t.queue[k]);
      AvailableGrant(w.startup, t, w.leases, t.queue[k]);
      PurgedPolicyInPlay(w, o.now, o.cancelled, k);
      assert GrantChange(w, v, a, LeaseOf(t.queue[k]));
    }
  }

  lemma ArriveGrant(w: World, request: Request, a: Arrival)
    requires Inv(w)
    ensures LeaseChange(w, Step(w, Arriving(request, a)))
  {
    hide GrantWithin, FirstEligible, PurgeFrom, CheckedInstant, SchedulingOf, AgeOlderEligible, QueueRefusal;
    var v := Step(w, Arriving(request, a));
    MakeEntryOk(w.startup, w.state, w.leases, request, a);
    var (t, made) := MakeEntry(w.state, request, a);
    if v.leases != w.leases {
      PurgeConsistent(w.startup, t, w.leases, a.purgeAt, a.cancelled);
      AvailableGrant(w.startup, Purge(t, a.purgeAt, a.cancelled), w.leases, made.value);
      assert GrantChange(w, v, made.value.id, LeaseOf(made.value));
    }
  }

  /** Every grant respects every active cap of the policy snapshot it was requested under. */
  lemma GrantsRespectSnapshots(w: World, ev: Event)
    requires Inv(w) && Enabled(w, ev)
    ensures LeaseChange(w, Step(w, ev))
  {
    hide LeaseChange, Inv, Arrive, Poll, Validate, ApplyCandidate, DropTicket, ReleaseLease;
    var v := Step(w, ev);
    match ev
    case Arriving(request, a) => ArriveGrant(w, request, a);
    case Polling(a, o) => PollGrant(w, a, o);
    case LeaseDropped(id) =>
      assert v.leases == w.leases - {id};
      SimpleLeaseChange(w, v);
    case TicketDropped(id) => SimpleLeaseChange(w, v);
    case Reloading(_, _, _, _, _) => SimpleLeaseChange(w, v);
  }

  lemma SimpleLeaseChange(w: World, v: World)
    requires v.leases == w.leases || exists id :: id in w.leases && v.leases == w.leases - {id}
    ensures LeaseChange(w, v)
  {
  }

  // ---- enqueues ----

  /** How the queue can change in one step, seen through one property that aging cannot change. */
  ghost predicate QueueChange(w: World, v: World, f: Entry -> bool) {
    || CountQueued(v.state.queue, f) <= CountQueued(w.state.queue, f)
    || exists e :: EnqueueChange(w, v, e) && f(e)
  }

  predicate EnqueueChange(w: World, v: World, e: Entry) {
    |v.state.queue| > 0 && v.state.queue[|v.state.queue| - 1] == e && e.policy == w.state.policy && EntryOk(e)
        && EntryWithin(e, v.state.queue)
  }

  ghost predicate IgnoresAge(f: Entry -> bool) {
    forall e: Entry, n: nat :: f(e.(bypasses := n)) == f(e)
  }

  lemma CountAfterActivate(s: State, e: Entry, reason: Option<CancelReason>, f: Entry -> bool)
    requires IgnoresAge(f)
    ensures CountQueued(Activate(s, e, reason).0.queue, f) == CountQueued(s.queue, f)
  {
    var aged := AgeOlderEligible(s, e.id).queue;
    forall i | 0 <= i < |aged| ensures f(aged[i]) == f(s.queue[i]) {
      assert aged[i] == s.queue[i].(bypasses := aged[i].bypasses);
    }
    CountSame(aged, s.queue, f);
  }

  lemma EnqueueWithin(startup: Policy, s: State, leases: map<nat, Lease>, e: Entry)
    requires Consistent(startup, s, leases) && EntryOk(e) && QueueRefusal(s, e).None?
    ensures EntryWithin(e, s.queue + [e])
  {
    CountConcat(s.queue, [e], (x: Entry) => x.operator);
    CountConcat(s.queue, [e], (x: Entry) => !x.operator);
    CountConcat(s.queue, [e], (x: Entry) => !x.operator && x.workClass == e.workClass);
    if e.principal.Some? {
      var k := e.principal.value;
      CountConcat(s.queue, [e], (x: Entry) => x.principal == Some(k));
      assert PrincipalExact(s.principals, PrincipalQueuedCount(s.queue, k), PrincipalLeases(leases, k), k);
    }
  }

  lemma PlaceQueueChange(w: World, s: State, e: Entry, finalReason: Option<CancelReason>, f: Entry -> bool)
    requires Consistent(w.startup, s, w.leases) && EntryOk(e) && e.policy == w.state.policy && IgnoresAge(f)
    requires CountQueued(s.queue, f) <= CountQueued(w.state.queue, f)
    ensures forall v: World :: v.state == Place(s, e, finalReason).0 ==> QueueChange(w, v, f)
  {
    var t := Place(s, e, finalReason).0;
    CountAfterActivate(s, e, finalReason, f);
    CountConcat(s.queue, [e], f);
    if QueueRefusal(s, e).None? {
      EnqueueWithin(w.startup, s, w.leases, e);
    }
    if CountQueued(t.queue, f) > CountQueued(w.state.queue, f) {
      forall v: World | v.state == t ensures QueueChange(w, v, f) {
        assert EnqueueChange(w, v, e);
      }
    }
  }

  lemma PollQueueChange(w: World, a: nat, o: Observation, f: Entry -> bool)
    requires a in w.tickets && IgnoresAge(f)
    ensures CountQueued(Step(w, Polling(a, o)).state.queue, f) <= CountQueued(w.state.queue, f)
  {
    hide Available, FirstEligible, PurgeFrom, ReleaseQueued, Activate;
    var t := Purge(w.state, o.now, o.cancelled);
    PurgeCountsLess(w.state.queue, w.state.principals, o.now, o.cancelled, f);
    var index := IndexOf(t.queue, a);
    if index.Some? {
      CountRemove(t.queue, index.value, f);
      CountAfterActivate(RemoveQueued(t, index.value), t.queue[index.value], o.finalReason, f);
    }
  }

  lemma ArriveQueueChange(w: World, request: Request, a: Arrival, f: Entry -> bool)
    requires Inv(w) && IgnoresAge(f)
    ensures QueueChange(w, Step(w, Arriving(request, a)), f)
  {
    hide QueueChange, IgnoresAge, Place;
    MakeEntryOk(w.startup, w.state, w.leases, request, a);
    var (t, made) := MakeEntry(w.state, request, a);
    var v := Step(w, Arriving(request, a));
    if made.Ok? && !(w.state.policy.requestTimeout.Some?
        && CheckedInstant(a.now, w.state.policy.requestTimeout.value, a.horizon).None?) {
      PurgeConsistent(w.startup, t, w.leases, a.purgeAt, a.cancelled);
      PurgeCountsLess(t.queue, t.principals, a.purgeAt, a.cancelled, f);
      PlaceQueueChange(w, Purge(t, a.purgeAt, a.cancelled), made.value, a.finalReason, f);
    } else {
      NoQueueGrowth(w, v, f);
    }
  }

  lemma NoQueueGrowth(w: World, v: World, f: Entry -> bool)
    requires CountQueued(v.state.queue, f) <= CountQueued(w.state.queue, f)
    ensures QueueChange(w, v, f)
  {
  }

  /** Every enqueue respects every queue cap of the policy snapshot it was requested under; no other
      step lengthens the queue by any measure. */
  lemma EnqueuesRespectSnapshots(w: World, ev: Event, f: Entry -> bool)
    requires Inv(w) && Enabled(w, ev) && IgnoresAge(f)
    ensures QueueChange(w, Step(w, ev), f)
  {
    hide QueueChange, IgnoresAge, Inv, Arrive, Poll, Validate;
    var v := Step(w, ev);
    match ev
    case Arriving(request, a) => ArriveQueueChange(w, request, a, f);
    case Polling(a, o) =>
      PollQueueChange(w, a, o, f);
      NoQueueGrowth(w, v, f);
    case TicketDropped(a) =>
      var index := IndexOf(w.state.queue, a);
      if index.Some? {
        CountRemove(w.state.queue, index.value, f);
      }
      NoQueueGrowth(w, v, f);
    case LeaseDropped(_) => NoQueueGrowth(w, v, f);
    case Reloading(_, _, _, _, _) => NoQueueGrowth(w, v, f);
  }

  // ---- without reloads, every cap holds in every state ----

  ghost predicate CapsHold(w: World) {
    && ActiveWithin(w.state.policy, w.leases)
    && forall c, k: PrincipalKey :: QueueWithin(w.state.policy, w.state.queue, c, k)
  }

  predicate Uniform(w: World) {
    forall i :: 0 <= i < |w.state.queue| ==> w.state.queue[i].policy == w.state.policy
  }

  lemma DropCaps(p: Policy, leases: map<nat, Lease>, id: nat)
    requires ActiveWithin(p, leases) && id in leases
    ensures ActiveWithin(p, leases - {id})
  {
    hide LeaseCount;
    var fewer := leases - {id};
    DropLeaseCount(leases, id, (x: Lease) => !x.operator);
    DropLeaseCount(leases, id, (x: Lease) => x.operator);
    forall c ensures ClassLeases(fewer, c) <= ClassLeases(leases, c) {
      DropLeaseCount(leases, id, (x: Lease) => !x.operator && x.workClass == c);
    }
    forall k: PrincipalKey ensures PrincipalLeases(fewer, k) <= PrincipalLeases(leases, k) {
      DropLeaseCount(leases, id, (x: Lease) => x.principal == Some(k));
    }
  }

  lemma GrantCaps(p: Policy, leases: map<nat, Lease>, id: nat, l: Lease)
    requires ActiveWithin(p, leases) && id !in leases && (l.operator <==> l.principal.None?)
    requires l.policy == p && GrantWithin(l, leases[id := l])
    ensures ActiveWithin(p, leases[id := l])
  {
    hide LeaseCount;
    var more := leases[id := l];
    AddLease(leases, id, l, (x: Lease) => !x.operator);
    AddLease(leases, id, l, (x: Lease) => x.operator);
    forall c
      ensures ClassLeases(more, c) == ClassLeases(leases, c) + (if !l.operator && l.workClass == c then 1 else 0)
    {
      AddLease(leases, id, l, (x: Lease) => !x.operator && x.workClass == c);
    }
    forall k: PrincipalKey
      ensures PrincipalLeases(more, k) == PrincipalLeases(leases, k) + (if l.principal == Some(k) then 1 else 0)
    {
      AddLease(leases, id, l, (x: Lease) => x.principal == Some(k));
    }
  }

  lemma ActiveCapsStep(p: Policy, w: World, v: World)
    requires ActiveWithin(p, w.leases) && LeaseChange(w, v)
    requires forall q :: InPlay(w, q) ==> q == p
    ensures ActiveWithin(p, v.leases)
  {
    hide ActiveWithin, InPlay, GrantWithin;
    if id :| id in w.leases && v.leases == w.leases - {id} {
      DropCaps(p, w.leases, id);
    } else if id, l :| GrantChange(w, v, id, l) {
      GrantCaps(p, w.leases, id, l);
    }
  }

  lemma QueueCapsStep(w: World, ev: Event, c: string, k: PrincipalKey)
    requires Inv(w) && Enabled(w, ev) && QueueWithin(w.state.policy, w.state.queue, c, k)
    ensures QueueWithin(w.state.policy, Step(w, ev).state.queue, c, k)
  {
    hide Inv, Step, Enabled;
    EnqueuesRespectSnapshots(w, ev, (x: Entry) => !x.operator);
    EnqueuesRespectSnapshots(w, ev, (x: Entry) => x.operator);
    EnqueuesRespectSnapshots(w, ev, (x: Entry) => !x.operator && x.workClass == c);
    EnqueuesRespectSnapshots(w, ev, (x: Entry) => x.principal == Some(k));
  }

  lemma ArriveKeepsPolicy(s: State, request: Request, a: Arrival)
    ensures Arrive(s, request, a).0.policy == s.policy
  {
    hide Available, FirstEligible, PurgeFrom, QueueRefusal, CheckedInstant, SchedulingOf, AgeOlderEligible;
    var (t, made) := MakeEntry(s, request, a);
    if made.Ok? {
      var u := Purge(t, a.purgeAt, a.cancelled);
      assert Activate(u, made.value, a.finalReason).0.policy == u.policy by {
        ActivateKeepsPolicy(u, made.value, a.finalReason);
      }
      assert Enqueue(u, made.value).policy == u.policy;
    }
  }

  lemma ActivateKeepsPolicy(s: State, e: Entry, reason: Option<CancelReason>)
    ensures Activate(s, e, reason).0.policy == s.policy
  {
    hide Available;
  }

  lemma PollKeepsPolicy(s: State, id: nat, ticket: Ticket, o: Observation)
    ensures Poll(s, id, ticket, o).0.policy == s.policy
  {
    hide Activate, FirstEligible, PurgeFrom, ReleaseQueued, IndexOf;
    var t := Purge(s, o.now, o.cancelled);
    var found := IndexOf(t.queue, id);
    if found.Some? {
      ActivateKeepsPolicy(RemoveQueued(t, found.value), t.queue[found.value], o.finalReason);
    }
  }

  lemma PolicyUnchanged(w: World, ev: Event)
    requires Enabled(w, ev) && !ev.Reloading?
    ensures Step(w, ev).state.policy == w.state.policy
  {
    hide Arrive, Poll, IndexOf, ReleaseQueued, ReleaseActive;
    if ev.Arriving? {
      ArriveKeepsPolicy(w.state, ev.request, ev.arrival);
    } else if ev.Polling? {
      PollKeepsPolicy(w.state, ev.id, w.tickets[ev.id], ev.observation);
    }
  }

  lemma UniformStep(w: World, ev: Event)
    requires Inv(w) && Enabled(w, ev) && !ev.Reloading? && Uniform(w)
    ensures Uniform(Step(w, ev)) && Step(w, ev).state.policy == w.state.policy
  {
    hide Step, Inv, Enabled;
    var v := Step(w, ev);
    PolicyUnchanged(w, ev);
    StepKeepsInv(w, ev);
    QueuedIdsAreOld(w);
    QueuedIdsAreOld(v);
    forall i | 0 <= i < |v.state.queue| ensures v.state.queue[i].policy == v.state.policy {
      FindsMember(v.state.queue, v.state.queue[i]);
      FollowsStep(w, ev, v.state.queue[i].id);
    }
  }

  /** With no reload, all global, class, principal and operator caps hold in every state. */
  lemma {:induction false} CapsWithoutReload(ws: seq<World>, evs: seq<Event>)
    requires IsRunFromStart(ws, evs)
    requires forall i :: 0 <= i < |evs| ==> !evs[i].Reloading?
    ensures CapsHold(ws[|evs|]) && Uniform(ws[|evs|])
  {
    var n := |evs|;
    if n == 0 {
      StartWithinCaps(ws[0].startup);
    } else {
      hide Inv, Step, Enabled, Admissible, Start, ActiveWithin, QueueWithin, LeaseChange;
      StartInv(ws[0].startup);
      RunKeepsInv(ws, evs);
      var w, v := ws[n - 1], ws[n];
      assert IsRunFromStart(ws[..n], evs[..n - 1]);
      CapsWithoutReload(ws[..n], evs[..n - 1]);
      UniformStep(w, evs[n - 1]);
      GrantsRespectSnapshots(w, evs[n - 1]);
      ActiveCapsStep(w.state.policy, w, v);
      forall c, k: PrincipalKey ensures QueueWithin(v.state.policy, v.state.queue, c, k) {
        QueueCapsStep(w, evs[n - 1], c, k);
      }
    }
  }

  lemma StartWithinCaps(policy: Policy)
    ensures CapsHold(Start(policy))
  {
    var none: map<nat, Lease> := map[];
    assert forall f: Lease -> bool :: LeaseIds(none, f) == {};
  }

  // ---- with any reloads, the startup envelope holds ----

  ghost predicate EnvelopeHolds(w: World) {
    && w.state.active <= DataCeiling(w.startup)
    && w.state.operatorActive <= OperatorCeiling(w.startup)
    && DataQueued(w.state.queue) <= DataCeiling(w.startup)
    && OperatorQueued(w.state.queue) <= OperatorCeiling(w.startup)
  }

  lemma EnvelopeActive(w: World, v: World)
    requires Inv(w) && Inv(v) && v.startup == w.startup && LeaseChange(w, v) && EnvelopeHolds(w)
    ensures v.state.active <= DataCeiling(w.startup) && v.state.operatorActive <= OperatorCeiling(w.startup)
  {
    if id :| id in w.leases && v.leases == w.leases - {id} {
      DropLeaseCount(w.leases, id, (x: Lease) => !x.operator);
      DropLeaseCount(w.leases, id, (x: Lease) => x.operator);
    } else if id, l :| GrantChange(w, v, id, l) {
      assert WithinEnvelope(w.startup, l.policy);
      AddLease(w.leases, id, l, (x: Lease) => !x.operator);
      AddLease(w.leases, id, l, (x: Lease) => x.operator);
    }
  }

  lemma EnvelopeStep(w: World, ev: Event)
    requires Inv(w) && Enabled(w, ev) && EnvelopeHolds(w)
    ensures EnvelopeHolds(Step(w, ev))
  {
    hide Step, Consistent, LeaseChange;
    StepKeepsInv(w, ev);
    StepKeepsIds(w, ev);
    GrantsRespectSnapshots(w, ev);
    EnvelopeActive(w, Step(w, ev));
    PolicyWithinEnvelope(w);
    EnqueuesRespectSnapshots(w, ev, (x: Entry) => !x.operator);
    EnqueuesRespectSnapshots(w, ev, (x: Entry) => x.operator);
  }

  lemma PolicyWithinEnvelope(w: World)
    requires Inv(w)
    ensures WithinEnvelope(w.startup, w.state.policy)
  {
  }

  /** Whatever sequence of reloads is accepted, active work and queued work of each pool stay within
      the capacity that the transport was sized for at startup. */
  lemma {:induction false} EnvelopeAcrossReloads(ws: seq<World>, evs: seq<Event>)
    requires IsRunFromStart(ws, evs)
    ensures EnvelopeHolds(ws[|evs|])
  {
    hide Inv, Step, Enabled, Admissible;
    var n := |evs|;
    if n > 0 {
      StartInv(ws[0].startup);
      RunKeepsInv(ws, evs);
      assert IsRunFromStart(ws[..n], evs[..n - 1]);
      EnvelopeAcrossReloads(ws[..n], evs[..n - 1]);
      EnvelopeStep(ws[n - 1], evs[n - 1]);
    }
  }
}

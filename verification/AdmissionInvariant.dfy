/** What every locked section keeps: the occupancy counters are exactly the live leases and the
    queued entries, and the queue stays in id order. */
module AdmissionInvariant {
  import opened Common
  import opened WorkloadPolicies
  import opened Admission
  import opened AdmissionChoice
  import opened AdmissionCounting

  /** A policy that fits the transport envelope fixed at startup. */
  predicate WithinEnvelope(startup: Policy, p: Policy) {
    && DataCeiling(p) <= DataCeiling(startup)
    && OperatorCeiling(p) <= OperatorCeiling(startup)
  }

  /** The class map holds a positive count for each class with a live lease, and nothing else. */
  ghost predicate ClassesExact(classes: map<string, nat>, leases: map<nat, Lease>) {
    forall c :: (c in classes <==> ClassLeases(leases, c) > 0)
        && (c in classes ==> classes[c] == ClassLeases(leases, c))
  }

  /** The principal map holds both counts of each principal with a lease or a queued entry, and
      nothing else. */
  ghost predicate PrincipalsExact(principals: map<PrincipalKey, Occupancy>, queue: seq<Entry>,
      leases: map<nat, Lease>) {
    forall p: PrincipalKey :: PrincipalExact(principals, PrincipalQueuedCount(queue, p), PrincipalLeases(leases, p), p)
  }

  predicate PrincipalExact(principals: map<PrincipalKey, Occupancy>, queued: nat, active: nat, p: PrincipalKey) {
    && (p in principals <==> active + queued > 0)
    && (p in principals ==> principals[p] == Occupancy(active, queued))
  }

  predicate QueueOk(queue: seq<Entry>, nextId: nat, startup: Policy) {
    && InIdOrder(queue)
    && forall i :: 0 <= i < |queue| ==>
        EntryOk(queue[i]) && WithinEnvelope(startup, queue[i].policy) && queue[i].id < nextId
  }

  ghost predicate LeasesOk(leases: map<nat, Lease>, queue: seq<Entry>, nextId: nat) {
    && (forall id :: id in leases ==> id < nextId && (leases[id].operator <==> leases[id].principal.None?))
    && (forall i :: 0 <= i < |queue| ==> queue[i].id !in leases)
  }

  /** Scheduler state against the leases that are alive outside it. */
  ghost predicate Consistent(startup: Policy, s: State, leases: map<nat, Lease>) {
    && Admissible(s.policy) && WithinEnvelope(startup, s.policy)
    && s.nextId <= U64_MAX
    && QueueOk(s.queue, s.nextId, startup)
    && LeasesOk(leases, s.queue, s.nextId)
    && s.active == DataLeases(leases)
    && s.operatorActive == OperatorLeases(leases)
    && ClassesExact(s.classes, leases)
    && PrincipalsExact(s.principals, s.queue, leases)
  }

  // ---- releasing one queued entry ----

  lemma ReleaseQueuedExact(principals: map<PrincipalKey, Occupancy>, queue: seq<Entry>, index: nat,
      leases: map<nat, Lease>)
    requires PrincipalsExact(principals, queue, leases)
    requires index < |queue|
    ensures PrincipalsExact(ReleaseQueued(principals, queue[index]), queue[..index] + queue[index + 1..], leases)
    ensures queue[index].principal.Some? ==>
        queue[index].principal.value in principals && principals[queue[index].principal.value].queued > 0
  {
    var rest := queue[..index] + queue[index + 1..];
    var e := queue[index];
    forall p: PrincipalKey
      ensures PrincipalQueuedCount(rest, p) ==
          PrincipalQueuedCount(queue, p) - (if e.principal == Some(p) then 1 else 0)
      ensures PrincipalExact(principals, PrincipalQueuedCount(queue, p), PrincipalLeases(leases, p), p)
    {
      CountRemove(queue, index, (x: Entry) => x.principal == Some(p));
    }
  }

  lemma {:induction false} PurgeExact(done: seq<Entry>, queue: seq<Entry>, principals: map<PrincipalKey, Occupancy>,
      leases: map<nat, Lease>, now: nat, cancelled: set<nat>)
    requires PrincipalsExact(principals, done + queue, leases)
    ensures var r := PurgeFrom(queue, principals, now, cancelled);
      PrincipalsExact(r.1, done + r.0, leases)
    decreases |queue|
  {
    if queue != [] {
      if Keep(queue[0], now, cancelled) {
        var rest := PurgeFrom(queue[1..], principals, now, cancelled);
        assert done + queue == (done + [queue[0]]) + queue[1..];
        PurgeExact(done + [queue[0]], queue[1..], principals, leases, now, cancelled);
        assert done + ([queue[0]] + rest.0) == (done + [queue[0]]) + rest.0;
      } else {
        ReleaseQueuedExact(principals, done + queue, |done|, leases);
        assert (done + queue)[..|done|] + (done + queue)[|done| + 1..] == done + queue[1..];
        PurgeExact(done, queue[1..], ReleaseQueued(principals, queue[0]), leases, now, cancelled);
      }
    }
  }

  lemma {:induction false} PurgeKeepsOrder(queue: seq<Entry>, principals: map<PrincipalKey, Occupancy>, now: nat,
      cancelled: set<nat>)
    requires InIdOrder(queue)
    ensures InIdOrder(PurgeFrom(queue, principals, now, cancelled).0)
  {
    if queue != [] {
      var rest := if Keep(queue[0], now, cancelled) then principals else ReleaseQueued(principals, queue[0]);
      PurgeKeepsOrder(queue[1..], rest, now, cancelled);
      PurgeKeepsExactly(queue[1..], rest, now, cancelled);
      var kept := PurgeFrom(queue[1..], rest, now, cancelled).0;
      forall j | 0 <= j < |kept| ensures queue[0].id < kept[j].id {
        assert kept[j] in queue[1..];
      }
    }
  }

  lemma PurgeQueueOk(s: State, leases: map<nat, Lease>, now: nat, cancelled: set<nat>, startup: Policy)
    requires QueueOk(s.queue, s.nextId, startup)
    requires LeasesOk(leases, s.queue, s.nextId)
    ensures QueueOk(Purge(s, now, cancelled).queue, s.nextId, startup)
    ensures LeasesOk(leases, Purge(s, now, cancelled).queue, s.nextId)
  {
    var kept := Purge(s, now, cancelled).queue;
    PurgeKeepsOrder(s.queue, s.principals, now, cancelled);
    PurgeKeepsExactly(s.queue, s.principals, now, cancelled);
    forall i | 0 <= i < |kept| ensures kept[i] in s.queue {
      assert kept[i] in kept;
    }
  }

  lemma PurgePrincipals(s: State, leases: map<nat, Lease>, now: nat, cancelled: set<nat>)
    requires PrincipalsExact(s.principals, s.queue, leases)
    ensures PrincipalsExact(Purge(s, now, cancelled).principals, Purge(s, now, cancelled).queue, leases)
  {
    assert [] + s.queue == s.queue;
    PurgeExact([], s.queue, s.principals, leases, now, cancelled);
    var kept := PurgeFrom(s.queue, s.principals, now, cancelled).0;
    assert [] + kept == kept;
  }

  lemma PurgeConsistent(startup: Policy, s: State, leases: map<nat, Lease>, now: nat, cancelled: set<nat>)
    requires Consistent(startup, s, leases)
    ensures Consistent(startup, Purge(s, now, cancelled), leases)
  {
    PurgePrincipals(s, leases, now, cancelled);
    PurgeQueueOk(s, leases, now, cancelled, startup);
  }

  lemma RemoveConsistent(startup: Policy, s: State, leases: map<nat, Lease>, index: nat)
    requires Consistent(startup, s, leases)
    requires index < |s.queue|
    ensures Consistent(startup, RemoveQueued(s, index), leases)
    ensures forall i :: 0 <= i < |RemoveQueued(s, index).queue| ==>
        RemoveQueued(s, index).queue[i].id != s.queue[index].id
  {
    ReleaseQueuedExact(s.principals, s.queue, index, leases);
  }

  // ---- adding one entry or one lease ----

  /** A freshly built entry: its id is the newest and held by nobody. */
  ghost predicate Fresh(s: State, leases: map<nat, Lease>, e: Entry) {
    && e.id < s.nextId && e.id !in leases
    && forall i :: 0 <= i < |s.queue| ==> s.queue[i].id != e.id
  }

  lemma EnqueueConsistent(startup: Policy, s: State, leases: map<nat, Lease>, e: Entry)
    requires Consistent(startup, s, leases)
    requires EntryOk(e) && WithinEnvelope(startup, e.policy) && Fresh(s, leases, e)
    requires forall i :: 0 <= i < |s.queue| ==> s.queue[i].id < e.id
    ensures Consistent(startup, Enqueue(s, e), leases)
  {
    var t := Enqueue(s, e);
    forall p: PrincipalKey
      ensures PrincipalExact(t.principals, PrincipalQueuedCount(t.queue, p), PrincipalLeases(leases, p), p)
    {
      CountConcat(s.queue, [e], (x: Entry) => x.principal == Some(p));
      assert PrincipalExact(s.principals, PrincipalQueuedCount(s.queue, p), PrincipalLeases(leases, p), p);
    }
  }

  lemma AgeConsistent(startup: Policy, s: State, leases: map<nat, Lease>, admittedId: nat)
    requires Consistent(startup, s, leases)
    ensures Consistent(startup, AgeOlderEligible(s, admittedId), leases)
  {
    var t := AgeOlderEligible(s, admittedId);
    forall p: PrincipalKey
      ensures PrincipalQueuedCount(t.queue, p) == PrincipalQueuedCount(s.queue, p)
      ensures PrincipalExact(s.principals, PrincipalQueuedCount(s.queue, p), PrincipalLeases(leases, p), p)
    {
      CountSame(t.queue, s.queue, (x: Entry) => x.principal == Some(p));
    }
  }

  lemma OccupyConsistent(startup: Policy, s: State, leases: map<nat, Lease>, e: Entry)
    requires Consistent(startup, s, leases)
    requires EntryOk(e) && Fresh(s, leases, e)
    ensures Consistent(startup, Occupy(s, e), leases[e.id := LeaseOf(e)])
  {
    hide ClassesExact, PrincipalsExact;
    var l := LeaseOf(e);
    AddLease(leases, e.id, l, (x: Lease) => !x.operator);
    AddLease(leases, e.id, l, (x: Lease) => x.operator);
    OccupyClasses(s, leases, e);
    OccupyPrincipals(s, leases, e);
  }

  lemma OccupyClasses(s: State, leases: map<nat, Lease>, e: Entry)
    requires ClassesExact(s.classes, leases) && e.id !in leases
    ensures ClassesExact(Occupy(s, e).classes, leases[e.id := LeaseOf(e)])
  {
    hide LeaseCount;
    var t, more := Occupy(s, e), leases[e.id := LeaseOf(e)];
    forall c
      ensures (c in t.classes <==> ClassLeases(more, c) > 0)
          && (c in t.classes ==> t.classes[c] == ClassLeases(more, c))
    {
      AddLease(leases, e.id, LeaseOf(e), (x: Lease) => !x.operator && x.workClass == c);
      assert c in s.classes <==> ClassLeases(leases, c) > 0;
    }
  }

  lemma OccupyPrincipals(s: State, leases: map<nat, Lease>, e: Entry)
    requires PrincipalsExact(s.principals, s.queue, leases) && e.id !in leases && (e.operator <==> e.principal.None?)
    ensures PrincipalsExact(Occupy(s, e).principals, s.queue, leases[e.id := LeaseOf(e)])
  {
    hide LeaseCount, PrincipalQueuedCount;
    var t, more := Occupy(s, e), leases[e.id := LeaseOf(e)];
    forall p: PrincipalKey
      ensures PrincipalExact(t.principals, PrincipalQueuedCount(s.queue, p), PrincipalLeases(more, p), p)
    {
      AddLease(leases, e.id, LeaseOf(e), (x: Lease) => x.principal == Some(p));
      assert PrincipalExact(s.principals, PrincipalQueuedCount(s.queue, p), PrincipalLeases(leases, p), p);
    }
  }

  /** The leases alive after an activation that may still find its request cancelled. */
  function Granted(leases: map<nat, Lease>, id: nat, r: Result<Lease, WorkloadError>): map<nat, Lease> {
    if r.Ok? then leases[id := r.value] else leases
  }

  lemma ActivateConsistent(startup: Policy, s: State, leases: map<nat, Lease>, e: Entry, reason: Option<CancelReason>)
    requires Consistent(startup, s, leases)
    requires EntryOk(e) && Fresh(s, leases, e)
    ensures var (t, r) := Activate(s, e, reason); Consistent(startup, t, Granted(leases, e.id, r))
  {
    if reason.None? {
      var aged := if e.operator then s else AgeOlderEligible(s, e.id);
      AgeConsistent(startup, s, leases, e.id);
      OccupyConsistent(startup, aged, leases, e);
    }
  }

  // ---- dropping one lease ----

  lemma ReleaseClasses(s: State, leases: map<nat, Lease>, id: nat)
    requires ClassesExact(s.classes, leases)
    requires id in leases
    ensures ClassesExact(ReleaseLease(s, leases[id]).classes, leases - {id})
    ensures !leases[id].operator ==> leases[id].workClass in s.classes && s.classes[leases[id].workClass] > 0
  {
    var l := leases[id];
    forall c
      ensures ClassLeases(leases - {id}, c) ==
          ClassLeases(leases, c) - (if !l.operator && l.workClass == c then 1 else 0)
      ensures (c in s.classes <==> ClassLeases(leases, c) > 0)
          && (c in s.classes ==> s.classes[c] == ClassLeases(leases, c))
    {
      DropLeaseCount(leases, id, (x: Lease) => !x.operator && x.workClass == c);
    }
  }

  lemma ReleasePrincipals(principals: map<PrincipalKey, Occupancy>, queue: seq<Entry>, leases: map<nat, Lease>, id: nat)
    requires PrincipalsExact(principals, queue, leases)
    requires id in leases && leases[id].principal.Some?
    ensures PrincipalsExact(ReleaseActive(principals, leases[id].principal.value), queue, leases - {id})
    ensures leases[id].principal.value in principals && principals[leases[id].principal.value].active > 0
  {
    var l := leases[id];
    forall p: PrincipalKey
      ensures PrincipalLeases(leases - {id}, p) ==
          PrincipalLeases(leases, p) - (if l.principal == Some(p) then 1 else 0)
      ensures PrincipalExact(principals, PrincipalQueuedCount(queue, p), PrincipalLeases(leases, p), p)
    {
      DropLeaseCount(leases, id, (x: Lease) => x.principal == Some(p));
    }
  }

  lemma OperatorHasNoPrincipal(principals: map<PrincipalKey, Occupancy>, queue: seq<Entry>, leases: map<nat, Lease>,
      id: nat)
    requires PrincipalsExact(principals, queue, leases)
    requires id in leases && leases[id].principal.None?
    ensures PrincipalsExact(principals, queue, leases - {id})
  {
    forall p: PrincipalKey
      ensures PrincipalLeases(leases - {id}, p) == PrincipalLeases(leases, p)
      ensures PrincipalExact(principals, PrincipalQueuedCount(queue, p), PrincipalLeases(leases, p), p)
    {
      DropLeaseCount(leases, id, (x: Lease) => x.principal == Some(p));
    }
  }

  /** No decrement, `unwrap` or `expect` of a lease drop can fail, and the counters stay exact. */
  lemma ReleaseConsistent(startup: Policy, s: State, leases: map<nat, Lease>, id: nat)
    requires Consistent(startup, s, leases)
    requires id in leases
    ensures Consistent(startup, ReleaseLease(s, leases[id]), leases - {id})
    ensures Releasable(s, leases[id])
  {
    DropLeaseCount(leases, id, (x: Lease) => !x.operator);
    DropLeaseCount(leases, id, (x: Lease) => x.operator);
    ReleaseClasses(s, leases, id);
    if leases[id].principal.Some? {
      ReleasePrincipals(s.principals, s.queue, leases, id);
    } else {
      OperatorHasNoPrincipal(s.principals, s.queue, leases, id);
    }
  }

  /** Everything that dropping this lease decrements or unwraps is there and positive. */
  predicate Releasable(s: State, l: Lease) {
    if l.operator then s.operatorActive > 0
    else
      && s.active > 0
      && l.workClass in s.classes && s.classes[l.workClass] > 0
      && l.principal.Some? && l.principal.value in s.principals && s.principals[l.principal.value].active > 0
  }
}

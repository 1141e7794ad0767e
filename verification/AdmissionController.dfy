/** The controller as the source keeps it: mutable counters, two occupancy maps and a queue, each
    locked section a method proved against its step function. */
module AdmissionController {
  import opened Common
  import opened WorkloadPolicies
  import opened Admission
  import opened AdmissionChoice
  import opened AdmissionCounting
  import opened AdmissionInvariant
  import opened AdmissionRuns

  /** What the level scan knows after `n` entries: `head[level]` is the index of the level's oldest
      eligible entry, or -1. */
  ghost predicate ScanKnows(s: State, n: nat, head: seq<int>, heads: seq<Option<nat>>, aged: seq<bool>) {
    && n <= |s.queue| && |head| == |heads| == |aged| == 4
    && (forall l :: 0 <= l < 4 ==> LevelKnows(s, n, l, head[l], heads[l], aged[l]))
  }

  ghost predicate LevelKnows(s: State, n: nat, level: nat, head: int, id: Option<nat>, aged: bool)
    requires n <= |s.queue|
  {
    && -1 <= head < n
    && (head == -1 <==> id.None?)
    && (head >= 0 ==>
        Eligible(s, s.queue[head], false) && s.queue[head].priority == level && id == Some(s.queue[head].id))
    && (forall j :: 0 <= j < n && Eligible(s, s.queue[j], false) && s.queue[j].priority == level ==> 0 <= head <= j)
    && (aged <==>
        exists j :: 0 <= j < n && Eligible(s, s.queue[j], false) && s.queue[j].priority == level && AgedOut(s.queue[j]))
  }

  lemma OldestProtectedWins(s: State, head: seq<int>, heads: seq<Option<nat>>, aged: seq<bool>, level: nat)
    requires ScanKnows(s, |s.queue|, head, heads, aged)
    requires level < 4 && aged[level]
    requires forall l :: 0 <= l < 4 && aged[l] ==> head[level] <= head[l]
    requires forall i :: 0 <= i < |s.queue| ==> s.queue[i].priority <= 3
    ensures head[level] >= 0 && ChosenAt(s, false, head[level])
  {
    var k := head[level];
    assert LevelKnows(s, |s.queue|, level, k, heads[level], aged[level]);
    assert Protected(s, level) && AnyProtected(s);
    forall j | 0 <= j < k ensures !Candidate(s, s.queue[j], false) {
      var l := s.queue[j].priority;
      assert LevelKnows(s, |s.queue|, l, head[l], heads[l], aged[l]);
    }
  }

  lemma HighestLevelWins(s: State, head: seq<int>, heads: seq<Option<nat>>, aged: seq<bool>, level: nat)
    requires ScanKnows(s, |s.queue|, head, heads, aged)
    requires forall l :: 0 <= l < 4 ==> !aged[l]
    requires level < 4 && heads[level].Some? && forall l :: level < l < 4 ==> heads[l].None?
    requires forall i :: 0 <= i < |s.queue| ==> s.queue[i].priority <= 3
    ensures head[level] >= 0 && ChosenAt(s, false, head[level])
  {
    var k := head[level];
    assert LevelKnows(s, |s.queue|, level, k, heads[level], aged[level]);
    forall i | 0 <= i < |s.queue| && Eligible(s, s.queue[i], false)
      ensures s.queue[i].priority <= level && !AgedOut(s.queue[i])
      ensures i < k ==> s.queue[i].priority < level
    {
      var l := s.queue[i].priority;
      assert LevelKnows(s, |s.queue|, l, head[l], heads[l], aged[l]);
    }
  }

  lemma NoHeadNoChoice(s: State, head: seq<int>, heads: seq<Option<nat>>, aged: seq<bool>)
    requires ScanKnows(s, |s.queue|, head, heads, aged)
    requires forall l :: 0 <= l < 4 ==> heads[l].None?
    requires forall i :: 0 <= i < |s.queue| ==> s.queue[i].priority <= 3
    ensures FirstEligible(s, false).None?
  {
    forall i | 0 <= i < |s.queue| ensures !Eligible(s, s.queue[i], false) {
      var l := s.queue[i].priority;
      assert LevelKnows(s, |s.queue|, l, head[l], heads[l], aged[l]);
    }
    NoneIffNothingEligible(s, false);
  }

  lemma ScanAdvances(s: State, n: nat, head: seq<int>, heads: seq<Option<nat>>, aged: seq<bool>)
    requires ScanKnows(s, n, head, heads, aged) && n < |s.queue| && s.queue[n].priority <= 3
    ensures var e := s.queue[n];
      var l := e.priority;
      if Eligible(s, e, false) then
        ScanKnows(s, n + 1,
                  if heads[l].None? then head[l := n] else head,
                  if heads[l].None? then heads[l := Some(e.id)] else heads,
                  aged[l := aged[l] || AgedOut(e)])
      else ScanKnows(s, n + 1, head, heads, aged)
  {
    forall l | 0 <= l < 4 ensures LevelKnows(s, n, l, head[l], heads[l], aged[l]) {
    }
  }

  lemma QueueFacts(startup: Policy, s: State, leases: map<nat, Lease>)
    requires Consistent(startup, s, leases)
    ensures InIdOrder(s.queue)
    ensures forall i :: 0 <= i < |s.queue| ==> s.queue[i].priority <= 3
  {
  }

  /** The early return: the first eligible entry of all is protected, so nothing older competes. */
  lemma FirstIsAgedOut(s: State, n: nat, head: seq<int>, heads: seq<Option<nat>>, aged: seq<bool>)
    requires ScanKnows(s, n, head, heads, aged) && n < |s.queue|
    requires forall l :: 0 <= l < 4 ==> heads[l].None?
    requires forall i :: 0 <= i < |s.queue| ==> s.queue[i].priority <= 3
    requires Eligible(s, s.queue[n], false) && AgedOut(s.queue[n])
    ensures FirstEligible(s, false) == Some(s.queue[n].id)
  {
    forall j | 0 <= j < n ensures !Eligible(s, s.queue[j], false) {
      var l := s.queue[j].priority;
      assert LevelKnows(s, n, l, head[l], heads[l], aged[l]);
    }
    ChosenDecides(s, false, n);
  }

  /** The two closing loops over the four levels. */
  method Decide(ghost s: State, ghost head: seq<int>, heads: seq<Option<nat>>, aged: seq<bool>) returns (r: Option<nat>)
    requires ScanKnows(s, |s.queue|, head, heads, aged)
    requires InIdOrder(s.queue) && forall i :: 0 <= i < |s.queue| ==> s.queue[i].priority <= 3
    ensures r == FirstEligible(s, false)
  {
    hide FirstEligible, Available;
    r := None;
    ghost var best := 0;
    for level := 0 to 4
      invariant r.None? ==> forall l :: 0 <= l < level ==> !aged[l]
      invariant r.Some? ==> 0 <= best < level && aged[best] && head[best] >= 0 && r == Some(s.queue[head[best]].id)
      invariant r.Some? ==> forall l :: 0 <= l < level && aged[l] ==> head[best] <= head[l]
    {
      assert LevelKnows(s, |s.queue|, level, head[level], heads[level], aged[level]);
      if aged[level] && heads[level].Some? && (r.None? || heads[level].value < r.value) {
        r, best := heads[level], level;
      }
    }
    if r.Some? {
      OldestProtectedWins(s, head, heads, aged, best);
      ChosenDecides(s, false, head[best]);
      return;
    }
    var level := 3;
    while level >= 0
      invariant -1 <= level <= 3
      invariant forall l :: level < l < 4 ==> heads[l].None?
    {
      if heads[level].Some? {
        HighestLevelWins(s, head, heads, aged, level);
        ChosenDecides(s, false, head[level]);
        assert LevelKnows(s, |s.queue|, level, head[level], heads[level], aged[level]);
        return heads[level];
      }
      level := level - 1;
    }
    NoHeadNoChoice(s, head, heads, aged);
  }

  class Controller {
    const startup: Policy
    var policy: Policy
    var active: nat
    var operatorActive: nat
    var classes: map<string, nat>
    var principals: map<PrincipalKey, Occupancy>
    var queue: seq<Entry>
    var nextId: nat
    ghost var leases: map<nat, Lease>

    function View(): State
      reads this
    {
      State(policy, active, operatorActive, classes, principals, queue, nextId)
    }

    ghost predicate Valid()
      reads this
    {
      Consistent(startup, View(), leases)
    }

    constructor (p: Policy)
      requires Admissible(p)
      ensures Valid() && startup == p && View() == NewState(p) && leases == map[]
    {
      startup := p;
      policy := p;
      active, operatorActive := 0, 0;
      classes, principals := map[], map[];
      queue, nextId := [], 0;
      leases := map[];
      new;
      StartInv(p);
    }

    /** The single-pass scan with its early return computes the declarative rule. */
    method SelectNext(operator: bool) returns (r: Option<nat>)
      requires Valid()
      ensures r == FirstEligible(View(), operator)
    {
      if operator {
        r := SelectOperator();
      } else {
        r := SelectData();
      }
    }

    method SelectOperator() returns (r: Option<nat>)
      ensures r == FirstEligible(View(), true)
    {
      ghost var s := View();
      OperatorPoolIsFifo(s);
      var i := 0;
      while i < |queue|
        invariant 0 <= i <= |queue|
        invariant OldestEligible(s, true, 0) == OldestEligible(s, true, i)
      {
        if queue[i].operator && Available(View(), queue[i]) {
          return Some(queue[i].id);
        }
        i := i + 1;
      }
      return None;
    }

    method SelectData() returns (r: Option<nat>)
      requires Valid()
      ensures r == FirstEligible(View(), false)
    {
      hide Available, FirstEligible, Consistent;
      ghost var s := View();
      QueueFacts(startup, s, leases);
      var heads: seq<Option<nat>> := [None, None, None, None];
      var aged := [false, false, false, false];
      ghost var head: seq<int> := [-1, -1, -1, -1];
      for i := 0 to |queue|
        invariant ScanKnows(s, i, head, heads, aged)
      {
        ScanAdvances(s, i, head, heads, aged);
        var e := queue[i];
        if !e.operator && Available(View(), e) {
          if (forall l :: 0 <= l < 4 ==> heads[l].None?) && e.bypasses >= e.bypassLimit {
            FirstIsAgedOut(s, i, head, heads, aged);
            return Some(e.id);
          }
          if heads[e.priority].None? {
            head := head[e.priority := i];
            heads := heads[e.priority := Some(e.id)];
          }
          aged := aged[e.priority := aged[e.priority] || e.bypasses >= e.bypassLimit];
        }
      }
      r := Decide(s, head, heads, aged);
    }

    /** Takes one queued entry off its principal's account; the decrement cannot underflow. */
    method ReleaseQueuedOf(e: Entry)
      requires e.principal.Some? && e.principal.value in principals ==> principals[e.principal.value].queued > 0
      modifies this`principals
      ensures principals == ReleaseQueued(old(principals), e)
    {
      if e.principal.Some? && e.principal.value in principals {
        var p := e.principal.value;
        var left := Occupancy(principals[p].active, principals[p].queued - 1);
        if left.active == 0 && left.queued == 0 {
          principals := principals - {p};
        } else {
          principals := principals[p := left];
        }
      }
    }

    method PurgeQueue(now: nat, cancelled: set<nat>)
      requires Valid()
      modifies this`queue, this`principals
      ensures Valid() && View() == Purge(old(View()), now, cancelled)
    {
      hide Consistent, PrincipalsExact, ReleaseQueued, PurgeFrom;
      PurgeConsistent(startup, View(), leases, now, cancelled);
      InitialPrincipals(startup, View(), leases);
      var kept: seq<Entry>, rest := [], queue;
      ghost var target := PurgeFrom(queue, principals, now, cancelled);
      assert kept + queue == queue && kept + target.0 == target.0;
      while rest != []
        invariant queue == old(queue)
        invariant PrincipalsExact(principals, kept + rest, leases)
        invariant var r := PurgeFrom(rest, principals, now, cancelled); target == (kept + r.0, r.1)
        decreases |rest|
      {
        var e := rest[0];
        PurgeOne(kept, rest, principals, now, cancelled);
        if now < e.deadline && e.id !in cancelled {
          assert kept + rest == (kept + [e]) + rest[1..];
          kept := kept + [e];
        } else {
          PurgedRelease(kept, rest, principals, leases);
          ReleaseQueuedOf(e);
        }
        rest := rest[1..];
      }
      PurgeNothing(kept, principals, now, cancelled);
      queue := kept;
    }

    method AgeOlder(admittedId: nat)
      modifies this`queue
      ensures View() == AgeOlderEligible(old(View()), admittedId)
    {
      ghost var s := View();
      for i := 0 to |queue|
        invariant |queue| == |s.queue|
        invariant forall j :: 0 <= j < i ==> queue[j] == Aged(s, s.queue[j], admittedId)
        invariant forall j :: i <= j < |queue| ==> queue[j] == s.queue[j]
      {
        var e := queue[i];
        if !e.operator && e.id < admittedId && e.bypasses < e.bypassLimit && Available(View(), e) {
          queue := queue[i := e.(bypasses := Min(e.bypasses + 1, e.bypassLimit))];
        }
      }
      assert queue == AgeOlderEligible(s, admittedId).queue;
    }

    method ActivateEntry(e: Entry, reason: Option<CancelReason>) returns (r: Result<Lease, WorkloadError>)
      requires Valid() && EntryOk(e) && Fresh(View(), leases, e)
      modifies this
      ensures (View(), r) == Activate(old(View()), e, reason)
      ensures Valid() && leases == Granted(old(leases), e.id, r)
    {
      hide Consistent, Admissible, Available;
      ActivateConsistent(startup, View(), leases, e, reason);
      if reason.Some? {
        return Err(ErrorOf(reason.value));
      }
      if !e.operator {
        AgeOlder(e.id);
      }
      if e.operator {
        operatorActive := operatorActive + 1;
      } else {
        active := active + 1;
        classes := classes[e.workClass := (if e.workClass in classes then classes[e.workClass] else 0) + 1];
        var p := e.principal.value;
        var o := if p in principals then principals[p] else Occupancy(0, 0);
        principals := principals[p := o.(active := o.active + 1)];
      }
      r := Ok(LeaseOf(e));
      leases := leases[e.id := r.value];
    }

    method EnqueueEntry(e: Entry)
      requires Valid() && EntryOk(e) && WithinEnvelope(startup, e.policy) && Fresh(View(), leases, e)
      requires forall i :: 0 <= i < |queue| ==> queue[i].id < e.id
      modifies this`queue, this`principals
      ensures Valid() && View() == Enqueue(old(View()), e)
    {
      hide Consistent, EntryOk, WithinEnvelope, Fresh;
      EnqueueConsistent(startup, View(), leases, e);
      if e.principal.Some? {
        var p := e.principal.value;
        var o := if p in principals then principals[p] else Occupancy(0, 0);
        principals := principals[p := o.(queued := o.queued + 1)];
      }
      queue := queue + [e];
    }

    method RemoveAt(index: nat) returns (e: Entry)
      requires Valid() && index < |queue|
      modifies this`queue, this`principals
      ensures Valid() && e == old(queue)[index] && View() == RemoveQueued(old(View()), index)
    {
      RemoveConsistent(startup, View(), leases, index);
      ReleaseQueuedExact(principals, queue, index, leases);
      e := queue[index];
      queue := queue[..index] + queue[index + 1..];
      ReleaseQueuedOf(e);
    }

    /** The first locked section of an acquisition. */
    method TryArrive(request: Request, a: Arrival) returns (outcome: ArriveOutcome)
      requires Valid()
      modifies this
      ensures (View(), outcome) == Arrive(old(View()), request, a)
      ensures Valid()
      ensures leases == if outcome.Admitted? then old(leases)[old(nextId) := outcome.lease] else old(leases)
    {
      hide PurgeFrom, Place, Available, FirstEligible, SchedulingOf;
      if policy.requestTimeout.Some? && CheckedInstant(a.now, policy.requestTimeout.value, a.horizon).None? {
        return Refused(InvalidPolicy);
      }
      MakeEntryOk(startup, View(), leases, request, a);
      var (t, made) := MakeEntry(View(), request, a);
      nextId := t.nextId;
      if made.Err? {
        return Refused(made.error);
      }
      FreshAfterPurge(startup, View(), leases, made.value.id, a.purgeAt, a.cancelled);
      PurgeQueue(a.purgeAt, a.cancelled);
      outcome := PlaceEntry(made.value, a.finalReason);
    }

    method PlaceEntry(e: Entry, finalReason: Option<CancelReason>) returns (outcome: ArriveOutcome)
      requires Valid() && EntryOk(e) && WithinEnvelope(startup, e.policy) && Fresh(View(), leases, e)
      requires forall i :: 0 <= i < |queue| ==> queue[i].id < e.id
      modifies this
      ensures (View(), outcome) == Place(old(View()), e, finalReason)
      ensures Valid()
      ensures leases == if outcome.Admitted? then old(leases)[e.id := outcome.lease] else old(leases)
    {
      var first := SelectNext(e.operator);
      if Available(View(), e) && first.None? {
        var lease := ActivateEntry(e, finalReason);
        return if lease.Ok? then Admitted(lease.value) else Refused(lease.error);
      }
      var refusal := QueueRefusal(View(), e);
      if refusal.Some? {
        return Refused(Overloaded(refusal.value));
      }
      EnqueueEntry(e);
      return Queued(e.id, e.deadline);
    }

    /** One pass of the waiting loop. */
    method PollOnce(id: nat, ticket: Ticket, o: Observation) returns (outcome: PollOutcome)
      requires Valid()
      modifies this
      ensures (View(), outcome) == Poll(old(View()), id, ticket, o)
      ensures Valid()
      ensures leases == if outcome.PollAdmitted? then old(leases)[id := outcome.lease] else old(leases)
    {
      PurgeQueue(o.now, o.cancelled);
      if o.reason.Some? {
        return PollRefused(ErrorOf(o.reason.value));
      }
      if o.now >= ticket.deadline {
        return PollRefused(AdmissionTimedOut);
      }
      var first := SelectNext(ticket.operator);
      if first != Some(id) {
        return Waiting;
      }
      var index := IndexOf(queue, id);
      if index.None? {
        return PollRefused(Unavailable);
      }
      RemoveConsistent(startup, View(), leases, index.value);
      var e := RemoveAt(index.value);
      var lease := ActivateEntry(e, o.finalReason);
      return if lease.Ok? then PollAdmitted(lease.value) else PollRefused(lease.error);
    }

    method DropQueueTicket(id: nat)
      requires Valid()
      modifies this`queue, this`principals
      ensures Valid() && View() == DropTicket(old(View()), id)
    {
      var index := IndexOf(queue, id);
      if index.Some? {
        var e := RemoveAt(index.value);
      }
    }

    /** The last holder of a lease lets go; every decrement and lookup is proved safe. */
    method DropLease(l: Lease, ghost id: nat)
      requires Valid() && id in leases && leases[id] == l
      modifies this
      ensures Valid() && View() == ReleaseLease(old(View()), l) && leases == old(leases) - {id}
    {
      hide Consistent;
      ReleaseConsistent(startup, View(), leases, id);
      leases := leases - {id};
      if l.operator {
        operatorActive := operatorActive - 1;
        return;
      }
      active := active - 1;
      var left: nat := classes[l.workClass] - 1;
      classes := if left == 0 then classes - {l.workClass} else classes[l.workClass := left];
      var p := l.principal.value;
      var o := Occupancy(principals[p].active - 1, principals[p].queued);
      principals := if o.active == 0 && o.queued == 0 then principals - {p} else principals[p := o];
    }

    /** Installs a validated candidate policy, or refuses and changes nothing. */
    method Reload(candidate: Policy, loadedAt: nat, horizon: nat, declared: set<string>, reason: Option<CancelReason>)
      returns (r: Result<nat, WorkloadError>)
      requires Valid()
      modifies this`policy, this`classes
      ensures Valid()
      ensures Validate(candidate, loadedAt, horizon).Err? ==> r == Err(InvalidPolicy) && View() == old(View())
      ensures Validate(candidate, loadedAt, horizon).Ok? ==>
        (View(), r) == ApplyCandidate(startup, old(View()), candidate, declared, reason)
    {
      var valid := Validate(candidate, loadedAt, horizon);
      if valid.Err? {
        return Err(InvalidPolicy);
      }
      ReloadConsistent(startup, View(), leases, candidate, loadedAt, horizon, declared, reason);
      var (t, result) := ApplyCandidate(startup, View(), candidate, declared, reason);
      policy, classes := t.policy, t.classes;
      r := result;
    }
  }

  lemma ReloadConsistent(startup: Policy, s: State, leases: map<nat, Lease>, candidate: Policy, loadedAt: nat,
      horizon: nat, declared: set<string>, reason: Option<CancelReason>)
    requires Consistent(startup, s, leases) && Validate(candidate, loadedAt, horizon).Ok?
    ensures var t := ApplyCandidate(startup, s, candidate, declared, reason).0;
      Consistent(startup, t, leases) && t == s.(policy := t.policy, classes := t.classes)
  {
    ValidatedIsAdmissible(candidate, loadedAt, horizon);
    hide Validate, Admissible;
    forall c | c in s.classes ensures s.classes[c] != 0 {
      assert s.classes[c] == ClassLeases(leases, c);
    }
    assert (map c | c in s.classes && s.classes[c] != 0 :: s.classes[c]) == s.classes;
  }

  lemma InitialPrincipals(startup: Policy, s: State, leases: map<nat, Lease>)
    requires Consistent(startup, s, leases)
    ensures PrincipalsExact(s.principals, s.queue, leases)
  {
  }

  lemma PurgeOne(kept: seq<Entry>, rest: seq<Entry>, principals: map<PrincipalKey, Occupancy>, now: nat,
      cancelled: set<nat>)
    requires rest != []
    ensures var all := PurgeFrom(rest, principals, now, cancelled);
      var keep := Keep(rest[0], now, cancelled);
      var later :=
          PurgeFrom(rest[1..], if keep then principals else ReleaseQueued(principals, rest[0]), now, cancelled);
      (kept + all.0, all.1) == ((if keep then kept + [rest[0]] else kept) + later.0, later.1)
  {
    var later := PurgeFrom(rest[1..], principals, now, cancelled);
    assert kept + ([rest[0]] + later.0) == (kept + [rest[0]]) + later.0;
  }

  lemma PurgeNothing(kept: seq<Entry>, principals: map<PrincipalKey, Occupancy>, now: nat, cancelled: set<nat>)
    ensures PurgeFrom([], principals, now, cancelled) == ([], principals) && kept + [] == kept
  {
  }

  lemma PurgedRelease(kept: seq<Entry>, rest: seq<Entry>, principals: map<PrincipalKey, Occupancy>,
      leases: map<nat, Lease>)
    requires rest != [] && PrincipalsExact(principals, kept + rest, leases)
    ensures PrincipalsExact(ReleaseQueued(principals, rest[0]), kept + rest[1..], leases)
    ensures rest[0].principal.Some? ==>
        rest[0].principal.value in principals && principals[rest[0].principal.value].queued > 0
  {
    ReleaseQueuedExact(principals, kept + rest, |kept|, leases);
    assert (kept + rest)[..|kept|] + (kept + rest)[|kept| + 1..] == kept + rest[1..];
  }
}

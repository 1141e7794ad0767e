/** Occupancy over whole runs: the counters, the class map and the principal map are three views of
    the same live leases, and a request leaves the queue at most once. */
module AdmissionConservation {
  import opened Common
  import opened WorkloadPolicies
  import opened Admission
  import opened AdmissionCounting
  import opened AdmissionInvariant
  import opened AdmissionRuns
  import opened AdmissionFairness

  ghost function Pick<T>(s: set<T>): (x: T)
    requires s != {}
    ensures x in s
  {
    var x :| x in s; x
  }

  ghost function SumOver<T>(keys: set<T>, g: T -> nat): nat {
    if keys == {} then 0 else var k := Pick(keys); g(k) + SumOver(keys - {k}, g)
  }

  lemma {:induction false} SumSame<T>(keys: set<T>, g: T -> nat, h: T -> nat)
    requires forall k :: k in keys ==> g(k) == h(k)
    ensures SumOver(keys, g) == SumOver(keys, h)
  {
    if keys != {} {
      SumSame(keys - {Pick(keys)}, g, h);
    }
  }

  /** Leases of one kind or the other, never both, are counted by adding. */
  lemma CountSplits(leases: map<nat, Lease>, all: Lease -> bool, here: Lease -> bool, rest: Lease -> bool)
    requires forall id :: id in leases ==> (all(leases[id]) <==> here(leases[id]) || rest(leases[id]))
    requires forall id :: id in leases ==> !(here(leases[id]) && rest(leases[id]))
    ensures LeaseCount(leases, all) == LeaseCount(leases, here) + LeaseCount(leases, rest)
  {
    var hs, rs := LeaseIds(leases, here), LeaseIds(leases, rest);
    assert LeaseIds(leases, all) == hs + rs && hs !! rs;
  }

  lemma NoneCount(leases: map<nat, Lease>, f: Lease -> bool)
    requires forall id :: id in leases ==> !f(leases[id])
    ensures LeaseCount(leases, f) == 0
  {
    assert LeaseIds(leases, f) == {};
  }

  lemma {:induction false} PartitionByClass(leases: map<nat, Lease>, keys: set<string>)
    ensures SumOver(keys, (c: string) => ClassLeases(leases, c)) ==
        LeaseCount(leases, (l: Lease) => !l.operator && l.workClass in keys)
  {
    hide LeaseCount;
    var all := (l: Lease) => !l.operator && l.workClass in keys;
    if keys == {} {
      NoneCount(leases, all);
    } else {
      var c := Pick(keys);
      PartitionByClass(leases, keys - {c});
      CountSplits(leases, all, (l: Lease) => !l.operator && l.workClass == c,
          (l: Lease) => !l.operator && l.workClass in keys - {c});
    }
  }

  lemma {:induction false} PartitionByPrincipal(leases: map<nat, Lease>, keys: set<PrincipalKey>)
    ensures SumOver(keys, (p: PrincipalKey) => PrincipalLeases(leases, p)) ==
      LeaseCount(leases, (l: Lease) => l.principal.Some? && l.principal.value in keys)
  {
    hide LeaseCount;
    var all := (l: Lease) => l.principal.Some? && l.principal.value in keys;
    if keys == {} {
      NoneCount(leases, all);
    } else {
      var p := Pick(keys);
      PartitionByPrincipal(leases, keys - {p});
      CountSplits(leases, all, (l: Lease) => l.principal == Some(p),
          (l: Lease) => l.principal.Some? && l.principal.value in keys - {p});
    }
  }

  lemma SomeLeaseCounts(leases: map<nat, Lease>, id: nat, f: Lease -> bool)
    requires id in leases && f(leases[id])
    ensures LeaseCount(leases, f) > 0
  {
    assert id in LeaseIds(leases, f);
  }

  /** `active` is the sum of the class counts. */
  lemma ActiveIsClassSum(startup: Policy, s: State, leases: map<nat, Lease>)
    requires Consistent(startup, s, leases)
    ensures s.active == SumOver(s.classes.Keys, (c: string) => ClassActive(s, c))
  {
    PartitionByClass(leases, s.classes.Keys);
    SumSame(s.classes.Keys, (c: string) => ClassActive(s, c), (c: string) => ClassLeases(leases, c));
    assert LeaseIds(leases, (l: Lease) => !l.operator) ==
        LeaseIds(leases, (l: Lease) => !l.operator && l.workClass in s.classes.Keys) by {
      forall id | id in leases && !leases[id].operator ensures leases[id].workClass in s.classes.Keys {
        SomeLeaseCounts(leases, id, (l: Lease) => !l.operator && l.workClass == leases[id].workClass);
        assert ClassLeases(leases, leases[id].workClass) > 0;
      }
    }
  }

  /** `active` is also the sum of the principals' active counts. */
  lemma ActiveIsPrincipalSum(startup: Policy, s: State, leases: map<nat, Lease>)
    requires Consistent(startup, s, leases)
    ensures s.active == SumOver(s.principals.Keys, (p: PrincipalKey) => PrincipalActive(s, p))
  {
    PartitionByPrincipal(leases, s.principals.Keys);
    forall p: PrincipalKey | p in s.principals.Keys ensures PrincipalActive(s, p) == PrincipalLeases(leases, p) {
      assert PrincipalExact(s.principals, PrincipalQueuedCount(s.queue, p), PrincipalLeases(leases, p), p);
    }
    SumSame(s.principals.Keys, (p: PrincipalKey) => PrincipalActive(s, p),
        (p: PrincipalKey) => PrincipalLeases(leases, p));
    assert LeaseIds(leases, (l: Lease) => !l.operator) ==
        LeaseIds(leases, (l: Lease) => l.principal.Some? && l.principal.value in s.principals.Keys) by {
      forall id | id in leases && !leases[id].operator ensures leases[id].principal.value in s.principals.Keys {
        var p := leases[id].principal.value;
        SomeLeaseCounts(leases, id, (l: Lease) => l.principal == Some(p));
        assert PrincipalExact(s.principals, PrincipalQueuedCount(s.queue, p), PrincipalLeases(leases, p), p);
      }
    }
  }

  /** All views of occupancy agree. */
  ghost predicate Conserved(w: World) {
    var s := w.state;
    && s.active == DataLeases(w.leases)
    && s.active == SumOver(s.classes.Keys, (c: string) => ClassActive(s, c))
    && s.active == SumOver(s.principals.Keys, (p: PrincipalKey) => PrincipalActive(s, p))
    && s.operatorActive == OperatorLeases(w.leases)
    && (forall p: PrincipalKey :: PrincipalQueued(s, p) == PrincipalQueuedCount(s.queue, p))
    && (forall p: PrincipalKey :: p in s.principals ==> s.principals[p] != Occupancy(0, 0))
    && (forall c :: c in s.classes ==> s.classes[c] > 0)
    && (forall id :: id in w.leases ==> Releasable(s, w.leases[id]))
  }

  /** Occupancy conservation in every reachable state; every live lease can be dropped safely. */
  lemma OccupancyConserved(ws: seq<World>, evs: seq<Event>, i: nat)
    requires IsRunFromStart(ws, evs) && i < |ws|
    ensures Conserved(ws[i])
  {
    var w := ws[i];
    assert Inv(w) by {
      hide Inv, Step, Enabled, Admissible;
      StartInv(ws[0].startup);
      RunKeepsInv(ws, evs);
    }
    InvConserves(w);
  }

  lemma MapsExact(startup: Policy, s: State, leases: map<nat, Lease>)
    requires Consistent(startup, s, leases)
    ensures forall p: PrincipalKey :: PrincipalQueued(s, p) == PrincipalQueuedCount(s.queue, p)
    ensures forall p: PrincipalKey :: p in s.principals ==> s.principals[p] != Occupancy(0, 0)
    ensures forall c :: c in s.classes ==> s.classes[c] > 0
    ensures s.active == DataLeases(leases) && s.operatorActive == OperatorLeases(leases)
  {
    forall p: PrincipalKey
      ensures PrincipalQueued(s, p) == PrincipalQueuedCount(s.queue, p)
      ensures p in s.principals ==> s.principals[p] != Occupancy(0, 0)
    {
      assert PrincipalExact(s.principals, PrincipalQueuedCount(s.queue, p), PrincipalLeases(leases, p), p);
    }
  }

  lemma InvConserves(w: World)
    requires Inv(w)
    ensures Conserved(w)
  {
    hide Consistent;
    ActiveIsClassSum(w.startup, w.state, w.leases);
    ActiveIsPrincipalSum(w.startup, w.state, w.leases);
    MapsExact(w.startup, w.state, w.leases);
    forall id | id in w.leases ensures Releasable(w.state, w.leases[id]) {
      ReleaseConsistent(w.startup, w.state, w.leases, id);
    }
  }

  /** Whatever took a request out of the queue (selection, purge or ticket drop), no later step puts
      it back: it leaves at most once. */
  lemma {:induction false} NeverRequeued(ws: seq<World>, evs: seq<Event>, id: nat)
    requires IsRun(ws, evs) && Inv(ws[0])
    requires id < ws[0].state.nextId && Find(ws[0].state.queue, id).None?
    ensures forall i :: 0 <= i < |ws| ==> Find(ws[i].state.queue, id).None?
  {
    hide Inv, Step, Enabled, Find;
    var n := |evs|;
    if n > 0 {
      assert IsRun(ws[..n], evs[..n - 1]);
      NeverRequeued(ws[..n], evs[..n - 1], id);
      RunKeepsInv(ws, evs);
      assert forall i :: 0 <= i < n ==> ws[..n][i] == ws[i];
      if Find(ws[n].state.queue, id).Some? {
        StepNeverRequeues(ws[n - 1], evs[n - 1], id);
      }
    }
  }

  lemma StepNeverRequeues(w: World, ev: Event, id: nat)
    requires Inv(w) && Enabled(w, ev) && id < w.state.nextId
    requires Find(Step(w, ev).state.queue, id).Some?
    ensures Find(w.state.queue, id).Some?
  {
    FollowsStep(w, ev, id);
  }
}

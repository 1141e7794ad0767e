/** Counting live leases and queued entries, the two quantities that the occupancy maps summarise. */
module AdmissionCounting {
  import opened Common
  import opened WorkloadPolicies
  import opened Admission

  // ---- live leases, by the id of the request they were granted to ----

  ghost function LeaseIds(leases: map<nat, Lease>, f: Lease -> bool): set<nat> {
    set id | id in leases && f(leases[id])
  }

  ghost function LeaseCount(leases: map<nat, Lease>, f: Lease -> bool): nat {
    |LeaseIds(leases, f)|
  }

  ghost function DataLeases(leases: map<nat, Lease>): nat {
    LeaseCount(leases, (l: Lease) => !l.operator)
  }

  ghost function OperatorLeases(leases: map<nat, Lease>): nat {
    LeaseCount(leases, (l: Lease) => l.operator)
  }

  ghost function ClassLeases(leases: map<nat, Lease>, c: string): nat {
    LeaseCount(leases, (l: Lease) => !l.operator && l.workClass == c)
  }

  ghost function PrincipalLeases(leases: map<nat, Lease>, p: PrincipalKey): nat {
    LeaseCount(leases, (l: Lease) => l.principal == Some(p))
  }

  lemma AddLease(leases: map<nat, Lease>, id: nat, l: Lease, f: Lease -> bool)
    requires id !in leases
    ensures LeaseCount(leases[id := l], f) == LeaseCount(leases, f) + (if f(l) then 1 else 0)
  {
    assert LeaseIds(leases[id := l], f) == LeaseIds(leases, f) + (if f(l) then {id} else {});
  }

  lemma DropLeaseCount(leases: map<nat, Lease>, id: nat, f: Lease -> bool)
    requires id in leases
    ensures LeaseCount(leases - {id}, f) == LeaseCount(leases, f) - (if f(leases[id]) then 1 else 0)
  {
    var m := leases - {id};
    assert m[id := leases[id]] == leases;
    AddLease(m, id, leases[id], f);
  }

  // ---- queued entries ----

  function PrincipalQueuedCount(queue: seq<Entry>, p: PrincipalKey): nat {
    CountQueued(queue, (e: Entry) => e.principal == Some(p))
  }

  lemma {:induction false} CountConcat(a: seq<Entry>, b: seq<Entry>, f: Entry -> bool)
    ensures CountQueued(a + b, f) == CountQueued(a, f) + CountQueued(b, f)
  {
    if a == [] {
      assert a + b == b;
    } else {
      assert (a + b)[1..] == a[1..] + b;
      CountConcat(a[1..], b, f);
    }
  }

  lemma CountRemove(queue: seq<Entry>, index: nat, f: Entry -> bool)
    requires index < |queue|
    ensures CountQueued(queue[..index] + queue[index + 1..], f) ==
        CountQueued(queue, f) - (if f(queue[index]) then 1 else 0)
  {
    CountConcat(queue[..index], queue[index + 1..], f);
    CountConcat(queue[..index], queue[index..], f);
    assert queue[..index] + queue[index..] == queue;
    assert queue[index..][1..] == queue[index + 1..];
  }

  lemma {:induction false} CountSame(a: seq<Entry>, b: seq<Entry>, f: Entry -> bool)
    requires |a| == |b| && forall i :: 0 <= i < |a| ==> f(a[i]) == f(b[i])
    ensures CountQueued(a, f) == CountQueued(b, f)
  {
    if a != [] {
      CountSame(a[1..], b[1..], f);
    }
  }

  // ---- the purge ----

  lemma {:induction false} PurgeKeepsExactly(queue: seq<Entry>, principals: map<PrincipalKey, Occupancy>, now: nat,
      cancelled: set<nat>)
    ensures var kept := PurgeFrom(queue, principals, now, cancelled).0;
      && (forall e :: e in kept <==> e in queue && now < e.deadline && e.id !in cancelled)
      && |kept| <= |queue|
  {
    if queue != [] {
      var rest := if Keep(queue[0], now, cancelled) then principals else ReleaseQueued(principals, queue[0]);
      PurgeKeepsExactly(queue[1..], rest, now, cancelled);
      assert queue == [queue[0]] + queue[1..];
    }
  }

  lemma {:induction false} PurgeCountsLess(queue: seq<Entry>, principals: map<PrincipalKey, Occupancy>, now: nat,
      cancelled: set<nat>, f: Entry -> bool)
    ensures CountQueued(PurgeFrom(queue, principals, now, cancelled).0, f) <= CountQueued(queue, f)
  {
    if queue != [] {
      var rest := if Keep(queue[0], now, cancelled) then principals else ReleaseQueued(principals, queue[0]);
      PurgeCountsLess(queue[1..], rest, now, cancelled, f);
      var kept := PurgeFrom(queue[1..], rest, now, cancelled).0;
      assert ([queue[0]] + kept)[1..] == kept;
    }
  }
}

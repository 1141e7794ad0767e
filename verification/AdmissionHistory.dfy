/** Whole runs seen from outside: every lease goes back to one request and was granted once, and the
    policy in force only moves forward. */
module AdmissionHistory {
  import opened Common
  import opened WorkloadPolicies
  import opened Admission
  import opened AdmissionChoice
  import opened AdmissionCounting
  import opened AdmissionInvariant
  import opened AdmissionRuns
  import opened AdmissionFairness
  import opened AdmissionCapacity
  import opened AdmissionConservation
  import opened AdmissionService

  /** Step `k` is the arrival that was given this id. */
  ghost predicate AskedAt(ws: seq<World>, evs: seq<Event>, k: nat, id: nat)
    requires |ws| == |evs| + 1
  {
    k < |evs| && evs[k].Arriving? && Considered(ws[k], evs[k].request, evs[k].arrival) && ws[k].state.nextId == id
  }

  lemma InvThroughout(ws: seq<World>, evs: seq<Event>)
    requires IsRunFromStart(ws, evs)
    ensures forall i :: 0 <= i < |ws| ==> Inv(ws[i])
  {
    hide Inv, Step, Enabled, Admissible;
    StartInv(ws[0].startup);
    RunKeepsInv(ws, evs);
  }

  /** A new id in the queue is that of a considered arrival. */
  lemma NewEntryIsAsked(w: World, ev: Event, id: nat)
    requires Inv(w) && Enabled(w, ev) && Find(Step(w, ev).state.queue, id).Some? && w.state.nextId <= id
    ensures ev.Arriving? && Considered(w, ev.request, ev.arrival) && id == w.state.nextId
    ensures QueuedAs(Find(Step(w, ev).state.queue, id).value, id, ev.request, ev.arrival, w.state.policy)
  {
    hide Inv, Step, Considered, Enabled, QueuedAs;
    var v := Step(w, ev);
    FollowsStep(w, ev, id);
    StepKeepsInv(w, ev);
    QueuedIdsAreOld(v);
    QueuedIdsAreOld(w);
    if Considered(w, ev.request, ev.arrival) {
      ArrivalPlaces(w, ev.request, ev.arrival);
    } else {
      UnconsideredIsRefused(w, ev.request, ev.arrival);
    }
  }

  /** Every queued entry goes back to the arrival that was given its id, and has kept its terms, deadline,
      level and limit ever since. */
  lemma {:induction false} EntryTraces(ws: seq<World>, evs: seq<Event>, i: nat, id: nat) returns (k: nat)
    requires IsRunFromStart(ws, evs) && i < |ws| && Find(ws[i].state.queue, id).Some?
    ensures k < i && AskedAt(ws, evs, k, id)
    ensures QueuedAs(Find(ws[i].state.queue, id).value.(bypasses := 0), id, evs[k].request, evs[k].arrival,
        ws[k].state.policy)
  {
    hide Inv, Step, Considered, Enabled, Admissible;
    InvThroughout(ws, evs);
    if i > 0 {
      FollowsStep(ws[i - 1], evs[i - 1], id);
      if id < ws[i - 1].state.nextId {
        k := EntryTraces(ws, evs, i - 1, id);
      } else {
        k := i - 1;
        NewEntryIsAsked(ws[k], evs[k], id);
      }
    }
  }

  /** How a lease can appear. */
  lemma GrantHasCause(w: World, ev: Event, id: nat)
    requires Inv(w) && Enabled(w, ev) && id in Step(w, ev).leases
    ensures var l := Step(w, ev).leases[id];
      || (id in w.leases && w.leases[id] == l)
      || (ev.Arriving? && Considered(w, ev.request, ev.arrival) && id == w.state.nextId
            && l == Terms(ev.request, w.state.policy))
      || (ev.Polling? && id == ev.id && Find(w.state.queue, id).Some? && l == LeaseOf(Find(w.state.queue, id).value))
  {
    hide Inv, Considered, Poll, Arrive, Validate, ApplyCandidate, DropTicket, ReleaseLease, HasTurn;
    if ev.Arriving? {
      if Considered(w, ev.request, ev.arrival) {
        ArrivalPlaces(w, ev.request, ev.arrival);
      } else {
        UnconsideredIsRefused(w, ev.request, ev.arrival);
      }
    } else if ev.Polling? {
      PollAnswers(w, ev.id, ev.observation);
    }
  }

  /** Every live lease goes back to the arrival that was given its id: it is charged to the principal and
      class that asked, in the pool that was asked, under the policy of that moment. */
  lemma {:induction false} LeaseTraces(ws: seq<World>, evs: seq<Event>, i: nat, id: nat) returns (k: nat)
    requires IsRunFromStart(ws, evs) && i < |ws| && id in ws[i].leases
    ensures k < i && AskedAt(ws, evs, k, id) && ws[i].leases[id] == Terms(evs[k].request, ws[k].state.policy)
  {
    hide Inv, Step, Considered, Enabled, Admissible;
    InvThroughout(ws, evs);
    if i > 0 {
      GrantHasCause(ws[i - 1], evs[i - 1], id);
      if id in ws[i - 1].leases && ws[i - 1].leases[id] == ws[i].leases[id] {
        k := LeaseTraces(ws, evs, i - 1, id);
      } else if evs[i - 1].Arriving? {
        k := i - 1;
      } else {
        k := EntryTraces(ws, evs, i - 1, id);
      }
    }
  }

  /** A request is granted at most one lease: once it has been dropped, no later step grants it again. */
  lemma {:induction false} GrantedOnce(ws: seq<World>, evs: seq<Event>, i: nat, j: nat, id: nat)
    requires IsRunFromStart(ws, evs) && i < j < |ws| && id in ws[i].leases && id !in ws[i + 1].leases
    ensures id !in ws[j].leases && Find(ws[j].state.queue, id).None? && id < ws[j].state.nextId
    decreases j
  {
    hide Inv, Step, Considered, Enabled, Admissible, Find;
    InvThroughout(ws, evs);
    if j == i + 1 {
      HoldersAreKnown(ws[i], id);
      StepKeepsIds(ws[i], evs[i]);
    } else {
      GrantedOnce(ws, evs, i, j - 1, id);
      StepKeepsIds(ws[j - 1], evs[j - 1]);
      if id in ws[j].leases {
        GrantHasCause(ws[j - 1], evs[j - 1], id);
      }
    }
    if Find(ws[j].state.queue, id).Some? {
      StepNeverRequeues(ws[j - 1], evs[j - 1], id);
    }
  }

  lemma HoldersAreKnown(w: World, id: nat)
    requires Inv(w) && id in w.leases
    ensures id < w.state.nextId && Find(w.state.queue, id).None?
  {
  }

  // ---- reloads ----

  /** A valid successor of the current policy, within the startup envelope and covering every class that
      is declared. */
  predicate Succeeds(w: World, ev: Event)
    requires ev.Reloading?
  {
    && Validate(ev.candidate, ev.loadedAt, ev.horizon).Ok?
    && ev.candidate.policyId == w.state.policy.policyId && w.state.policy.version < ev.candidate.version
    && (forall c :: c in ev.declared ==> c in ev.candidate.classes)
    && WithinEnvelope(w.startup, ev.candidate) && ev.reason.None?
  }

  /** A reload installs exactly such candidates, and changes nothing else; any other changes nothing. */
  lemma ReloadIsExact(w: World, ev: Event)
    requires Inv(w) && ev.Reloading?
    ensures Step(w, ev) == if Succeeds(w, ev) then w.(state := w.state.(policy := ev.candidate)) else w
    ensures Validate(ev.candidate, ev.loadedAt, ev.horizon).Ok? ==>
        (ApplyCandidate(w.startup, w.state, ev.candidate, ev.declared, ev.reason).1 == Ok(ev.candidate.version) <==>
         Succeeds(w, ev))
  {
    if Validate(ev.candidate, ev.loadedAt, ev.horizon).Ok? {
      ValidatedIsAdmissible(ev.candidate, ev.loadedAt, ev.horizon);
      hide Validate;
      ClassesSurvive(w.startup, w.state, w.leases);
    }
  }

  lemma ClassesSurvive(startup: Policy, s: State, leases: map<nat, Lease>)
    requires Consistent(startup, s, leases)
    ensures (map c | c in s.classes && s.classes[c] != 0 :: s.classes[c]) == s.classes
  {
    forall c | c in s.classes ensures s.classes[c] != 0 {
      assert s.classes[c] == ClassLeases(leases, c);
    }
  }

  /** Over every run the policy keeps its identity and its version never goes back; one version is one
      policy. */
  lemma {:induction false} PolicyOnlyAdvances(ws: seq<World>, evs: seq<Event>, i: nat, j: nat)
    requires IsRunFromStart(ws, evs) && i <= j < |ws|
    ensures var p, q := ws[i].state.policy, ws[j].state.policy;
      p.policyId == q.policyId && p.version <= q.version && (p.version == q.version ==> p == q)
    decreases j
  {
    hide Inv, Step, Enabled, Admissible, Validate;
    if i < j {
      PolicyOnlyAdvances(ws, evs, i, j - 1);
      InvThroughout(ws, evs);
      if evs[j - 1].Reloading? {
        ReloadIsExact(ws[j - 1], evs[j - 1]);
      } else {
        PolicyUnchanged(ws[j - 1], evs[j - 1]);
      }
    }
  }
}

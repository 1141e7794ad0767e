/** Anti-starvation over whole runs: how often a waiting data request can be overtaken. */
module AdmissionFairness {
  import opened Common
  import opened WorkloadPolicies
  import opened Admission
  import opened AdmissionChoice
  import opened AdmissionCounting
  import opened AdmissionInvariant
  import opened AdmissionRuns

  /** The step from `w` to `v` granted a data lease to request `a`. */
  ghost predicate GrantedData(w: World, v: World, a: nat) {
    a in v.leases && a !in w.leases && !v.leases[a].operator
  }

  /** Data request `id` sits in the queue across the step and had room when the step began. */
  predicate HeldBack(w: World, v: World, id: nat) {
    var e := Find(v.state.queue, id);
    e.Some? && !e.value.operator && Available(w.state, e.value)
  }

  ghost predicate PassedByNewer(w: World, v: World, id: nat) {
    HeldBack(w, v, id) && exists a :: GrantedData(w, v, a) && id < a
  }

  ghost predicate PassedByOther(w: World, v: World, id: nat) {
    HeldBack(w, v, id) && exists a :: GrantedData(w, v, a) && a != id
  }

  // ---- one activation, seen by one queued entry ----

  /** Requests admitted from the queue never age an entry beyond its limit, so the saturating
      counter counts exactly. */
  lemma AgingIsExact(s: State, index: nat, id: nat)
    requires InIdOrder(s.queue) && index < |s.queue|
    requires !s.queue[index].operator && FirstEligible(s, false) == Some(s.queue[index].id)
    requires Find(s.queue, id).Some? && EntryOk(Find(s.queue, id).value)
    ensures var e := Find(s.queue, id).value;
      !e.operator && id < s.queue[index].id && Available(s, e) ==> e.bypasses < e.bypassLimit
  {
    var e := Find(s.queue, id).value;
    if !e.operator && Available(s, e) && AgedOut(e) {
      NeverPassesAgedOut(s, IndexOf(s.queue, id).value);
    }
  }

  function PassCount(b: bool): nat {
    if b then 1 else 0
  }

  /** What happens to the entry of `id` in a step that leaves it queued. */
  ghost predicate Follows(w: World, v: World, id: nat) {
    && Find(w.state.queue, id).Some? && Find(v.state.queue, id).Some?
    && var e := Find(w.state.queue, id).value;
       Find(v.state.queue, id).value == e.(bypasses := e.bypasses + PassCount(PassedByNewer(w, v, id)))
  }

  /** A step that grants no data lease and hands the entry through unchanged. */
  lemma FollowsUnchanged(w: World, v: World, id: nat)
    requires Find(v.state.queue, id).Some? && Find(w.state.queue, id) == Find(v.state.queue, id)
    requires forall a :: !GrantedData(w, v, a)
    ensures Follows(w, v, id)
  {
  }

  lemma FollowsWasQueued(w: World, v: World, id: nat)
    requires Follows(w, v, id)
    ensures Find(w.state.queue, id).Some?
  {
  }

  lemma FindAfterActivate(s: State, chosen: Entry, id: nat)
    requires Find(s.queue, id).Some?
    ensures Find(Activate(s, chosen, None).0.queue, id) ==
      if chosen.operator then Find(s.queue, id) else Some(Aged(s, Find(s.queue, id).value, chosen.id))
  {
    hide Available, Find, IndexOf;
    FindAfterAging(s, chosen.id, id);
  }

  lemma InOrder(startup: Policy, s: State, leases: map<nat, Lease>)
    requires Consistent(startup, s, leases)
    ensures InIdOrder(s.queue)
  {
  }

  lemma FoundOk(startup: Policy, s: State, leases: map<nat, Lease>, id: nat)
    requires Consistent(startup, s, leases) && Find(s.queue, id).Some?
    ensures EntryOk(Find(s.queue, id).value) && Find(s.queue, id).value.id == id < s.nextId
  {
  }

  lemma AvailableThroughout(w: World, t: State, index: nat, e: Entry)
    requires Consistent(w.startup, w.state, w.leases) && Consistent(w.startup, t, w.leases) && index < |t.queue|
    ensures Available(w.state, e) == Available(RemoveQueued(t, index), e) == Available(t, e)
  {
    hide Consistent, Available;
    RemoveConsistent(w.startup, t, w.leases, index);
    SameAvailability(w.startup, w.state, RemoveQueued(t, index), w.leases, e);
    SameAvailability(w.startup, w.state, t, w.leases, e);
  }

  /** The chosen entry is removed, everyone older with room ages by one, the lease is granted. */
  lemma AdmissionAges(w: World, t: State, index: nat, id: nat)
    requires Consistent(w.startup, w.state, w.leases) && Consistent(w.startup, t, w.leases)
    requires index < |t.queue| && FirstEligible(t, t.queue[index].operator) == Some(t.queue[index].id)
    requires Find(RemoveQueued(t, index).queue, id).Some?
    ensures Find(t.queue, id).Some? && id != t.queue[index].id
    ensures var chosen := t.queue[index];
      var e := Find(t.queue, id).value;
      var passed := !chosen.operator && !e.operator && id < chosen.id && Available(w.state, e);
      Find(Activate(RemoveQueued(t, index), chosen, None).0.queue, id) ==
          Some(e.(bypasses := e.bypasses + PassCount(passed)))
  {
    hide Consistent, Available, FirstEligible, Activate, Find, IndexOf, InIdOrder;
    var chosen := t.queue[index];
    var r := RemoveQueued(t, index);
    InOrder(w.startup, t, w.leases);
    FindAfterRemove(t, index, id);
    FindAfterActivate(r, chosen, id);
    var e := Find(t.queue, id).value;
    FoundOk(w.startup, t, w.leases, id);
    AvailableThroughout(w, t, index, e);
    if !chosen.operator {
      AgingIsExact(t, index, id);
    }
  }

  lemma RoomIgnoresAge(s: State, e: Entry, bypasses: nat)
    ensures Available(s, e.(bypasses := bypasses)) == Available(s, e)
  {
  }

  lemma FollowsAdmission(w: World, t: State, index: nat, id: nat)
    requires Consistent(w.startup, w.state, w.leases) && Consistent(w.startup, t, w.leases)
    requires index < |t.queue| && FirstEligible(t, t.queue[index].operator) == Some(t.queue[index].id)
    requires Find(RemoveQueued(t, index).queue, id).Some?
    requires Find(w.state.queue, id) == Find(t.queue, id)
    ensures var u := Activate(RemoveQueued(t, index), t.queue[index], None).0;
      Follows(w, w.(state := u, leases := w.leases[t.queue[index].id := LeaseOf(t.queue[index])]), id)
  {
    hide FirstEligible, Available, AgeOlderEligible, ReleaseQueued;
    var chosen := t.queue[index];
    var u := Activate(RemoveQueued(t, index), chosen, None).0;
    var v := w.(state := u, leases := w.leases[chosen.id := LeaseOf(chosen)]);
    AdmissionAges(w, t, index, id);
    var e := Find(t.queue, id).value;
    RoomIgnoresAge(w.state, e, Find(u.queue, id).value.bypasses);
    assert GrantedData(w, v, chosen.id) <==> !chosen.operator;
  }

  /** A purge leaves a consistent, ordered queue in which whoever is found was there before. */
  lemma PurgedQueue(startup: Policy, s: State, leases: map<nat, Lease>, now: nat, cancelled: set<nat>)
    requires Consistent(startup, s, leases)
    ensures var t := Purge(s, now, cancelled);
      && Consistent(startup, t, leases) && InIdOrder(t.queue)
      && forall x :: Find(t.queue, x).Some? ==> Find(s.queue, x) == Find(t.queue, x)
  {
    hide PurgeFrom;
    PurgeConsistent(startup, s, leases, now, cancelled);
    InOrder(startup, s, leases);
    InOrder(startup, Purge(s, now, cancelled), leases);
    hide Consistent;
    forall x | Find(Purge(s, now, cancelled).queue, x).Some?
      ensures Find(s.queue, x) == Find(Purge(s, now, cancelled).queue, x)
    {
      FindAfterPurge(s, now, cancelled, x);
    }
  }

  lemma FollowsPoll(w: World, a: nat, o: Observation, id: nat)
    requires Inv(w) && a in w.tickets
    requires Find(Step(w, Polling(a, o)).state.queue, id).Some?
    ensures Follows(w, Step(w, Polling(a, o)), id)
  {
    hide Available, FirstEligible, Purge, ReleaseQueued, Follows, Consistent;
    var t := Purge(w.state, o.now, o.cancelled);
    var v := Step(w, Polling(a, o));
    PurgedQueue(w.startup, w.state, w.leases, o.now, o.cancelled);
    var index := IndexOf(t.queue, a);
    if o.reason.None? && o.now < w.tickets[a].deadline && FirstEligible(t, w.tickets[a].operator) == Some(a)
        && index.Some? {
      var k := ChosenIsOldestOfItsLevel(t, w.tickets[a].operator);
      FindsMember(t.queue, t.queue[k]);
      if o.finalReason.None? {
        FindAfterAging(RemoveQueued(t, index.value), a, id);
        FindAfterRemove(t, index.value, id);
        FollowsAdmission(w, t, index.value, id);
      } else {
        FindAfterRemove(t, index.value, id);
        FollowsUnchanged(w, v, id);
      }
    } else {
      FollowsUnchanged(w, v, id);
    }
  }

  /** An arrival is admitted directly only when no queued entry of its pool had room, so it passes
      nobody; otherwise it queues behind everybody. */
  lemma FollowsPlace(w: World, s: State, e: Entry, finalReason: Option<CancelReason>, id: nat)
    requires Consistent(w.startup, w.state, w.leases) && Consistent(w.startup, s, w.leases)
    requires EntryOk(e) && Fresh(s, w.leases, e) && e.bypasses == 0
    requires forall i :: 0 <= i < |s.queue| ==> s.queue[i].id < e.id
    requires forall x :: Find(s.queue, x).Some? ==> Find(w.state.queue, x) == Find(s.queue, x)
    ensures var (t, outcome) := Place(s, e, finalReason);
      var v := w.(state := t, leases := if outcome.Admitted? then w.leases[e.id := outcome.lease] else w.leases);
      Find(t.queue, id).Some? ==>
        && (id != e.id ==> Follows(w, v, id))
        && (id == e.id ==> Find(t.queue, id) == Some(e) && outcome == Queued(id, e.deadline))
  {
    hide Consistent, FirstEligible, Available, QueueRefusal, EntryOk;
    var (t, outcome) := Place(s, e, finalReason);
    var v := w.(state := t, leases := if outcome.Admitted? then w.leases[e.id := outcome.lease] else w.leases);
    InOrder(w.startup, s, w.leases);
    if Find(t.queue, id).Some? {
      if Available(s, e) && FirstEligible(s, e.operator).None? {
        NoneIffNothingEligible(s, e.operator);
        if finalReason.None? {
          FindAfterAging(s, e.id, id);
          var x := Find(s.queue, id).value;
          assert !Eligible(s, x, e.operator);
          SameAvailability(w.startup, w.state, s, w.leases, x);
          assert forall a :: GrantedData(w, v, a) <==> a == e.id && !e.operator;
        }
      } else if QueueRefusal(s, e).None? {
        FindAfterEnqueue(s.queue, e, id);
      }
    }
  }

  lemma FollowsArrive(w: World, request: Request, a: Arrival, id: nat)
    requires Inv(w)
    requires Find(Step(w, Arriving(request, a)).state.queue, id).Some?
    ensures var v := Step(w, Arriving(request, a));
      if id == w.state.nextId then
        Find(v.state.queue, id).value.bypasses == 0 && Find(v.state.queue, id).value.policy == w.state.policy
        && v.leases == w.leases && id in v.tickets
        && v.tickets[id] == Ticket(Find(v.state.queue, id).value.deadline, Find(v.state.queue, id).value.operator)
      else Follows(w, v, id)
  {
    hide Consistent, Place, Purge, MakeEntry, CheckedInstant, EntryOk, Fresh;
    var v := Step(w, Arriving(request, a));
    MakeEntryOk(w.startup, w.state, w.leases, request, a);
    var (t, made) := MakeEntry(w.state, request, a);
    if made.Ok? && !(w.state.policy.requestTimeout.Some?
        && CheckedInstant(a.now, w.state.policy.requestTimeout.value, a.horizon).None?) {
      var s := Purge(t, a.purgeAt, a.cancelled);
      PurgedQueue(w.startup, t, w.leases, a.purgeAt, a.cancelled);
      NewcomerIsFresh(w, request, a);
      FollowsPlace(w, s, made.value, a.finalReason, id);
    } else {
      FollowsUnchanged(w, v, id);
    }
  }

  /** The id of a new entry is newer than the queue's and held by nobody. */
  lemma NewcomerIsFresh(w: World, request: Request, a: Arrival)
    requires Inv(w)
    ensures var (t, made) := MakeEntry(w.state, request, a);
      var s := Purge(t, a.purgeAt, a.cancelled);
      made.Ok? ==> Fresh(s, w.leases, made.value) && forall i :: 0 <= i < |s.queue| ==> s.queue[i].id < made.value.id
  {
    hide PurgeFrom, CheckedInstant, SchedulingOf;
    MakeEntryOk(w.startup, w.state, w.leases, request, a);
    var (t, made) := MakeEntry(w.state, request, a);
    if made.Ok? {
      FreshAfterPurge(w.startup, t, w.leases, made.value.id, a.purgeAt, a.cancelled);
    }
  }

  lemma QueuedIdsAreOld(w: World)
    requires Inv(w)
    ensures InIdOrder(w.state.queue)
    ensures forall id: nat :: Find(w.state.queue, id).Some? ==> id < w.state.nextId
  {
  }

  lemma EntriesOk(w: World, id: nat)
    requires Inv(w) && Find(w.state.queue, id).Some?
    ensures EntryOk(Find(w.state.queue, id).value)
  {
  }

  lemma FollowsStep(w: World, ev: Event, id: nat)
    requires Inv(w) && Enabled(w, ev)
    requires Find(Step(w, ev).state.queue, id).Some?
    ensures var v := Step(w, ev);
      if id < w.state.nextId then Follows(w, v, id)
      else
        && ev.Arriving? && Find(v.state.queue, id).value.bypasses == 0
        && Find(v.state.queue, id).value.policy == w.state.policy && v.leases == w.leases && id in v.tickets
        && v.tickets[id] == Ticket(Find(v.state.queue, id).value.deadline, Find(v.state.queue, id).value.operator)
  {
    hide Consistent, Follows, Arrive, Poll;
    var v := Step(w, ev);
    QueuedIdsAreOld(w);
    match ev
    case Arriving(request, a) =>
      FollowsArrive(w, request, a, id);
      if id != w.state.nextId {
        FollowsWasQueued(w, v, id);
      }
    case Polling(a, o) =>
      FollowsPoll(w, a, o, id);
      FollowsWasQueued(w, v, id);
    case TicketDropped(a) =>
      var index := IndexOf(w.state.queue, a);
      if index.Some? {
        FindAfterRemove(w.state, index.value, id);
      }
      FollowsUnchanged(w, v, id);
    case LeaseDropped(a) => FollowsUnchanged(w, v, id);
    case Reloading(_, _, _, _, _) => FollowsUnchanged(w, v, id);
  }

  lemma StepKeepsIds(w: World, ev: Event)
    requires Inv(w) && Enabled(w, ev)
    ensures var v := Step(w, ev);
      && v.startup == w.startup && w.state.nextId <= v.state.nextId
      && (forall id :: id in v.tickets ==> id in w.tickets || (w.state.nextId <= id < v.state.nextId && ev.Arriving?))
      && (forall id :: id in w.tickets && id in v.tickets ==> v.tickets[id] == w.tickets[id])
      && (forall id :: id in w.tickets && id !in v.tickets ==> ev == TicketDropped(id))
  {
    hide Available, FirstEligible, QueueRefusal, PurgeFrom, Consistent, Validate, ReleaseQueued;
    if ev.Arriving? {
      MakeEntryOk(w.startup, w.state, w.leases, ev.request, ev.arrival);
    }
  }

  lemma DroppedIsGone(w: World, id: nat)
    requires Inv(w) && id in w.tickets
    ensures Find(Step(w, TicketDropped(id)).state.queue, id).None?
  {
    var index := IndexOf(w.state.queue, id);
    if index.Some? {
      RemoveConsistent(w.startup, w.state, w.leases, index.value);
    }
  }

  /** Every step keeps the whole invariant: exact occupancy, id order, and one ticket per entry. */
  lemma StepKeepsInv(w: World, ev: Event)
    requires Inv(w) && Enabled(w, ev)
    ensures Inv(Step(w, ev))
  {
    hide Consistent, Step;
    var v := Step(w, ev);
    StepConsistent(w, ev);
    StepKeepsIds(w, ev);
    InOrder(w.startup, v.state, v.leases);
    forall i | 0 <= i < |v.state.queue|
      ensures v.state.queue[i].id in v.tickets
        && v.tickets[v.state.queue[i].id] == Ticket(v.state.queue[i].deadline, v.state.queue[i].operator)
    {
      var id := v.state.queue[i].id;
      FindsMember(v.state.queue, v.state.queue[i]);
      FollowsStep(w, ev, id);
      if ev == TicketDropped(id) {
        DroppedIsGone(w, id);
      }
    }
  }

  lemma {:induction false} RunKeepsInv(ws: seq<World>, evs: seq<Event>)
    requires IsRun(ws, evs) && Inv(ws[0])
    ensures forall i :: 0 <= i < |ws| ==>
        Inv(ws[i]) && ws[i].startup == ws[0].startup && ws[0].state.nextId <= ws[i].state.nextId
  {
    hide Inv, Step, Enabled;
    if |evs| > 0 {
      var n := |evs|;
      assert IsRun(ws[..n], evs[..n - 1]);
      RunKeepsInv(ws[..n], evs[..n - 1]);
      assert forall i :: 0 <= i < n ==> ws[..n][i] == ws[i];
      StepKeepsInv(ws[n - 1], evs[n - 1]);
      StepKeepsIds(ws[n - 1], evs[n - 1]);
    }
  }

  // ---- the bypass bound ----

  /** Steps of the run in which a newer data request was admitted past `id` while `id` had room. */
  ghost function NewerPasses(ws: seq<World>, id: nat): nat {
    if |ws| < 2 then 0
    else NewerPasses(ws[..|ws| - 1], id) + PassCount(PassedByNewer(ws[|ws| - 2], ws[|ws| - 1], id))
  }

  /** Nothing is held back under an id that has not been handed out yet. */
  lemma {:induction false} NoPassesBeforeArrival(ws: seq<World>, evs: seq<Event>, id: nat)
    requires IsRunFromStart(ws, evs) && ws[|ws| - 1].state.nextId <= id
    ensures NewerPasses(ws, id) == 0
  {
    hide Consistent, Step, Enabled, Admissible, Start;
    if |evs| > 0 {
      var n := |evs|;
      StartInv(ws[0].startup);
      RunKeepsInv(ws, evs);
      QueuedIdsAreOld(ws[n]);
      assert Inv(ws[n - 1]);
      StepKeepsIds(ws[n - 1], evs[n - 1]);
      NoPassesBeforeArrival(ws[..n], evs[..n - 1], id);
    }
  }

  /** Bypass bound: in every run, each queued entry's counter is exactly the number of newer data
      admissions made while it had room, and it never exceeds the entry's own limit. */
  lemma {:induction false} BypassBound(ws: seq<World>, evs: seq<Event>, id: nat)
    requires IsRunFromStart(ws, evs)
    requires Find(ws[|ws| - 1].state.queue, id).Some?
    ensures var e := Find(ws[|ws| - 1].state.queue, id).value;
      NewerPasses(ws, id) == e.bypasses <= e.bypassLimit
  {
    var n := |evs|;
    hide Consistent, Step, Enabled, Admissible;
    StartInv(ws[0].startup);
    RunKeepsInv(ws, evs);
    EntriesOk(ws[n], id);
    if n > 0 {
      assert Inv(ws[n - 1]);
      FollowsStep(ws[n - 1], evs[n - 1], id);
      if id < ws[n - 1].state.nextId {
        BypassBound(ws[..n], evs[..n - 1], id);
      } else {
        NoPassesBeforeArrival(ws[..n], evs[..n - 1], id);
      }
    }
  }

  // ---- bounded overtaking ----

  /** Older data entries still ahead of `id`. */
  function Ahead(s: State, id: nat): nat {
    CountQueued(s.queue, (e: Entry) => !e.operator && e.id < id)
  }

  ghost function OtherPasses(ws: seq<World>, id: nat): nat {
    if |ws| < 2 then 0
    else OtherPasses(ws[..|ws| - 1], id) + PassCount(PassedByOther(ws[|ws| - 2], ws[|ws| - 1], id))
  }

  lemma AheadAfterActivate(s: State, e: Entry, reason: Option<CancelReason>, id: nat)
    ensures Ahead(Activate(s, e, reason).0, id) == Ahead(s, id)
  {
    CountSame(AgeOlderEligible(s, e.id).queue, s.queue, (x: Entry) => !x.operator && x.id < id);
  }

  lemma AheadAfterPlace(s: State, e: Entry, finalReason: Option<CancelReason>, id: nat)
    requires id <= e.id
    ensures Ahead(Place(s, e, finalReason).0, id) == Ahead(s, id)
  {
    AheadAfterActivate(s, e, finalReason, id);
    CountConcat(s.queue, [e], (x: Entry) => !x.operator && x.id < id);
  }

  lemma AheadAfterSelection(t: State, index: nat, reason: Option<CancelReason>, id: nat)
    requires index < |t.queue|
    ensures var e := t.queue[index];
      Ahead(Activate(RemoveQueued(t, index), e, reason).0, id) == Ahead(t, id) - PassCount(!e.operator && e.id < id)
  {
    hide Activate, ReleaseQueued;
    CountRemove(t.queue, index, (x: Entry) => !x.operator && x.id < id);
    AheadAfterActivate(RemoveQueued(t, index), t.queue[index], reason, id);
  }

  lemma AheadAfterPoll(w: World, a: nat, o: Observation, id: nat)
    requires Inv(w) && a in w.tickets
    ensures var v := Step(w, Polling(a, o));
      Ahead(v.state, id) + PassCount(GrantedData(w, v, a) && a < id) <= Ahead(w.state, id)
  {
    hide Available, FirstEligible, AgeOlderEligible, ReleaseQueued, Inv, Occupy, RemoveQueued;
    var t := Purge(w.state, o.now, o.cancelled);
    PurgeCountsLess(w.state.queue, w.state.principals, o.now, o.cancelled, (x: Entry) => !x.operator && x.id < id);
    var index := IndexOf(t.queue, a);
    if index.Some? {
      AheadAfterSelection(t, index.value, o.finalReason, id);
    }
  }

  lemma AheadAfterArrive(startup: Policy, s: State, leases: map<nat, Lease>, request: Request, a: Arrival, id: nat)
    requires Consistent(startup, s, leases) && id < s.nextId
    ensures Ahead(Arrive(s, request, a).0, id) <= Ahead(s, id)
  {
    hide Available, FirstEligible, PurgeFrom, CheckedInstant, SchedulingOf, Place;
    MakeEntryOk(startup, s, leases, request, a);
    var (t, made) := MakeEntry(s, request, a);
    if made.Ok? {
      PurgeCountsLess(t.queue, t.principals, a.purgeAt, a.cancelled, (x: Entry) => !x.operator && x.id < id);
      AheadAfterPlace(Purge(t, a.purgeAt, a.cancelled), made.value, a.finalReason, id);
    }
  }

  /** Whoever is admitted ahead of `id` from an older place uses up one of the places ahead. */
  lemma AheadStep(w: World, ev: Event, id: nat)
    requires Inv(w) && Enabled(w, ev) && id < w.state.nextId
    ensures var v := Step(w, ev);
      Ahead(v.state, id) + PassCount(exists a: nat :: GrantedData(w, v, a) && a < id) <= Ahead(w.state, id)
  {
    hide Validate, Arrive, Poll, Consistent, RemoveQueued, Ahead;
    var v := Step(w, ev);
    OnlyGrantee(w, ev);
    match ev
    case Arriving(request, a) => AheadAfterArrive(w.startup, w.state, w.leases, request, a, id);
    case Polling(a, o) => AheadAfterPoll(w, a, o, id);
    case TicketDropped(a) => AheadAfterDrop(w.state, a, id);
    case LeaseDropped(a) => SameAhead(w.state, v.state, id);
    case Reloading(_, _, _, _, _) => SameAhead(w.state, v.state, id);
  }

  /** A step grants at most one lease: to the newcomer, or to the request that polled. */
  lemma OnlyGrantee(w: World, ev: Event)
    requires Enabled(w, ev)
    ensures forall a: nat :: GrantedData(w, Step(w, ev), a) ==>
        (ev.Arriving? && a == w.state.nextId) || (ev.Polling? && a == ev.id)
  {
    hide Arrive, Poll, RemoveQueued, Validate;
  }

  lemma AheadAfterDrop(s: State, a: nat, id: nat)
    ensures Ahead(DropTicket(s, a), id) <= Ahead(s, id)
  {
    hide ReleaseQueued;
    var index := IndexOf(s.queue, a);
    if index.Some? {
      CountRemove(s.queue, index.value, (x: Entry) => !x.operator && x.id < id);
    }
  }

  lemma SameAhead(s: State, t: State, id: nat)
    requires t.queue == s.queue
    ensures Ahead(t, id) == Ahead(s, id)
  {
  }

  /** Bounded overtaking: from any reachable state on, while `id` stays queued, all admissions of
      other data requests made while it had room are paid for by its unused bypasses or by the older
      entries that were ahead of it. */
  lemma {:induction false} BoundedOvertaking(ws: seq<World>, evs: seq<Event>, id: nat)
    requires IsRun(ws, evs) && Inv(ws[0])
    requires id < ws[0].state.nextId && Find(ws[|ws| - 1].state.queue, id).Some?
    ensures Find(ws[0].state.queue, id).Some?
    ensures var first := Find(ws[0].state.queue, id).value;
      var last := Find(ws[|ws| - 1].state.queue, id).value;
      && first.bypassLimit == last.bypassLimit && first.bypasses <= last.bypasses <= last.bypassLimit
      && OtherPasses(ws, id) <=
          (last.bypasses - first.bypasses) + Ahead(ws[0].state, id) - Ahead(ws[|ws| - 1].state, id)
  {
    hide Consistent, Step, Enabled, Ahead, Available;
    var n := |evs|;
    RunKeepsInv(ws, evs);
    EntriesOk(ws[n], id);
    if n > 0 {
      var w, v := ws[n - 1], ws[n];
      assert Inv(w) && Enabled(w, evs[n - 1]) && v == Step(w, evs[n - 1]);
      FollowsStep(w, evs[n - 1], id);
      AheadStep(w, evs[n - 1], id);
      BoundedOvertaking(ws[..n], evs[..n - 1], id);
      assert PassedByOther(w, v, id) ==> PassedByNewer(w, v, id) || exists a: nat :: GrantedData(w, v, a) && a < id;
    }
  }

  /** From the moment a request is queued, other data requests are admitted past it, while it has
      room, at most `bypassLimit` times plus once for each data entry that was queued before it. */
  lemma OvertakingSinceEnqueue(w: World, request: Request, a: Arrival, ws: seq<World>, evs: seq<Event>)
    requires Inv(w) && Arrive(w.state, request, a).1.Queued?
    requires IsRun(ws, evs) && ws[0] == Step(w, Arriving(request, a))
    requires Find(ws[|ws| - 1].state.queue, w.state.nextId).Some?
    ensures var id := w.state.nextId;
      && Find(ws[0].state.queue, id).Some?
      && OtherPasses(ws, id) <= Find(ws[0].state.queue, id).value.bypassLimit + Ahead(ws[0].state, id)
      && Ahead(ws[0].state, id) <= DataQueued(w.state.queue)
  {
    var id := w.state.nextId;
    var ev := Arriving(request, a);
    StepKeepsInv(w, ev);
    MakeEntryOk(w.startup, w.state, w.leases, request, a);
    BoundedOvertaking(ws, evs, id);
    FollowsStep(w, ev, id);
    var (t, made) := MakeEntry(w.state, request, a);
    var s := Purge(t, a.purgeAt, a.cancelled);
    AheadAfterPlace(s, made.value, a.finalReason, id);
    PurgeCountsLess(t.queue, t.principals, a.purgeAt, a.cancelled, (x: Entry) => !x.operator);
    CountLess(s.queue, (x: Entry) => !x.operator && x.id < id, (x: Entry) => !x.operator);
  }

  lemma {:induction false} CountLess(queue: seq<Entry>, f: Entry -> bool, g: Entry -> bool)
    requires forall i :: 0 <= i < |queue| && f(queue[i]) ==> g(queue[i])
    ensures CountQueued(queue, f) <= CountQueued(queue, g)
  {
    if queue != [] {
      CountLess(queue[1..], f, g);
    }
  }
}

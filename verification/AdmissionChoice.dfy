/** Properties of the selection rule, for every queue in id order. */
module AdmissionChoice {
  import opened Common
  import opened WorkloadPolicies
  import opened Admission

  predicate InIdOrder(queue: seq<Entry>) {
    forall i, j :: 0 <= i < j < |queue| ==> queue[i].id < queue[j].id
  }

  /** `k` is where the rule stops. */
  predicate ChosenAt(s: State, operator: bool, k: nat) {
    && k < |s.queue|
    && Candidate(s, s.queue[k], operator)
    && forall j :: 0 <= j < k ==> !Candidate(s, s.queue[j], operator)
  }

  lemma {:induction false} FirstCandidateScan(s: State, operator: bool, from: nat) returns (k: nat)
    requires from <= |s.queue|
    requires forall j :: 0 <= j < from ==> !Candidate(s, s.queue[j], operator)
    ensures FirstCandidate(s, operator, from).Some? ==>
        ChosenAt(s, operator, k) && FirstCandidate(s, operator, from) == Some(s.queue[k].id)
    ensures FirstCandidate(s, operator, from).None? ==> forall j :: 0 <= j < |s.queue| ==>
        !Candidate(s, s.queue[j], operator)
    decreases |s.queue| - from
  {
    k := from;
    if from < |s.queue| && !Candidate(s, s.queue[from], operator) {
      k := FirstCandidateScan(s, operator, from + 1);
    }
  }

  /** Where the rule stops is unique, so finding such a place decides the rule. */
  lemma ChosenDecides(s: State, operator: bool, k: nat)
    requires ChosenAt(s, operator, k)
    ensures FirstEligible(s, operator) == Some(s.queue[k].id)
  {
    var j := FirstCandidateScan(s, operator, 0);
    assert Candidate(s, s.queue[k], operator);
  }

  lemma {:induction false} HighestEligible(s: State, n: nat) returns (k: nat)
    requires n <= |s.queue|
    requires exists i :: 0 <= i < n && Eligible(s, s.queue[i], false)
    ensures k < n && Eligible(s, s.queue[k], false)
    ensures forall i :: 0 <= i < n && Eligible(s, s.queue[i], false) ==> s.queue[i].priority <= s.queue[k].priority
  {
    if exists i :: 0 <= i < n - 1 && Eligible(s, s.queue[i], false) {
      k := HighestEligible(s, n - 1);
      if Eligible(s, s.queue[n - 1], false) && s.queue[n - 1].priority > s.queue[k].priority {
        k := n - 1;
      }
    } else {
      k := n - 1;
    }
  }

  lemma EligibleGivesCandidate(s: State, operator: bool) returns (k: nat)
    requires exists i :: 0 <= i < |s.queue| && Eligible(s, s.queue[i], operator)
    ensures k < |s.queue| && Candidate(s, s.queue[k], operator)
  {
    if !operator && AnyProtected(s) {
      k :| k < |s.queue| && Eligible(s, s.queue[k], false) && AgedOut(s.queue[k]);
    } else if !operator {
      k := HighestEligible(s, |s.queue|);
    } else {
      k :| k < |s.queue| && Eligible(s, s.queue[k], operator);
    }
  }

  /** Work conservation: the rule selects nothing exactly when nothing in the pool is eligible. */
  lemma NoneIffNothingEligible(s: State, operator: bool)
    ensures FirstEligible(s, operator).None? <==> forall i :: 0 <= i < |s.queue| ==> !Eligible(s, s.queue[i], operator)
  {
    var k := FirstCandidateScan(s, operator, 0);
    if exists i :: 0 <= i < |s.queue| && Eligible(s, s.queue[i], operator) {
      k := EligibleGivesCandidate(s, operator);
    }
  }

  /** The selected entry is queued, fits its caps, and is the oldest eligible one of its level. */
  lemma ChosenIsOldestOfItsLevel(s: State, operator: bool) returns (k: nat)
    requires FirstEligible(s, operator).Some?
    ensures ChosenAt(s, operator, k) && FirstEligible(s, operator) == Some(s.queue[k].id)
    ensures Eligible(s, s.queue[k], operator)
    ensures forall j :: 0 <= j < k && Eligible(s, s.queue[j], operator) ==>
        !operator && s.queue[j].priority != s.queue[k].priority
  {
    k := FirstCandidateScan(s, operator, 0);
    forall j | 0 <= j < k && Eligible(s, s.queue[j], operator)
      ensures !operator && s.queue[j].priority != s.queue[k].priority
    {
      assert !Candidate(s, s.queue[j], operator);
    }
  }

  // ---- the rule, level by level ----

  /** A waiting data request of this level that has room. */
  predicate Competes(s: State, i: nat, level: nat) {
    i < |s.queue| && !s.queue[i].operator && s.queue[i].priority == level && Available(s, s.queue[i])
  }

  predicate HeadOf(s: State, k: nat, level: nat) {
    Competes(s, k, level) && forall i :: 0 <= i < k ==> !Competes(s, i, level)
  }

  /** Somebody of this level has been passed over as often as its limit allows. */
  predicate Overdue(s: State, level: nat) {
    exists i :: 0 <= i < |s.queue| && Competes(s, i, level) && s.queue[i].bypassLimit <= s.queue[i].bypasses
  }

  /** The head of a level goes next: the oldest head of an overdue level if there is one, or else the head
      of the highest level. */
  predicate GoesNext(s: State, k: nat) {
    && k < |s.queue| && HeadOf(s, k, s.queue[k].priority)
    && if exists i :: 0 <= i < |s.queue| && Overdue(s, s.queue[i].priority) then
         && Overdue(s, s.queue[k].priority)
         && forall i :: 0 <= i < k && HeadOf(s, i, s.queue[i].priority) ==> !Overdue(s, s.queue[i].priority)
       else forall i :: 0 <= i < |s.queue| && HeadOf(s, i, s.queue[i].priority) ==>
           s.queue[i].priority <= s.queue[k].priority
  }

  lemma {:induction false} LevelHasHead(s: State, i: nat) returns (h: nat)
    requires i < |s.queue| && Competes(s, i, s.queue[i].priority)
    ensures h <= i && s.queue[h].priority == s.queue[i].priority && HeadOf(s, h, s.queue[i].priority)
  {
    if j: nat :| j < i && Competes(s, j, s.queue[i].priority) {
      h := LevelHasHead(s, j);
    } else {
      h := i;
    }
  }

  lemma OverdueIsProtected(s: State, level: nat)
    ensures Overdue(s, level) <==> Protected(s, level)
    ensures AnyProtected(s) <==> exists i :: 0 <= i < |s.queue| && Overdue(s, s.queue[i].priority)
  {
    if Overdue(s, level) {
      var i :| 0 <= i < |s.queue| && Competes(s, i, level) && s.queue[i].bypassLimit <= s.queue[i].bypasses;
      assert Eligible(s, s.queue[i], false) && AgedOut(s.queue[i]);
    }
    if Protected(s, level) {
      var i :| 0 <= i < |s.queue| && Eligible(s, s.queue[i], false) && s.queue[i].priority == level
          && AgedOut(s.queue[i]);
      assert Competes(s, i, level);
    }
    if AnyProtected(s) {
      var i :| 0 <= i < |s.queue| && Eligible(s, s.queue[i], false) && AgedOut(s.queue[i]);
      assert Competes(s, i, s.queue[i].priority);
    }
    if i :| 0 <= i < |s.queue| && Overdue(s, s.queue[i].priority) {
      var j :| 0 <= j < |s.queue| && Competes(s, j, s.queue[i].priority)
          && s.queue[j].bypassLimit <= s.queue[j].bypasses;
      assert Eligible(s, s.queue[j], false) && AgedOut(s.queue[j]);
    }
  }

  /** Where the rule stops in the data pool is the head that goes next. */
  lemma ChoiceIsByLevels(s: State, k: nat)
    ensures ChosenAt(s, false, k) <==> GoesNext(s, k)
  {
    hide Protected, AnyProtected, Overdue, Available;
    forall level: nat ensures Overdue(s, level) <==> Protected(s, level) {
      OverdueIsProtected(s, level);
    }
    OverdueIsProtected(s, 0);
    if ChosenAt(s, false, k) {
      ChosenGoesNext(s, k);
    } else if GoesNext(s, k) {
      NextIsChosen(s, k);
    }
  }

  lemma ChosenGoesNext(s: State, k: nat)
    requires ChosenAt(s, false, k)
    requires forall level: nat :: Overdue(s, level) <==> Protected(s, level)
    requires AnyProtected(s) <==> exists i :: 0 <= i < |s.queue| && Overdue(s, s.queue[i].priority)
    ensures GoesNext(s, k)
  {
    hide Protected, AnyProtected, Overdue, Available;
    forall i | 0 <= i < k && Eligible(s, s.queue[i], false) ensures !Candidate(s, s.queue[i], false) {
    }
    assert Competes(s, k, s.queue[k].priority);
  }

  lemma NextIsChosen(s: State, k: nat)
    requires GoesNext(s, k)
    requires forall level: nat :: Overdue(s, level) <==> Protected(s, level)
    requires AnyProtected(s) <==> exists i :: 0 <= i < |s.queue| && Overdue(s, s.queue[i].priority)
    ensures ChosenAt(s, false, k)
  {
    hide Protected, AnyProtected, Overdue, Available;
    forall i | 0 <= i < |s.queue| && Eligible(s, s.queue[i], false)
      ensures i < k ==> !Candidate(s, s.queue[i], false)
      ensures !AnyProtected(s) ==> s.queue[i].priority <= s.queue[k].priority
    {
      assert Competes(s, i, s.queue[i].priority);
      var h := LevelHasHead(s, i);
    }
  }

  /** The heart of the bypass bound: an admission never goes past an eligible older entry that has
      already used up its bypasses. */
  lemma NeverPassesAgedOut(s: State, i: nat)
    requires InIdOrder(s.queue)
    requires i < |s.queue| && Eligible(s, s.queue[i], false) && AgedOut(s.queue[i])
    ensures FirstEligible(s, false).Some? && FirstEligible(s, false).value <= s.queue[i].id
  {
    var k := FirstCandidateScan(s, false, 0);
    assert Candidate(s, s.queue[i], false);
  }

  /** With every bypass limit zero the data pool is plain first-in-first-out over eligible entries. */
  lemma ZeroLimitsAreFifo(s: State)
    requires forall i :: 0 <= i < |s.queue| ==> s.queue[i].bypassLimit == 0
    ensures FirstEligible(s, false) == OldestEligible(s, false, 0)
  {
    forall i | 0 <= i < |s.queue| && Eligible(s, s.queue[i], false) ensures Candidate(s, s.queue[i], false) {
      assert AgedOut(s.queue[i]);
    }
    SameScan(s, false, 0);
  }

  /** The operator pool is first-in-first-out whatever the data policy says. */
  lemma OperatorPoolIsFifo(s: State)
    ensures FirstEligible(s, true) == OldestEligible(s, true, 0)
  {
    SameScan(s, true, 0);
  }

  function OldestEligible(s: State, operator: bool, from: nat): Option<nat>
    decreases |s.queue| - from
  {
    if from >= |s.queue| then None
    else if Eligible(s, s.queue[from], operator) then Some(s.queue[from].id)
    else OldestEligible(s, operator, from + 1)
  }

  lemma {:induction false} SameScan(s: State, operator: bool, from: nat)
    requires forall i :: 0 <= i < |s.queue| && Eligible(s, s.queue[i], operator) ==> Candidate(s, s.queue[i], operator)
    ensures FirstCandidate(s, operator, from) == OldestEligible(s, operator, from)
    decreases |s.queue| - from
  {
    if from < |s.queue| {
      SameScan(s, operator, from + 1);
    }
  }
}

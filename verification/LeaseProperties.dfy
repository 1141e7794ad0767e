/** What every lease keeps over every sequence of calls, and how time composes. */
module LeaseProperties {
  import opened Common
  import opened Leases

  // ---- the invariant ----

  /** When the lease began. */
  function BegunAt(s: Lease): int {
    s.absoluteDeadline - s.limits.absolute
  }

  /** The last moment at which a lease can still be open. */
  function LastMoment(s: Lease): nat {
    s.absoluteDeadline + Tail(s.limits)
  }

  predicate PhaseBounded(s: Lease) {
    match s.phase
    case Idle => true
    case Operating => true
    case Cancelling(cleanup, _) => cleanup <= s.absoluteDeadline + s.limits.cancelGrace
    case CommitAttempted(decideBy) => decideBy <= s.absoluteDeadline + s.limits.commitWait
    case Terminal(_, at) => at <= LastMoment(s)
    case Expired(_) => true
  }

  /** The commit key, the attempt flag and the phase tell one story. */
  predicate AttemptAgrees(s: Lease) {
    && (s.commitAttempted <==> s.commitKey.Some?)
    && match s.phase
       case CommitAttempted(_) => s.commitAttempted
       case Terminal(outcome, _) => s.commitAttempted <==> outcome.IsCommitAttempt()
       case Expired(attempted) => s.commitAttempted <==> attempted
       case _ => !s.commitAttempted
  }

  predicate WellFormed(s: Lease) {
    && LimitsOk(s.limits)
    && 0 <= BegunAt(s) <= s.lastSeen
    && LastMoment(s) + s.limits.retention <= U64_MAX
    && BegunAt(s) + s.limits.idle <= s.deadline <= s.absoluteDeadline
    && 1 <= s.generation
    && s.generation - 1 <= s.deadline - (BegunAt(s) + s.limits.idle)
    && s.opSeq <= U64_MAX
    && PhaseBounded(s)
    && AttemptAgrees(s)
  }

  lemma BeginWellFormed(call: Call, instance: nat, id: nat, limits: Limits)
    requires LimitsOk(limits)
    ensures Begin(call, instance, id, limits).Ok? <==>
        call.at + limits.absolute + Tail(limits) + limits.retention <= U64_MAX
    ensures Begin(call, instance, id, limits).Ok? ==>
      var s := Begin(call, instance, id, limits).value;
      WellFormed(s) && BegunAt(s) == call.at && s.deadline == call.at + limits.idle && s.phase.Idle?
  {
  }

  // ---- time ----

  /** Settling a well-formed lease cannot overflow, changes only the phase, and leaves nothing due. */
  lemma {:induction false} SettleCompletes(s: Lease, now: nat)
    requires WellFormed(s)
    ensures var (t, e) := Settle(s, now);
      e.None? && t == s.(phase := t.phase) && WellFormed(t) && DueAt(t, now).NothingDue?
    decreases Remaining(s.phase)
  {
    match DueAt(s, now)
    case NothingDue =>
    case Overflow =>
    case DueTo(phase) => SettleCompletes(s.(phase := phase), now);
  }

  lemma DueStep(s: Lease, now: nat)
    requires WellFormed(s)
    ensures !DueAt(s, now).Overflow?
    ensures DueAt(s, now).DueTo? ==>
      var t := s.(phase := DueAt(s, now).phase);
      WellFormed(t) && Settle(t, now) == Settle(s, now) && Remaining(t.phase) < Remaining(s.phase)
  {
  }

  /** What is due at one time is due, identically, at every later time. */
  lemma DueIsMonotone(s: Lease, t1: nat, t2: nat)
    requires t1 <= t2
    ensures DueAt(s, t1).DueTo? ==> DueAt(s, t2) == DueAt(s, t1)
  {
  }

  /** Time composes: observing in between never changes the outcome or its recorded time. */
  lemma {:induction false} TimeComposes(s: Lease, t1: nat, t2: nat)
    requires WellFormed(s) && t1 <= t2
    ensures Settle(Settle(s, t1).0, t2) == Settle(s, t2)
    decreases Remaining(s.phase)
  {
    DueIsMonotone(s, t1, t2);
    match DueAt(s, t1)
    case NothingDue =>
    case Overflow =>
    case DueTo(phase) =>
      SettleCompletes(s, t1);
      TimeComposes(s.(phase := phase), t1, t2);
  }

  /** Looking at `t1` first changes neither the state nor the reply of any call at `t2`. */
  lemma ObservationIsInvisible(s: Lease, b: LeaseBinding, t1: nat, t2: nat, cmd: Command)
    requires WellFormed(s) && b == s.binding && s.lastSeen <= t1 <= t2
    ensures Step(Step(s, Call(b, t1), Observe).0, Call(b, t2), cmd) == Step(s, Call(b, t2), cmd)
  {
    var s1 := s.(lastSeen := t1);
    var s2 := s.(lastSeen := t2);
    SettleCompletes(s1, t1);
    SettleIgnoresLastSeen(s1, t2, t1);
    SettleIgnoresLastSeen(s1, t2, t2);
    SettleCompletes(s2, t1);
    TimeComposes(s2, t1, t2);
    assert Enter(Step(s, Call(b, t1), Observe).0, Call(b, t2)) == Enter(s, Call(b, t2));
  }

  lemma {:induction false} SettleIgnoresLastSeen(s: Lease, seen: nat, now: nat)
    ensures Settle(s.(lastSeen := seen), now) == (Settle(s, now).0.(lastSeen := seen), Settle(s, now).1)
    decreases Remaining(s.phase)
  {
    assert DueAt(s.(lastSeen := seen), now) == DueAt(s, now);
    match DueAt(s, now)
    case NothingDue =>
    case Overflow =>
    case DueTo(phase) =>
      SettleIgnoresLastSeen(s.(phase := phase), seen, now);
      assert s.(lastSeen := seen).(phase := phase) == s.(phase := phase).(lastSeen := seen);
  }

  /** Lifetime: terminal by the absolute deadline plus the longer of the two waits, gone one
      retention later. */
  lemma {:induction false} BoundedLifetime(s: Lease, now: nat)
    requires WellFormed(s)
    ensures now >= LastMoment(s) ==> Settle(s, now).0.phase.Terminal? || Settle(s, now).0.phase.Expired?
    ensures now >= LastMoment(s) + s.limits.retention ==> Settle(s, now).0.phase.Expired?
    decreases Remaining(s.phase)
  {
    match DueAt(s, now)
    case NothingDue =>
    case Overflow =>
    case DueTo(phase) =>
      SettleCompletes(s, now);
      assert WellFormed(s.(phase := phase));
      BoundedLifetime(s.(phase := phase), now);
  }

  // ---- one call ----

  lemma EnterKeeps(s: Lease, call: Call)
    requires WellFormed(s)
    ensures var (t, e) := Enter(s, call);
      && WellFormed(t) && t == s.(lastSeen := t.lastSeen, phase := t.phase) && s.lastSeen <= t.lastSeen
      && (e.None? ==>
          t.lastSeen == call.at && DueAt(t, call.at).NothingDue? && t == Settle(s.(lastSeen := call.at), call.at).0)
      && (e.Some? ==> t == s && (e.value == BindingMismatch || e.value == TimeRegression))
  {
    if call.binding == s.binding && call.at >= s.lastSeen {
      SettleCompletes(s.(lastSeen := call.at), call.at);
    }
  }

  /** The ranges that the argument types give every command. */
  predicate CommandInRange(cmd: Command) {
    cmd.Renew? ==> 0 < cmd.requested <= U64_MAX
  }

  /** A command keeps form and identity, fails only without effect, never on time, and on a counter only
      when operations have used it up. */
  predicate Keeps(s: Lease, at: nat, cmd: Command, t: Lease, r: Result<Reply, LeaseError>) {
    && WellFormed(t) && t.lastSeen == at
    && t.instance == s.instance && t.id == s.id && t.binding == s.binding && t.limits == s.limits
    && t.absoluteDeadline == s.absoluteDeadline
    && (r.Err? ==> t == s && r.error != TimeOverflow)
    && (r == Err(CounterExhausted) ==> cmd.BeginOperation? && s.opSeq == U64_MAX)
  }

  predicate AboutCommit(cmd: Command) {
    cmd.BeginCommit? || cmd.FinishCommit? || cmd.Resolve? || cmd.ResponseLost?
  }

  lemma ApplyKeeps(s: Lease, at: nat, cmd: Command)
    requires WellFormed(s) && s.lastSeen == at && DueAt(s, at).NothingDue? && CommandInRange(cmd)
    ensures Keeps(s, at, cmd, Apply(s, at, cmd).0, Apply(s, at, cmd).1)
  {
    if cmd.Renew? {
      hide ApplyRenew;
      ApplyRenewKeeps(s, at, cmd.expected, cmd.requested);
    } else {
      hide Apply, Keeps;
      if AboutCommit(cmd) {
        ApplyCommitKeeps(s, at, cmd);
      } else if cmd.RequestCancel? {
        ApplyCancelKeeps(s, at);
      } else {
        ApplyOperationKeeps(s, at, cmd);
      }
    }
  }

  lemma ApplyCommitKeeps(s: Lease, at: nat, cmd: Command)
    requires WellFormed(s) && s.lastSeen == at && DueAt(s, at).NothingDue? && AboutCommit(cmd)
    ensures Keeps(s, at, cmd, Apply(s, at, cmd).0, Apply(s, at, cmd).1)
  {
  }

  lemma ApplyCancelKeeps(s: Lease, at: nat)
    requires WellFormed(s) && s.lastSeen == at && DueAt(s, at).NothingDue?
    ensures Keeps(s, at, RequestCancel, Apply(s, at, RequestCancel).0, Apply(s, at, RequestCancel).1)
  {
  }

  lemma ApplyOperationKeeps(s: Lease, at: nat, cmd: Command)
    requires WellFormed(s) && s.lastSeen == at && DueAt(s, at).NothingDue? && !AboutCommit(cmd)
    requires !cmd.Renew? && !cmd.RequestCancel?
    ensures Keeps(s, at, cmd, Apply(s, at, cmd).0, Apply(s, at, cmd).1)
  {
  }

  /** Each renewal moves the deadline by at least one, so the generation cannot outrun the lifetime. */
  lemma ApplyRenewKeeps(s: Lease, at: nat, expected: nat, requested: nat)
    requires WellFormed(s) && s.lastSeen == at
    ensures var (t, r) := ApplyRenew(s, at, expected, requested);
      && WellFormed(t) && t == s.(generation := t.generation, deadline := t.deadline)
      && (r.Err? ==> t == s && r.error != TimeOverflow && r.error != CounterExhausted)
  {
  }

  /** Arithmetic closure and well-formedness of every call: no call overflows time, and only the
      2^64-th operation exhausts a counter. A failing call leaves the lease unchanged or exactly as
      observing at that time would. */
  lemma StepKeeps(s: Lease, call: Call, cmd: Command)
    requires WellFormed(s) && CommandInRange(cmd)
    ensures var (t, r) := Step(s, call, cmd);
      && WellFormed(t) && s.lastSeen <= t.lastSeen
      && t.instance == s.instance && t.id == s.id && t.binding == s.binding && t.limits == s.limits
      && t.absoluteDeadline == s.absoluteDeadline
      && r != Err(TimeOverflow)
      && (r == Err(CounterExhausted) ==> cmd.BeginOperation? && s.opSeq == U64_MAX)
      && (r.Err? ==> t == s || t == Step(s, call, Observe).0)
  {
    EnterKeeps(s, call);
    var (t, e) := Enter(s, call);
    if e.None? {
      ApplyKeeps(t, call.at, cmd);
    }
  }

  /** A granted renewal moves the deadline strictly, within the request, the maximum extension and the
      absolute deadline. */
  lemma RenewalIsBounded(s: Lease, call: Call, expected: nat, requested: nat)
    requires WellFormed(s) && 0 < requested <= U64_MAX
    requires Step(s, call, Renew(expected, requested)).1.Ok?
    ensures var (t, r) := Step(s, call, Renew(expected, requested));
      && r.value.Renewed?
      && var n := r.value.renewal;
         && 0 < n.granted <= requested && n.granted <= s.limits.maxExtension
         && n.deadline == call.at + n.granted == t.deadline
         && s.deadline < t.deadline <= s.absoluteDeadline
         && expected == s.generation && n.generation == t.generation == s.generation + 1
  {
    EnterKeeps(s, call);
    var u := Enter(s, call).0;
    assert u.phase.Idle? && call.at < u.deadline;
  }

  /** No transition that was due when the lease was last seen is still outstanding. */
  predicate Settled(s: Lease) {
    DueAt(s, s.lastSeen).NothingDue?
  }

  lemma StepSettles(s: Lease, call: Call, cmd: Command)
    requires WellFormed(s) && CommandInRange(cmd) && Settled(s)
    ensures Settled(Step(s, call, cmd).0)
  {
    hide Apply, Enter, WellFormed;
    EnterKeeps(s, call);
    var (t, e) := Enter(s, call);
    if e.None? {
      ApplyKeeps(t, call.at, cmd);
      ApplySettles(t, call.at, cmd);
    }
  }

  lemma ApplySettles(s: Lease, at: nat, cmd: Command)
    requires WellFormed(s) && s.lastSeen == at && DueAt(s, at).NothingDue? && CommandInRange(cmd)
    ensures DueAt(Apply(s, at, cmd).0, at).NothingDue?
  {
  }

  // ---- handles ----

  /** The handle of an operation that nobody has finished yet. */
  predicate Outstanding(s: Lease, h: OperationHandle) {
    && h.instance == s.instance && h.generation == s.generation && h.opSeq == s.opSeq
    && (s.phase.Operating? || s.phase.Cancelling? || s.phase.Terminal? || s.phase.Expired?)
  }

  /** A handle that can no longer succeed. */
  predicate Spent(s: Lease, h: OperationHandle) {
    h.opSeq < s.opSeq || (h.opSeq == s.opSeq && !s.phase.Operating? && !s.phase.Cancelling?)
  }

  predicate AttemptSpent(s: Lease) {
    s.commitAttempted && !s.phase.CommitAttempted?
  }

  lemma BeginIssuesOutstanding(s: Lease, call: Call)
    requires WellFormed(s) && Step(s, call, BeginOperation).1.Ok?
    ensures var (t, r) := Step(s, call, BeginOperation);
      r.value.OperationBegun? && Outstanding(t, r.value.handle) && t.phase.Operating?
  {
    EnterKeeps(s, call);
  }

  /** Nothing but finishing it makes an outstanding handle stale: in particular no renewal does. */
  lemma OutstandingSurvives(s: Lease, call: Call, cmd: Command, h: OperationHandle)
    requires WellFormed(s) && CommandInRange(cmd) && Outstanding(s, h)
    ensures var (t, r) := Step(s, call, cmd);
      && (!(cmd.FinishOperation? && r == Ok(OperationEnded(Completed))) ==> Outstanding(t, h))
      && (cmd == FinishOperation(h) ==> r != Err(StaleHandle))
      && (cmd.Renew? ==> r.Err?)
  {
    hide Apply, Enter, WellFormed, Settle;
    EnterKeeps(s, call);
    var (t, e) := Enter(s, call);
    if e.None? {
      SeenKeepsForm(s, call.at);
      OutstandingSettles(s.(lastSeen := call.at), call.at, h);
      ApplyOutstanding(t, call.at, cmd, h);
    }
  }

  lemma SeenKeepsForm(s: Lease, at: nat)
    requires WellFormed(s) && s.lastSeen <= at
    ensures WellFormed(s.(lastSeen := at))
  {
  }

  lemma ApplyOutstanding(s: Lease, at: nat, cmd: Command, h: OperationHandle)
    requires Outstanding(s, h)
    ensures var (t, r) := Apply(s, at, cmd);
      && (!(cmd.FinishOperation? && r == Ok(OperationEnded(Completed))) ==> Outstanding(t, h))
      && (cmd == FinishOperation(h) ==> r != Err(StaleHandle))
      && (cmd.Renew? ==> r.Err?)
  {
  }

  lemma {:induction false} OutstandingSettles(s: Lease, now: nat, h: OperationHandle)
    requires WellFormed(s) && Outstanding(s, h)
    ensures Outstanding(Settle(s, now).0, h)
    decreases Remaining(s.phase)
  {
    match DueAt(s, now)
    case NothingDue =>
    case Overflow =>
    case DueTo(phase) =>
      SettleCompletes(s, now);
      OutstandingSettles(s.(phase := phase), now, h);
  }

  lemma SpentSurvives(s: Lease, call: Call, cmd: Command, h: OperationHandle)
    requires WellFormed(s) && CommandInRange(cmd) && Spent(s, h)
    ensures Spent(Step(s, call, cmd).0, h)
    ensures cmd == FinishOperation(h) ==> Step(s, call, cmd).1.Err?
  {
    EnterKeeps(s, call);
    if Enter(s, call).1.None? {
      SpentSettles(s.(lastSeen := call.at), call.at, h);
    }
  }

  lemma {:induction false} SpentSettles(s: Lease, now: nat, h: OperationHandle)
    requires WellFormed(s) && Spent(s, h)
    ensures Spent(Settle(s, now).0, h)
    decreases Remaining(s.phase)
  {
    match DueAt(s, now)
    case NothingDue =>
    case Overflow =>
    case DueTo(phase) =>
      SettleCompletes(s, now);
      SpentSettles(s.(phase := phase), now, h);
  }

  lemma AttemptSpentSurvives(s: Lease, call: Call, cmd: Command)
    requires WellFormed(s) && CommandInRange(cmd)
    ensures AttemptSpent(s) ==> AttemptSpent(Step(s, call, cmd).0) && !(cmd.FinishCommit? && Step(s, call, cmd).1.Ok?)
    ensures s.commitAttempted ==>
        Step(s, call, cmd).0.commitAttempted && !(cmd.BeginCommit? && Step(s, call, cmd).1.Ok?)
    ensures s.commitAttempted ==> Step(s, call, cmd).0.commitKey == s.commitKey
    ensures cmd.FinishCommit? && Step(s, call, cmd).1.Ok? ==> AttemptSpent(Step(s, call, cmd).0)
    ensures cmd.BeginCommit? && Step(s, call, cmd).1.Ok? ==> Step(s, call, cmd).0.commitAttempted
  {
    EnterKeeps(s, call);
    if Enter(s, call).1.None? {
      AttemptSettles(s.(lastSeen := call.at), call.at);
    }
  }

  lemma {:induction false} AttemptSettles(s: Lease, now: nat)
    requires WellFormed(s)
    ensures s.commitAttempted && !s.phase.CommitAttempted? ==> !Settle(s, now).0.phase.CommitAttempted?
    ensures s.commitAttempted ==> !Settle(s, now).0.phase.Idle?
    decreases Remaining(s.phase)
  {
    match DueAt(s, now)
    case NothingDue =>
    case Overflow =>
    case DueTo(phase) =>
      SettleCompletes(s, now);
      AttemptSettles(s.(phase := phase), now);
  }

  // ---- runs ----

  datatype Event = Event(call: Call, cmd: Command)

  ghost predicate IsRun(ss: seq<Lease>, evs: seq<Event>) {
    && |ss| == |evs| + 1
    && WellFormed(ss[0])
    && forall i :: 0 <= i < |evs| ==> CommandInRange(evs[i].cmd) && ss[i + 1] == Step(ss[i], evs[i].call, evs[i].cmd).0
  }

  predicate Succeeds(s: Lease, ev: Event) {
    Step(s, ev.call, ev.cmd).1.Ok?
  }

  lemma {:induction false} RunWellFormed(ss: seq<Lease>, evs: seq<Event>, i: nat)
    requires IsRun(ss, evs) && i < |ss|
    ensures WellFormed(ss[i])
  {
    if i > 0 {
      RunWellFormed(ss, evs, i - 1);
      StepKeeps(ss[i - 1], evs[i - 1].call, evs[i - 1].cmd);
    }
  }

  /** In every run, a lease last seen at or after its last moment is terminal, and expired one
      retention later, whatever was called on it. */
  lemma {:induction false} RunLifetime(ss: seq<Lease>, evs: seq<Event>, i: nat)
    requires IsRun(ss, evs) && i < |ss| && Settled(ss[0])
    ensures WellFormed(ss[i]) && Settled(ss[i])
    ensures ss[i].lastSeen >= LastMoment(ss[i]) ==> ss[i].phase.Terminal? || ss[i].phase.Expired?
    ensures ss[i].lastSeen >= LastMoment(ss[i]) + ss[i].limits.retention ==> ss[i].phase.Expired?
  {
    RunWellFormed(ss, evs, i);
    if i > 0 {
      RunLifetime(ss, evs, i - 1);
      StepSettles(ss[i - 1], evs[i - 1].call, evs[i - 1].cmd);
    }
    BoundedLifetime(ss[i], ss[i].lastSeen);
  }

  lemma {:induction false} SpentForever(ss: seq<Lease>, evs: seq<Event>, h: OperationHandle, i: nat, j: nat)
    requires IsRun(ss, evs) && i <= j < |ss| && Spent(ss[i], h)
    ensures Spent(ss[j], h)
    decreases j
  {
    if i < j {
      SpentForever(ss, evs, h, i, j - 1);
      RunWellFormed(ss, evs, j - 1);
      SpentSurvives(ss[j - 1], evs[j - 1].call, evs[j - 1].cmd, h);
    }
  }

  lemma FinishSpends(s: Lease, call: Call, h: OperationHandle)
    requires WellFormed(s) && Step(s, call, FinishOperation(h)).1.Ok?
    ensures Spent(Step(s, call, FinishOperation(h)).0, h)
  {
    EnterKeeps(s, call);
  }

  /** In every run, an issued operation handle stays good until an operation is completed: whatever
      else is called, at whatever times, presenting it is not refused as stale. */
  lemma {:induction false} IssuedHandleStaysGood(ss: seq<Lease>, evs: seq<Event>, i: nat, j: nat)
    requires IsRun(ss, evs) && i < j < |ss|
    requires evs[i].cmd == BeginOperation && Succeeds(ss[i], evs[i])
    requires forall k :: i < k < j ==>
        !(evs[k].cmd.FinishOperation? && ReplyOf(ss[k], evs[k]) == Ok(OperationEnded(Completed)))
    ensures ReplyOf(ss[i], evs[i]).value.OperationBegun?
    ensures var h := ReplyOf(ss[i], evs[i]).value.handle;
      && Outstanding(ss[j], h)
      && forall call :: Step(ss[j], call, FinishOperation(h)).1 != Err(StaleHandle)
    decreases j
  {
    RunWellFormed(ss, evs, j - 1);
    if j == i + 1 {
      BeginIssuesOutstanding(ss[i], evs[i].call);
    } else {
      IssuedHandleStaysGood(ss, evs, i, j - 1);
      OutstandingSurvives(ss[j - 1], evs[j - 1].call, evs[j - 1].cmd, ReplyOf(ss[i], evs[i]).value.handle);
    }
    var h := ReplyOf(ss[i], evs[i]).value.handle;
    RunWellFormed(ss, evs, j);
    forall call ensures Step(ss[j], call, FinishOperation(h)).1 != Err(StaleHandle) {
      OutstandingSurvives(ss[j], call, FinishOperation(h), h);
    }
  }

  function ReplyOf(s: Lease, ev: Event): Result<Reply, LeaseError> {
    Step(s, ev.call, ev.cmd).1
  }

  /** In every run an operation handle succeeds at most once. */
  lemma HandleSucceedsOnce(ss: seq<Lease>, evs: seq<Event>, h: OperationHandle, i: nat, j: nat)
    requires IsRun(ss, evs) && i < j < |evs|
    requires evs[i].cmd == FinishOperation(h) && Succeeds(ss[i], evs[i])
    ensures !(evs[j].cmd == FinishOperation(h) && Succeeds(ss[j], evs[j]))
  {
    RunWellFormed(ss, evs, i);
    FinishSpends(ss[i], evs[i].call, h);
    SpentForever(ss, evs, h, i + 1, j);
    RunWellFormed(ss, evs, j);
    SpentSurvives(ss[j], evs[j].call, evs[j].cmd, h);
  }

  lemma {:induction false} AttemptedForever(ss: seq<Lease>, evs: seq<Event>, i: nat, j: nat)
    requires IsRun(ss, evs) && i <= j < |ss| && ss[i].commitAttempted
    ensures ss[j].commitAttempted && ss[j].commitKey == ss[i].commitKey
    ensures AttemptSpent(ss[i]) ==> AttemptSpent(ss[j])
    decreases j
  {
    if i < j {
      AttemptedForever(ss, evs, i, j - 1);
      RunWellFormed(ss, evs, j - 1);
      AttemptSpentSurvives(ss[j - 1], evs[j - 1].call, evs[j - 1].cmd);
    }
  }

  /** In every run a lease begins at most one commit and records at most one commit result. */
  lemma CommitHappensOnce(ss: seq<Lease>, evs: seq<Event>, i: nat, j: nat)
    requires IsRun(ss, evs) && i < j < |evs|
    requires Succeeds(ss[i], evs[i]) && Succeeds(ss[j], evs[j])
    ensures !(evs[i].cmd.BeginCommit? && evs[j].cmd.BeginCommit?)
    ensures !(evs[i].cmd.FinishCommit? && evs[j].cmd.FinishCommit?)
  {
    RunWellFormed(ss, evs, i);
    AttemptSpentSurvives(ss[i], evs[i].call, evs[i].cmd);
    if ss[i + 1].commitAttempted {
      AttemptedForever(ss, evs, i + 1, j);
    }
    RunWellFormed(ss, evs, j);
    AttemptSpentSurvives(ss[j], evs[j].call, evs[j].cmd);
  }

  // ---- durable truth and restart ----

  /** What happened to the lease's commit outside this model. */
  datatype Truth = CommittedDurably | NeverCommitted

  predicate ResultAgrees(result: CommitResult, truth: Truth) {
    match result
    case ResultCommitted => truth.CommittedDurably?
    case ResultNotCommitted => truth.NeverCommitted?
    case ResultIndeterminate => true
  }

  predicate LookupAgrees(found: ExternalOutcome, truth: Truth) {
    match found
    case FoundCommitted => truth.CommittedDurably?
    case FoundAbsent => truth.NeverCommitted?
    case FoundIndeterminate => true
  }

  predicate CommandAgrees(cmd: Command, truth: Truth) {
    && (cmd.FinishCommit? ==> ResultAgrees(cmd.result, truth))
    && (cmd.Resolve? ==> LookupAgrees(cmd.external, truth))
  }

  predicate OutcomeAgrees(o: Outcome, truth: Truth) {
    && (o.Committed? ==> truth.CommittedDurably?)
    && (o.CommitProvenAbsent? ==> truth.NeverCommitted?)
  }

  predicate RecordsTruth(s: Lease, truth: Truth) {
    s.phase.Terminal? ==> OutcomeAgrees(s.phase.outcome, truth)
  }

  lemma {:induction false} TruthSettles(s: Lease, now: nat, truth: Truth)
    requires WellFormed(s) && RecordsTruth(s, truth)
    ensures RecordsTruth(Settle(s, now).0, truth)
    decreases Remaining(s.phase)
  {
    match DueAt(s, now)
    case NothingDue =>
    case Overflow =>
    case DueTo(phase) =>
      SettleCompletes(s, now);
      TruthSettles(s.(phase := phase), now, truth);
  }

  lemma StepRecordsTruth(s: Lease, call: Call, cmd: Command, truth: Truth)
    requires WellFormed(s) && CommandInRange(cmd) && RecordsTruth(s, truth) && CommandAgrees(cmd, truth)
    ensures RecordsTruth(Step(s, call, cmd).0, truth)
    ensures Step(s, call, cmd).1 != Err(ConflictingResolution)
  {
    EnterKeeps(s, call);
    if Enter(s, call).1.None? {
      TruthSettles(s.(lastSeen := call.at), call.at, truth);
    }
  }

  lemma {:induction false} RunRecordsTruth(ss: seq<Lease>, evs: seq<Event>, truth: Truth, i: nat)
    requires IsRun(ss, evs) && i < |ss| && ss[0].phase.Idle?
    requires forall k :: 0 <= k < |evs| ==> CommandAgrees(evs[k].cmd, truth)
    ensures WellFormed(ss[i]) && RecordsTruth(ss[i], truth)
  {
    RunWellFormed(ss, evs, i);
    if i > 0 {
      RunRecordsTruth(ss, evs, truth, i - 1);
      StepRecordsTruth(ss[i - 1], evs[i - 1].call, evs[i - 1].cmd, truth);
    }
  }

  predicate ClassAgrees(c: RestartClass, truth: Truth) {
    match c
    case StagedDiscarded => truth.NeverCommitted?
    case RestartCommitted => truth.CommittedDurably?
    case RestartProvenAbsent => truth.NeverCommitted?
    case RestartIndeterminate => true
  }

  /** Nothing becomes durable before step `i` except through a commit that was begun. */
  ghost predicate CommitFollowsAttempt(ss: seq<Lease>, evs: seq<Event>, truth: Truth, i: nat)
    requires i < |ss| == |evs| + 1
  {
    truth.CommittedDurably? ==> exists k :: 0 <= k < i && evs[k].cmd.BeginCommit? && Succeeds(ss[k], evs[k])
  }

  /** Restart soundness: if all reports and lookups agree with one durable truth, then restarting at
      any point of any run classifies the lease in agreement with it, never calls an attempted commit
      discarded, and never finds a contradiction where a commit was attempted. Discarding is sound too,
      as long as nothing was committed without being attempted. */
  lemma RestartIsSound(ss: seq<Lease>, evs: seq<Event>, truth: Truth, i: nat, lookup: Option<ExternalOutcome>)
    requires IsRun(ss, evs) && i < |ss| && ss[0].phase.Idle?
    requires forall k :: 0 <= k < |evs| ==> CommandAgrees(evs[k].cmd, truth)
    requires lookup.Some? ==> LookupAgrees(lookup.value, truth)
    ensures var record := Restart(ss[i]);
      var c := Classify(record, lookup);
      && (record.commitKey.Some? <==> record.attempted.Some?)
      && (ss[i].commitAttempted ==> c.Ok? && c.value != StagedDiscarded && ClassAgrees(c.value, truth))
      && (!ss[i].commitAttempted ==> c == if lookup.None? then Ok(StagedDiscarded) else Err(RestartContradiction))
      && (CommitFollowsAttempt(ss, evs, truth, i) && c.Ok? ==> ClassAgrees(c.value, truth))
  {
    RunRecordsTruth(ss, evs, truth, i);
    if CommitFollowsAttempt(ss, evs, truth, i) && truth.CommittedDurably? {
      var k :| 0 <= k < i && evs[k].cmd.BeginCommit? && Succeeds(ss[k], evs[k]);
      RunWellFormed(ss, evs, k);
      AttemptSpentSurvives(ss[k], evs[k].call, evs[k].cmd);
      AttemptedForever(ss, evs, k + 1, i);
    }
  }

  predicate Definite(o: Outcome) {
    !o.CommitIndeterminate?
  }

  /** A definite outcome never flips; it can only pass into expiry, which remembers the attempt. */
  lemma DefiniteNeverFlips(s: Lease, call: Call, cmd: Command)
    requires WellFormed(s) && CommandInRange(cmd) && s.phase.Terminal? && Definite(s.phase.outcome)
    ensures var t := Step(s, call, cmd).0;
      t.phase == s.phase || t.phase == Expired(s.phase.outcome.IsCommitAttempt())
  {
    EnterKeeps(s, call);
    var (t, e) := Enter(s, call);
    if e.None? {
      assert t.phase == s.phase || t.phase == Expired(s.phase.outcome.IsCommitAttempt()) by {
        var s1 := s.(lastSeen := call.at);
        assert Settle(s1, call.at).0 == s1
            || Settle(s1, call.at).0 == s1.(phase := Expired(s.phase.outcome.IsCommitAttempt()));
      }
    }
  }

  lemma {:induction false} DefiniteForever(ss: seq<Lease>, evs: seq<Event>, i: nat, j: nat)
    requires IsRun(ss, evs) && i <= j < |ss| && ss[i].phase.Terminal? && Definite(ss[i].phase.outcome)
    ensures ss[j].phase == ss[i].phase || ss[j].phase == Expired(ss[i].phase.outcome.IsCommitAttempt())
    decreases j
  {
    if i < j {
      DefiniteForever(ss, evs, i, j - 1);
      RunWellFormed(ss, evs, j - 1);
      if ss[j - 1].phase.Terminal? {
        DefiniteNeverFlips(ss[j - 1], evs[j - 1].call, evs[j - 1].cmd);
      } else {
        EnterKeeps(ss[j - 1], evs[j - 1].call);
      }
    }
  }
}

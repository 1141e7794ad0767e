/** What a repository does for its callers: which work it admits over a run, and that every begun
    transition can be completed as documented. */
module RepositoryRuns {
  import opened Common
  import opened Repositories

  // ---- work ----

  predicate Fits(kind: WorkKind, mode: OpenMode) {
    kind.Read? || mode.ReadWrite?
  }

  /** Step `j` opened the repository with a passed validation in this mode, and it has been in the state
      that this gave it ever since. */
  ghost predicate OpenSince(rs: seq<Repository>, evs: seq<Event>, j: nat, i: nat, mode: OpenMode)
    requires |rs| == |evs| + 1 && i < |rs|
  {
    && j < i && Succeeds(rs[j], evs[j]) && evs[j].cmd.CompleteOpen? && evs[j].cmd.validation.ValidationPassed?
    && rs[j].pendingOpen == Some(mode)
    && forall m :: j < m <= i ==> rs[m].state == rs[j + 1].state
  }

  ghost predicate OpenedFor(rs: seq<Repository>, evs: seq<Event>, i: nat, kind: WorkKind)
    requires |rs| == |evs| + 1 && i < |rs|
  {
    exists j: nat, mode :: OpenSince(rs, evs, j, i, mode) && Fits(kind, mode)
  }

  lemma OpeningMakesReady(r: Repository, ev: Event)
    requires WellFormed(r) && Succeeds(r, ev) && ev.cmd.CompleteOpen? && ev.cmd.validation.ValidationPassed?
    ensures r.pendingOpen.Some?
    ensures Step(r, ev.at, ev.cmd).0.state == if r.pendingOpen == Some(ReadWrite) then ReadyReadWrite else ReadyReadOnly
  {
  }

  /** What a single call admits, by the mode the repository is ready in. */
  lemma AdmitsByMode(r: Repository, at: nat, kind: WorkKind)
    requires WellFormed(r)
    ensures var (t, reply) := Step(r, at, Admit(kind));
      && (reply == Ok(WorkAdmitted) <==>
            r.lastSeen <= at && Ready(r.state) && Fits(kind, if r.state.ReadyReadWrite? then ReadWrite else ReadOnly))
      && (reply.Ok? ==> reply == Ok(WorkAdmitted) && t == r.(lastSeen := at))
      && (reply.Err? && r.lastSeen <= at ==>
            reply.error == if r.retired then AlreadyRetired
                           else if r.state.Quiescing? then QuiescingRepository
                           else if Ready(r.state) then ReadOnlyRepository
                           else NotReady)
  {
  }

  /** In every run, work is admitted exactly while the repository is still open from a passed opening
      validation, and writing only if that opening was for writing. */
  lemma WorkIffOpened(rs: seq<Repository>, evs: seq<Event>, i: nat, at: nat, kind: WorkKind)
    requires IsRun(rs, evs) && i < |rs| && rs[0].state.Provisioning?
    ensures Step(rs[i], at, Admit(kind)).1 == Ok(WorkAdmitted) <==>
        rs[i].lastSeen <= at && OpenedFor(rs, evs, i, kind)
  {
    hide Step, WellFormed, Succeeds;
    GenerationCounts(rs, evs, i);
    AdmitsByMode(rs[i], at, kind);
    if Ready(rs[i].state) {
      var j := OpenWhileReady(rs, evs, i);
    }
    if OpenedFor(rs, evs, i, kind) {
      var j: nat, mode :| OpenSince(rs, evs, j, i, mode) && Fits(kind, mode);
      GenerationCounts(rs, evs, j);
      OpeningMakesReady(rs[j], evs[j]);
    }
  }

  lemma OpenWhileReady(rs: seq<Repository>, evs: seq<Event>, i: nat) returns (j: nat)
    requires IsRun(rs, evs) && i < |rs| && rs[0].state.Provisioning? && Ready(rs[i].state)
    ensures OpenSince(rs, evs, j, i, if rs[i].state.ReadyReadWrite? then ReadWrite else ReadOnly)
  {
    hide Step, WellFormed;
    var k;
    j, k := ReadyMeansValidated(rs, evs, i);
  }

  /** From an accepted quiesce on, nothing is admitted before the next opening passes. */
  lemma NoWorkSinceQuiesce(rs: seq<Repository>, evs: seq<Event>, i: nat, j: nat, at: nat, kind: WorkKind)
    requires IsRun(rs, evs) && i < j < |rs| && rs[0].state.Provisioning?
    requires evs[i].cmd.BeginQuiesce? && Succeeds(rs[i], evs[i])
    requires forall m :: i < m < j ==> !(evs[m].cmd.CompleteOpen? && Succeeds(rs[m], evs[m]))
    ensures Step(rs[j], at, Admit(kind)).1.Err?
  {
    hide Step, WellFormed, Succeeds;
    GenerationCounts(rs, evs, i);
    GenerationCounts(rs, evs, j);
    AdmitsByMode(rs[j], at, kind);
    if Ready(rs[j].state) {
      var k := OpenWhileReady(rs, evs, j);
      QuiesceEndsReadiness(rs[i], evs[i]);
      assert rs[i + 1].state != rs[j].state;
    }
  }

  lemma QuiesceEndsReadiness(r: Repository, ev: Event)
    requires WellFormed(r) && ev.cmd.BeginQuiesce? && Succeeds(r, ev)
    ensures Step(r, ev.at, ev.cmd).0.state.Quiescing?
  {
  }

  // ---- transitions ----

  /** The documented lifecycle. */
  const DIAGRAM: set<(State, State)> :=
    { (Provisioning, Closed), (Provisioning, Failed),
      (Closed, Opening), (Opening, ReadyReadWrite), (Opening, ReadyReadOnly), (Opening, Failed),
      (Closed, Quiescing), (ReadyReadWrite, Quiescing), (ReadyReadOnly, Quiescing),
      (Quiescing, Closed), (Quiescing, Tombstoned),
      (Tombstoned, Closed), (Tombstoned, Deleting),
      (Failed, Deleting), (Deleting, Deleting), (Deleting, Failed) }

  /** Every accepted transition is an edge of the diagram. */
  lemma TransitionsFollowDiagram(r: Repository, at: nat, cmd: Command)
    requires WellFormed(r) && !cmd.Admit? && Step(r, at, cmd).1.Ok?
    ensures (r.state, Step(r, at, cmd).0.state) in DIAGRAM
  {
  }

  /** A live repository with room for `n` more generations. */
  predicate Live(r: Repository, at: nat, n: nat) {
    WellFormed(r) && !r.retired && r.lastSeen <= at && r.generation + n <= r.limits.maxGeneration
  }

  /** Provisioning ends with its validation. */
  lemma ProvisioningCompletes(r: Repository, at: nat, v: ValidationOutcome)
    requires Live(r, at, 1) && r.state.Provisioning?
    ensures var (t, reply) := Step(r, at, CompleteProvisioning(Issue(r), v));
      reply == Ok(NowIn(t.state)) && t == Commit(r, at, if v.ValidationPassed? then Closed else Failed)
  {
  }

  /** Opening a closed repository and completing it with the handle that was issued. */
  lemma OpenRoundTrip(r: Repository, t1: nat, t2: nat, mode: OpenMode, v: ValidationOutcome)
    requires Live(r, t1, 2) && r.state.Closed? && t1 <= t2
    ensures var (u, begun) := Step(r, t1, BeginOpen(r.generation, mode));
      && begun.Ok? && begun.value.Issued? && u.state.Opening?
      && var (t, reply) := Step(u, t2, CompleteOpen(begun.value.handle, v));
         && reply == Ok(NowIn(t.state))
         && t == r.(generation := r.generation + 2, lastSeen := t2,
                    state := if v.ValidationFailed? then Failed
                             else if mode.ReadWrite? then ReadyReadWrite else ReadyReadOnly)
  {
  }

  /** Quiescing and completing it: only a confirmed drain completes, and a refused attempt can be
      repeated with the same handle. */
  lemma QuiesceRoundTrip(r: Repository, t1: nat, t2: nat, drain: DrainConfirmation, target: QuiesceTarget)
    requires Live(r, t1, 2) && (r.state.Closed? || Ready(r.state)) && t1 <= t2
    ensures var (u, begun) := Step(r, t1, BeginQuiesce(r.generation));
      && begun.Ok? && begun.value.Issued? && u.state.Quiescing?
      && var (t, reply) := Step(u, t2, CompleteQuiesce(begun.value.handle, drain, target));
         if !(drain.workDrained && drain.noActiveLeases) then (t, reply) == (u, Err(NotDrained))
         else if target.ToClosed? then
           reply == Ok(NowIn(Closed)) && t == r.(generation := r.generation + 2, lastSeen := t2, state := Closed)
         else if t2 + r.limits.retention > U64_MAX then (t, reply) == (u, Err(TimeOverflow))
         else
           && reply == Ok(NowIn(Tombstoned))
           && t == r.(generation := r.generation + 2, lastSeen := t2, state := Tombstoned,
                      tombstoneDeadline := Some(t2 + r.limits.retention))
  {
  }

  /** A tombstone is restored with its reference on record until its deadline, and purged from it on. */
  lemma TombstoneEnds(r: Repository, at: nat, reference: Reference)
    requires Live(r, at, 1) && r.state.Tombstoned?
    ensures var early := at < r.tombstoneDeadline.value;
      && Step(r, at, Restore(r.generation, reference)) ==
           (if early then (Commit(r, at, Closed).(recoveryReference := Some(reference)), Ok(NowIn(Closed)))
            else (r, Err(RetentionExpired)))
      && Step(r, at, BeginPurge(r.generation, reference)) ==
           (if early then (r, Err(RetentionActive))
            else (Commit(r, at, Deleting).(purgeReference := Some(reference)),
                  Ok(Issued(Handle(r.instance, r.generation + 1)))))
  {
  }

  /** Purging a failed repository retires it for good, or leaves it failed, to be purged again. */
  lemma PurgeRoundTrip(r: Repository, t1: nat, t2: nat, reference: Reference, d: DeletionOutcome)
    requires Live(r, t1, 2) && r.state.Failed? && t1 <= t2
    ensures var (u, begun) := Step(r, t1, BeginPurge(r.generation, reference));
      && begun.Ok? && begun.value.Issued? && u.state.Deleting? && !u.retired
      && var (t, reply) := Step(u, t2, CompletePurge(begun.value.handle, d));
         && reply == Ok(NowIn(t.state)) && t.purgeReference == Some(reference)
         && t.retired == d.Deleted? && t.state == (if d.Deleted? then Deleting else Failed)
  {
  }

  /** A call with another generation or another handle is refused before anything else is looked at. */
  lemma StaleIsRefused(r: Repository, at: nat, cmd: Command)
    requires WellFormed(r) && r.lastSeen <= at && !cmd.Admit?
    requires if HandleOf(cmd).Some? then HandleOf(cmd).value != Issue(r) else ExpectedOf(cmd) != r.generation
    ensures Step(r, at, cmd) == (r, Err(if HandleOf(cmd).Some? then StaleHandle else StaleGeneration))
  {
  }

  function ExpectedOf(cmd: Command): nat
    requires HandleOf(cmd).None? && !cmd.Admit?
  {
    match cmd
    case BeginOpen(expected, _) => expected
    case BeginQuiesce(expected) => expected
    case Restore(expected, _) => expected
    case BeginPurge(expected, _) => expected
  }
}

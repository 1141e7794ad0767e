/** The repository manager as the source keeps it: mutable memory over a disk, every operation a
    sequence of moves. At every point where the source can fail or be interrupted the method may take
    that exit, chosen freely by the environment; `calm` says that it does not. Whatever happens, what
    has happened so far is a run of the protocol. */
module CatalogManager {
  import opened Common
  import Repositories
  import opened Catalogs
  import opened CatalogRuns

  /** How an operation ends: interrupted by a crash, or with the caller's result. */
  datatype Ending<+T> = Crashed | Finished(result: Result<T, CatalogError>) {
    predicate Succeeded() {
      Finished? && result.Ok?
    }

    predicate Refused() {
      Finished? && result.Err?
    }
  }

  datatype Receipt = Receipt(id: string, uuid: Uuid, phase: Phase, generation: nat, catalogGeneration: nat)

  /** The phase in which a calm reopening leaves an entry. */
  function Reconciled(e: Entry, site: Site): Phase {
    match e.phase
    case Reserved => Failed
    case Validated => if Located(site, e.evidence) then Closed else Failed
    case Quiescing =>
      if site.staged.Some? || MatchesEvidence(site.published, e.evidence, NoTrouble) == Ok(false) then Failed
          else Quiescing
    case Closed => Closed
    case Failed => Failed
  }

  /** Entries by external id. */
  function PositionOf(entries: seq<Entry>, id: string): (r: Option<nat>)
    ensures r.Some? ==> r.value < |entries| && entries[r.value].id == id
    ensures r.None? ==> forall i :: 0 <= i < |entries| ==> entries[i].id != id
  {
    if entries == [] then None
    else if entries[0].id == id then Some(0)
    else
      match PositionOf(entries[1..], id)
      case None => None
      case Some(i) => Some(i + 1)
  }

  /** What can refuse a journal change before anything is written: the scan of the root, the counter, or
      the encoding. */
  predicate BeforeWriting(e: CatalogError) {
    e.LimitReached? || e.UnsafePath? || e.IoFailure? || e.InvalidCatalog?
  }

  predicate SameMemory(before: World, after: World) {
    Usable(after) && after.mem == before.mem
  }

  /** Nothing stands at either place of a repository. */
  predicate Free(site: Site) {
    site.staged.None? && site.published.None?
  }

  /** Something to rename, and nothing in its way. */
  predicate Publishable(site: Site) {
    site.staged.Some? && site.published.None?
  }

  /** The published directory is the recorded one. */
  predicate Intact(disk: Disk, e: Entry) {
    var published := SiteOf(disk, e.uuid).published;
    published.Some? && EvidenceOf(published.value) == e.evidence
  }

  class Manager {
    var disk: Disk
    var alive: bool
    var catalog: Catalog
    var active: map<Uuid, bool>
    var poisoned: bool
    ghost var creating: Option<nat>
    ghost var loaded: nat
    ghost var history: seq<World>
    ghost var moves: seq<Move>

    ghost function View(): World
      reads this
    {
      World(disk, if alive then Some(Memory(catalog, active, poisoned, creating, loaded)) else None)
    }

    ghost predicate Valid()
      reads this
    {
      IsRunFromFresh(history, moves) && View() == history[|history| - 1]
    }

    /** The run so far has only been continued, and only by the manager's own moves. */
    twostate predicate Continues()
      reads this
    {
      old(history) <= history && (Undisturbed(old(moves)) ==> Undisturbed(moves))
    }

    constructor (limits: ManagerLimits)
      requires ValidLimits(limits)
      ensures Valid() && !alive && View() == Fresh(limits) && moves == []
    {
      disk := Disk(Catalog(1, limits, []), [], map[]);
      catalog := Catalog(1, limits, []);
      alive, poisoned, active, creating, loaded := false, false, map[], None, 0;
      history, moves := [Fresh(limits)], [];
    }

    /** The first start on an empty root. The initial catalog write can be refused, or end with its
        outcome unknown; either way there is then no catalog, and the next start tries again, or the
        empty one at generation one. */
    static method Initialize(limits: ManagerLimits, calm: bool) returns (r: Ending<()>, root: Manager?)
      ensures root != null ==> fresh(root) && root.Valid() && root.disk == Fresh(limits).disk && Undisturbed(root.moves)
      ensures r.Succeeded() ==> root != null && root.alive && !root.poisoned && root.active == map[]
      ensures r.Refused() && root != null ==> ValidLimits(limits)
      ensures calm ==> (r.Succeeded() <==> ValidLimits(limits))
    {
      if !ValidLimits(limits) {
        return Finished(Err(LimitReached)), null;
      }
      var fate: Fate := *;
      if calm {
        fate := Written;
      }
      match fate
      case Refused =>
        var refusal: CatalogError := *;
        return Finished(Err(if BeforeWriting(refusal) then refusal else LimitReached)), null;
      case Uncertain(landing) =>
        var dies := *;
        r := if dies then Crashed else Finished(Err(IoFailure));
        if landing.NotRenamed? {
          return r, null;
        }
        root := new Manager(limits);
      case Written =>
        root := new Manager(limits);
        root.Start();
        r := Finished(Ok(()));
    }

    /** Memory is the durable catalog, with no handles. */
    method Start()
      requires Valid() && !alive
      modifies this
      ensures Valid() && Continues() && alive && View() == Step(old(View()), Boot)
    {
      catalog, active, poisoned, alive := disk.catalog, map[], false, true;
      creating, loaded := None, disk.catalog.generation;
      Record(Boot);
    }

    ghost method Record(move: Move)
      requires IsRunFromFresh(history, moves)
      requires Enabled(history[|history| - 1], move) && View() == Step(history[|history| - 1], move)
      modifies this`history, this`moves
      ensures Valid() && old(history) <= history
      ensures Undisturbed(old(moves)) && !move.Tamper? ==> Undisturbed(moves)
    {
      RunExtends(history, moves, move, View());
      history, moves := history + [View()], moves + [move];
    }

    lemma Facts()
      requires Valid()
      ensures Inv(View())
      ensures Undisturbed(moves) ==> FilesOk(View())
    {
      FreshInv(history[0].disk.catalog.limits);
      RunKeepsInv(history, moves, |history| - 1);
      if Undisturbed(moves) {
        CrashSafety(history, moves, |history| - 1);
      }
    }

    /** Something outside the manager changes a repository's directories. */
    method Interfere(u: Uuid, site: Site)
      requires Valid()
      modifies this
      ensures Valid() && old(history) <= history && View() == Step(old(View()), Tamper(u, site))
    {
      disk := disk.(sites := disk.sites[u := site]);
      Record(Tamper(u, site));
    }

    // ---- interruptions ----

    /** The process may die here; renames that no sync has followed may be undone. */
    method MaybeCrash(calm: bool) returns (crashed: bool)
      requires Valid() && alive
      modifies this
      ensures Valid() && Continues()
      ensures crashed ==> !alive && !calm
      ensures !crashed ==> View() == old(View()) && alive
    {
      crashed := *;
      if calm || !crashed {
        return false;
      }
      var undone: set<Uuid> := *;
      undone := set u | u in undone && u in disk.sites && Endangered(disk.sites[u]);
      var back: Option<nat> := *;
      if back.Some? && back.value >= |disk.older| {
        back := None;
      }
      disk := Recovered(disk.(sites := UndoAll(disk.sites, undone)), back);
      alive := false;
      Record(Crash(undone, back));
    }

    /** A fault point: the hook may refuse, which poisons the manager, or the process may die. */
    method Hook(calm: bool) returns (r: Ending<()>)
      requires Valid() && alive
      modifies this
      ensures Valid() && Continues()
      ensures r.Crashed? ==> !alive && !calm
      ensures r.Succeeded() ==> View() == old(View()) && alive
      ensures r.Refused() ==>
          alive && poisoned && !calm && disk == old(disk) && catalog == old(catalog) && active == old(active)
              && creating == old(creating)
    {
      var crashed := MaybeCrash(calm);
      if crashed {
        return Crashed;
      }
      var refuse := *;
      if !calm && refuse {
        poisoned := true;
        Record(Poison);
        return Finished(Err(Injected));
      }
      return Finished(Ok(()));
    }

    /** `persist`: journals one change. An uncertain write poisons the manager. */
    method Persist(index: nat, change: Change, calm: bool) returns (r: Ending<()>)
      requires Valid() && alive && !poisoned && Warranted(View(), index, change)
      modifies this
      ensures Valid() && Continues()
      ensures r.Crashed? ==> !alive && !calm
      ensures r.Succeeded() ==>
        && alive && !poisoned && disk == Replaced(old(disk), Changed(old(catalog), index, change), Durable)
        && catalog == disk.catalog && active == FenceIfQuiescing(old(View()).mem.value, index, change)
        && creating == (if change.Reserve? then Some(index) else None) && old(catalog).generation < U64_MAX
      ensures r.Refused() ==>
        && alive
        && BeforeWriting(r.result.error) && (!poisoned ==> View() == old(View()))
        && (poisoned ==>
              && disk.sites == old(disk).sites && catalog == old(catalog)
              && active == FenceIfQuiescing(old(View()).mem.value, index, change))
      ensures calm && old(catalog).generation < U64_MAX ==> r.Succeeded()
      ensures calm ==> r.Finished? && !poisoned
    {
      hide IsRunFromFresh, Undisturbed, MatchesEvidence, Located, EvidenceOf, SiteOf;
      var fate: Fate := *;
      if calm {
        fate := Written;
      }
      if fate.Refused? {
        var refusal: CatalogError := *;
        return Finished(Err(if BeforeWriting(refusal) then refusal else LimitReached));
      }
      if catalog.generation >= U64_MAX {
        return Finished(Err(LimitReached));
      }
      match fate
      case Written =>
        WriteCompletely(index, change);
        return Finished(Ok(()));
      case Uncertain(landing) => r := WriteUncertainly(index, change, landing, calm);
    }

    /** The write and its syncs go through. */
    method WriteCompletely(index: nat, change: Change)
      requires Valid() && alive && !poisoned && Warranted(View(), index, change) && catalog.generation < U64_MAX
      modifies this
      ensures Valid() && Continues() && View() == Step(old(View()), Write(index, change, Written))
    {
      hide IsRunFromFresh, Undisturbed, MatchesEvidence, Located, EvidenceOf, SiteOf;
      var next := Changed(catalog, index, change);
      active := FenceIfQuiescing(Memory(catalog, active, false, None, 0), index, change);
      disk, catalog := Replaced(disk, next, Durable), next;
      creating := if change.Reserve? then Some(index) else None;
      Record(Write(index, change, Written));
    }

    /** The write reports an error, whatever it has done, or the process dies in it. */
    method WriteUncertainly(index: nat, change: Change, landing: Landing, calm: bool) returns (r: Ending<()>)
      requires Valid() && alive && !poisoned && Warranted(View(), index, change) && catalog.generation < U64_MAX
          && !calm
      modifies this
      ensures Valid() && Continues()
      ensures r.Crashed? ==> !alive
      ensures r.Finished? ==>
        && r.result == Err(IoFailure) && alive && View() == Step(old(View()), Write(index, change, Uncertain(landing)))
    {
      hide IsRunFromFresh, Undisturbed, MatchesEvidence, Located, EvidenceOf, SiteOf;
      disk := Replaced(disk, Changed(catalog, index, change), landing);
      active := FenceIfQuiescing(Memory(catalog, active, false, None, 0), index, change);
      poisoned := true;
      Record(Write(index, change, Uncertain(landing)));
      var crashed := MaybeCrash(calm);
      return if crashed then Crashed else Finished(Err(IoFailure));
    }

    // ---- creation ----

    /** Staging: refused if a directory stands there; one may be left behind by a failed call. */
    method CreateStaging(index: nat, dir: Dir, calm: bool) returns (r: Ending<()>)
      requires Valid() && Building(View(), index)
      modifies this
      ensures Valid() && Continues()
      ensures r.Crashed? ==> !alive && !calm
      ensures r.Finished? ==>
          alive && SameMemory(old(View()), View()) && disk.older == old(disk).older && disk.catalog == old(disk).catalog
      ensures r.Refused() ==> r.result.error.IoFailure?
      ensures r.Refused() ==> !calm || SiteOf(old(disk), catalog.entries[index].uuid).staged.Some?
      ensures r.Succeeded() ==>
        var before := SiteOf(old(disk), catalog.entries[index].uuid);
        before.staged.None? && SiteOf(disk, catalog.entries[index].uuid) == before.(staged := Some(dir))
    {
      var u := catalog.entries[index].uuid;
      if SiteOf(disk, u).staged.Some? {
        return Finished(Err(IoFailure));
      }
      var fails := *;
      var made := *;
      if !calm && fails && !made {
        return Finished(Err(IoFailure));
      }
      disk := disk.(sites := disk.sites[u := SiteOf(disk, u).(staged := Some(dir))]);
      Record(MakeStaging(index, dir));
      var crashed := MaybeCrash(calm);
      if crashed {
        return Crashed;
      }
      return if !calm && fails then Finished(Err(IoFailure)) else Finished(Ok(()));
    }

    /** Opens, validates, flushes and syncs the staged store, then verifies it from outside. */
    method BuildStore(index: nat, format: string, calm: bool) returns (r: Ending<Evidence>)
      requires Valid() && Building(View(), index)
      requires SiteOf(disk, catalog.entries[index].uuid).staged.Some?
      modifies this
      ensures Valid() && Continues()
      ensures r.Crashed? ==> !alive && !calm
      ensures r.Finished? ==> alive && catalog == old(catalog) && active == old(active) && creating == old(creating)
      ensures r.Refused() ==> !calm
      ensures r.Succeeded() ==>
        && !poisoned
        && var s := SiteOf(disk, catalog.entries[index].uuid);
           && s.staged.Some? && EvidenceOf(s.staged.value) == Some(r.result.value)
           && s.published == SiteOf(old(disk), catalog.entries[index].uuid).published
    {
      var health: Health := *;
      if calm {
        health := Sound(format);
      }
      var u := catalog.entries[index].uuid;
      var s := SiteOf(disk, u);
      disk := disk.(sites := disk.sites[u := s.(staged := Some(s.staged.value.(health := health)))]);
      Record(FillStore(index, health));
      var fails := *;
      if !calm && fails {
        return Finished(Err(StorageFailure));
      }
      var flushed := Hook(calm);
      if flushed.Crashed? {
        return Crashed;
      }
      if flushed.result.Err? {
        return Finished(Err(flushed.result.error));
      }
      var trouble: Trouble := *;
      if calm || trouble.AtExists? {
        trouble := NoTrouble;
      }
      return Finished(Verified(SiteOf(disk, u).staged.value, trouble));
    }

    /** Rename, then sync of both parents; refused if there is nothing to rename or something stands at
        the target; it can fail before, between and after. */
    method Publish(index: nat, calm: bool) returns (r: Ending<()>)
      requires Valid() && HasEntry(View(), index, Validated)
      modifies this
      ensures Valid() && Continues()
      ensures r.Crashed? ==> !alive && !calm
      ensures r.Finished? ==> alive && SameMemory(old(View()), View()) && disk.catalog == old(disk).catalog
      ensures r.Refused() ==>
        BeforeWriting(r.result.error) && (!calm || !Publishable(SiteOf(old(disk), catalog.entries[index].uuid)))
      ensures r.Succeeded() ==>
        && Publishable(SiteOf(old(disk), catalog.entries[index].uuid))
        && SiteOf(disk, catalog.entries[index].uuid) ==
             Site(None, SiteOf(old(disk), catalog.entries[index].uuid).staged, true)
        && SitesKeptBut(old(disk), disk, catalog.entries[index].uuid)
    {
      hide IsRunFromFresh, Undisturbed;
      var u := catalog.entries[index].uuid;
      if !Publishable(SiteOf(disk, u)) {
        return Finished(Err(if SiteOf(disk, u).staged.None? then IoFailure else UnsafePath));
      }
      var before := *;
      if !calm && before {
        return Finished(Err(IoFailure));
      }
      disk := disk.(sites := disk.sites[u := Site(None, SiteOf(disk, u).staged, false)]);
      Record(Rename(index));
      var crashed := MaybeCrash(calm);
      if crashed {
        return Crashed;
      }
      var between := *;
      if !calm && between {
        return Finished(Err(IoFailure));
      }
      disk := SyncAll(disk);
      Record(SyncSites);
      return Finished(Ok(()));
    }

    /** `materialize`: staging, store, evidence, Validated, publication, Closed. */
    method Materialize(index: nat, dir: Dir, format: string, calm: bool) returns (r: Ending<()>)
      requires Valid() && Building(View(), index)
      modifies this
      ensures Valid() && Continues()
      ensures r.Crashed? ==> !alive && !calm
      ensures calm && r.Refused() ==> BeforeWriting(r.result.error)
      ensures r.Succeeded() ==> alive && !poisoned && disk.older == [] && GrewTo(old(catalog), catalog, index, Closed)
      ensures r.Refused() ==> alive
      ensures r.Refused() && !poisoned ==>
        SameOutside(old(catalog), catalog, index)
            && (catalog.entries[index].phase.Reserved? || catalog.entries[index].phase.Validated?)
      ensures calm && old(catalog).generation + 2 <= U64_MAX
              && Free(SiteOf(old(disk), old(catalog).entries[index].uuid)) ==>
        r.Succeeded()
      ensures calm && r.Refused() && !poisoned && old(catalog).generation < U64_MAX
              && catalog.entries[index].phase.Reserved? ==>
        catalog == old(catalog)
    {
      hide IsRunFromFresh, Undisturbed;
      var staged := CreateStaging(index, dir, calm);
      if staged.Crashed? {
        return Crashed;
      }
      if staged.Refused() {
        return Finished(Err(staged.result.error));
      }
      var afterStaging := Hook(calm);
      if !afterStaging.Succeeded() {
        return if afterStaging.Crashed? then Crashed else Finished(Err(afterStaging.result.error));
      }
      var built := BuildStore(index, format, calm);
      if built.Crashed? {
        return Crashed;
      }
      if built.Refused() {
        return Finished(Err(built.result.error));
      }
      r := Settle(index, built.result.value, calm);
    }

    /** The second half of `materialize`: from verified staging to a Closed entry. */
    method Settle(index: nat, found: Evidence, calm: bool) returns (r: Ending<()>)
      requires Valid() && HasEntry(View(), index, Reserved) && Warranted(View(), index, Validate(found))
      modifies this
      ensures Valid() && Continues()
      ensures r.Crashed? ==> !alive && !calm
      ensures calm && r.Refused() ==> BeforeWriting(r.result.error)
      ensures r.Succeeded() ==> alive && !poisoned && disk.older == [] && GrewTo(old(catalog), catalog, index, Closed)
      ensures r.Refused() ==> alive
      ensures r.Refused() && !poisoned ==>
        SameOutside(old(catalog), catalog, index)
            && (catalog.entries[index].phase.Reserved? || catalog.entries[index].phase.Validated?)
      ensures calm && old(catalog).generation + 2 <= U64_MAX
              && SiteOf(old(disk), old(catalog).entries[index].uuid).published.None? ==>
        r.Succeeded()
      ensures calm && r.Refused() && !poisoned && old(catalog).generation < U64_MAX
              && catalog.entries[index].phase.Reserved? ==>
        catalog == old(catalog)
    {
      hide IsRunFromFresh, Undisturbed, MatchesEvidence;
      var recorded := Persist(index, Validate(found), calm);
      if !recorded.Succeeded() {
        return if recorded.Crashed? then Crashed else Finished(Err(recorded.result.error));
      }
      r := PublishAndClose(index, calm);
    }

    /** From a Validated entry with its directory staged to a Closed one. */
    method PublishAndClose(index: nat, calm: bool) returns (r: Ending<()>)
      requires Valid() && HasEntry(View(), index, Validated)
      requires var e := catalog.entries[index];
        var s := SiteOf(disk, e.uuid);
        s.staged.Some? && e.evidence.Some? && EvidenceOf(s.staged.value) == e.evidence
      modifies this
      ensures Valid() && Continues()
      ensures r.Crashed? ==> !alive && !calm
      ensures calm && r.Refused() ==> BeforeWriting(r.result.error)
      ensures r.Succeeded() ==> alive && !poisoned && disk.older == [] && catalog == Changed(old(catalog), index, Close)
      ensures r.Refused() ==> alive
      ensures r.Refused() && !poisoned ==> catalog == old(catalog)
      ensures calm && old(catalog).generation < U64_MAX
              && SiteOf(old(disk), old(catalog).entries[index].uuid).published.None? ==>
        r.Succeeded()
    {
      hide IsRunFromFresh, Undisturbed, MatchesEvidence;
      var afterValidation := Hook(calm);
      if !afterValidation.Succeeded() {
        return if afterValidation.Crashed? then Crashed else Finished(Err(afterValidation.result.error));
      }
      var beforePublish := Hook(calm);
      if !beforePublish.Succeeded() {
        return if beforePublish.Crashed? then Crashed else Finished(Err(beforePublish.result.error));
      }
      var published := Publish(index, calm);
      if !published.Succeeded() {
        return if published.Crashed? then Crashed else Finished(Err(published.result.error));
      }
      var afterPublish := Hook(calm);
      if !afterPublish.Succeeded() {
        return if afterPublish.Crashed? then Crashed else Finished(Err(afterPublish.result.error));
      }
      var closed := Persist(index, Close, calm);
      if !closed.Succeeded() {
        return if closed.Crashed? then Crashed else Finished(Err(closed.result.error));
      }
      var afterClosed := Hook(calm);
      return if afterClosed.Crashed? then Crashed else Finished(afterClosed.result);
    }

    /** The rest of `create`, once the identifier is durably reserved. */
    method Populate(index: nat, dir: Dir, format: string, calm: bool) returns (r: Ending<()>)
      requires Valid() && Building(View(), index)
      modifies this
      ensures Valid() && Continues()
      ensures r.Crashed? ==> !alive && !calm
      ensures calm && r.Refused() ==> BeforeWriting(r.result.error)
      ensures r.Succeeded() ==> alive && !poisoned && disk.older == [] && GrewTo(old(catalog), catalog, index, Closed)
      ensures r.Refused() && !poisoned ==>
        alive && SameOutside(old(catalog), catalog, index)
            && (catalog.entries[index].phase.Failed? || catalog.entries[index].phase.Reserved?)
      ensures calm && old(catalog).generation + 2 <= U64_MAX
              && Free(SiteOf(old(disk), old(catalog).entries[index].uuid)) ==>
        r.Succeeded()
      ensures r.Refused() && !poisoned && catalog.entries[index].phase.Reserved? ==> BeforeWriting(r.result.error)
      ensures calm && r.Refused() && !poisoned && old(catalog).generation < U64_MAX ==>
        catalog.entries[index].phase.Failed?
    {
      hide IsRunFromFresh, Undisturbed;
      var afterReservation := Hook(calm);
      if !afterReservation.Succeeded() {
        return if afterReservation.Crashed? then Crashed else Finished(Err(afterReservation.result.error));
      }
      var made := Materialize(index, dir, format, calm);
      if made.Crashed? || made.Succeeded() || poisoned {
        return made;
      }
      if catalog.entries[index].phase.Reserved? {
        var failed := Persist(index, Fail, calm);
        return if failed.Succeeded() then made else failed;
      }
      poisoned := true;
      Record(Poison);
      return made;
    }

    /** Journals the new identifier. */
    method ReserveEntry(id: string, uuid: Uuid, calm: bool) returns (r: Ending<()>)
      requires Valid() && alive && !poisoned && Warranted(View(), |catalog.entries|, Reserve(id, uuid))
      modifies this
      ensures Valid() && Continues()
      ensures r.Crashed? ==> !alive && !calm
      ensures calm && r.Refused() ==> BeforeWriting(r.result.error)
      ensures r.Succeeded() ==>
        && alive && !poisoned && catalog == Changed(old(catalog), |old(catalog).entries|, Reserve(id, uuid))
        && Building(View(), |old(catalog).entries|) && disk.sites == old(disk).sites
      ensures r.Refused() && !poisoned ==> catalog == old(catalog)
      ensures calm && old(catalog).generation < U64_MAX ==> r.Succeeded()
    {
      hide IsRunFromFresh, Undisturbed, FilesOk, Inv;
      r := Persist(|catalog.entries|, Reserve(id, uuid), calm);
    }

    /** `create` from the reservation on. */
    method CreateNew(id: string, uuid: Uuid, dir: Dir, format: string, calm: bool) returns (r: Ending<nat>)
      requires Valid() && alive && !poisoned && Warranted(View(), |catalog.entries|, Reserve(id, uuid))
      modifies this
      ensures Valid() && Continues()
      ensures r.Crashed? ==> !alive && !calm
      ensures calm && r.Refused() ==> BeforeWriting(r.result.error)
      ensures r.Succeeded() ==>
        && alive && !poisoned && catalog == disk.catalog && disk.older == []
        && r.result.value == |old(catalog).entries| && GrewTo(old(catalog), catalog, r.result.value, Closed)
        && catalog.entries[r.result.value].id == id && catalog.entries[r.result.value].uuid == uuid
      ensures r.Refused() && !poisoned && catalog != old(catalog) ==>
        || GrewTo(old(catalog), catalog, |old(catalog).entries|, Failed)
        || GrewTo(old(catalog), catalog, |old(catalog).entries|, Reserved)
      ensures calm && old(catalog).generation + 3 <= U64_MAX && Free(SiteOf(old(disk), uuid)) ==> r.Succeeded()
      ensures calm && r.Refused() && !poisoned && catalog != old(catalog) && old(catalog).generation + 2 <= U64_MAX ==>
        GrewTo(old(catalog), catalog, |old(catalog).entries|, Failed)
    {
      hide IsRunFromFresh, Undisturbed, FilesOk, Inv, MatchesEvidence, Located, EvidenceOf, GrewTo, SameOutside;
      var index := |catalog.entries|;
      var reserved := ReserveEntry(id, uuid, calm);
      if !reserved.Succeeded() {
        return if reserved.Crashed? then Crashed else Finished(Err(reserved.result.error));
      }
      ghost var mid := catalog;
      var done := Populate(index, dir, format, calm);
      if done.Crashed? {
        return Crashed;
      }
      if done.Refused() {
        if !poisoned {
          ReservedThenSettled(old(catalog), mid, catalog, id, uuid);
        }
        return Finished(Err(done.result.error));
      }
      ReservedThenSettled(old(catalog), mid, catalog, id, uuid);
      MemoryIsDurable();
      return Finished(Ok(index));
    }

    /** `create`. A result of Ok means the new entry is durably Closed. Other entries are never touched;
        an error that does not poison the manager leaves the new entry absent, Reserved or Failed. */
    method Create(id: string, expected: nat, uuid: Uuid, dir: Dir, format: string, calm: bool) returns (r: Ending<nat>)
      requires Valid() && alive
      modifies this
      ensures Valid() && Continues()
      ensures r.Crashed? ==> !alive && !calm
      ensures r.Succeeded() ==>
        && old(catalog).generation == expected && PositionOf(old(catalog).entries, id).None?
        && !Taken(old(catalog), uuid) && |old(catalog).entries| < old(catalog).limits.repositories
      ensures r.Succeeded() ==>
        && alive && !poisoned && catalog == disk.catalog && disk.older == []
        && r.result.value == |old(catalog).entries| && GrewTo(old(catalog), catalog, r.result.value, Closed)
        && catalog.entries[r.result.value].id == id && catalog.entries[r.result.value].uuid == uuid
      ensures r.Refused() && !poisoned && catalog != old(catalog) ==>
        || GrewTo(old(catalog), catalog, |old(catalog).entries|, Failed)
        || GrewTo(old(catalog), catalog, |old(catalog).entries|, Reserved)
      ensures calm && !old(poisoned) && CanCreate(old(catalog), id, expected, uuid)
              && (Free(SiteOf(old(disk), uuid)) || Undisturbed(old(moves))) ==>
        r.Succeeded()
      ensures calm && !old(poisoned) ==>
        (r == Finished(Err(Conflict)) <==>
         || old(catalog).generation != expected || PositionOf(old(catalog).entries, id).Some?
         || (Taken(old(catalog), uuid) && |old(catalog).entries| < old(catalog).limits.repositories))
      ensures old(poisoned) || old(catalog).generation != expected || PositionOf(old(catalog).entries, id).Some?
              || |old(catalog).entries| >= old(catalog).limits.repositories || Taken(old(catalog), uuid) ==>
        r.Refused() && View() == old(View())
      ensures calm && r.Refused() && !poisoned && catalog != old(catalog) && old(catalog).generation + 2 <= U64_MAX ==>
        GrewTo(old(catalog), catalog, |old(catalog).entries|, Failed)
    {
      hide IsRunFromFresh, Undisturbed, FilesOk, MatchesEvidence, Located, EvidenceOf, GrewTo, SameOutside;
      if poisoned {
        return Finished(Err(Poisoned));
      }
      Facts();
      NewPlaceIsFree(uuid);
      hide Inv;
      if catalog.generation != expected || PositionOf(catalog.entries, id).Some? {
        return Finished(Err(Conflict));
      }
      if |catalog.entries| >= catalog.limits.repositories {
        return Finished(Err(LimitReached));
      }
      var scanRefused := *;
      if !calm && scanRefused {
        var refusal: CatalogError := *;
        return Finished(Err(if BeforeWriting(refusal) then refusal else LimitReached));
      }
      if Taken(catalog, uuid) {
        return Finished(Err(Conflict));
      }
      r := CreateNew(id, uuid, dir, format, calm);
    }

    /** What `Create` has returned Ok for is never lost: if at some point of the history the entry was
        Closed and no crash could bring back an older catalog, then now, whatever crashes and restarts lie
        between and whatever they undid, the same entry is Closed or Quiescing, in every catalog that a
        start may find, with the same directory published and synced. */
    lemma CreatedIsNeverRolledBack(at: nat, index: nat)
      requires Valid() && Undisturbed(moves) && at < |history| && history[at].disk.older == []
      requires index < |history[at].disk.catalog.entries| && history[at].disk.catalog.entries[index].phase.Closed?
      ensures Stands(disk, index, history[at].disk.catalog.entries[index], true)
      ensures index < |disk.catalog.entries|
      ensures var c, d := history[at].disk.catalog.entries[index], disk.catalog.entries[index];
        && Created(d.phase) && d.id == c.id && d.uuid == c.uuid && d.evidence == c.evidence
        && PublishedIntact(SiteOf(disk, d.uuid), d.evidence)
    {
      hide Undisturbed, Inv, PublishedIntact;
      var last := |history| - 1;
      var e := history[at].disk.catalog.entries[index];
      assert Versions(history[at].disk) == [history[at].disk.catalog];
      NeverRolledBack(history, moves, index, e, true, at, last);
      CrashSafety(history, moves, last);
      assert Versions(disk)[|disk.older|] == disk.catalog;
      assert EntryFiles(disk.catalog.entries[index], SiteOf(disk, disk.catalog.entries[index].uuid));
    }

    // ---- reopening ----

    /** The environment's answer to one check of a directory. */
    method Probe(calm: bool) returns (trouble: Trouble)
      ensures Passing(trouble) && (calm ==> trouble.NoTrouble?)
    {
      trouble := *;
      if calm || (trouble.AtVerification? && (trouble.error.CorruptStore? || trouble.error.UnsafePath?)) {
        trouble := NoTrouble;
      }
    }

    /** Checks the published directory of an entry with evidence: a definite answer is the truth. */
    method CheckPublished(index: nat, calm: bool) returns (checked: Result<bool, CatalogError>)
      requires Valid() && Usable(View()) && index < |catalog.entries|
      requires catalog.entries[index].phase.Closed? || catalog.entries[index].phase.Quiescing?
      ensures calm ==> checked.Ok?
      ensures checked.Ok? ==>
        && checked.value == Intact(disk, catalog.entries[index])
        && MatchesEvidence(SiteOf(disk, catalog.entries[index].uuid).published, catalog.entries[index].evidence,
            NoTrouble) == checked
    {
      Facts();
      var e := catalog.entries[index];
      var trouble := Probe(calm);
      checked := MatchesEvidence(SiteOf(disk, e.uuid).published, e.evidence, trouble);
      MatchStable(SiteOf(disk, e.uuid).published, e.evidence, trouble);
      MatchIsProof(SiteOf(disk, e.uuid).published, e.evidence, trouble);
    }

    /** Publishes what is staged, or re-syncs what a crash may have left unsynced. */
    method EnsurePublished(index: nat, calm: bool) returns (r: Ending<()>)
      requires Valid() && HasEntry(View(), index, Validated)
      requires Located(SiteOf(disk, catalog.entries[index].uuid), catalog.entries[index].evidence)
      modifies this
      ensures Valid() && Continues()
      ensures r.Crashed? ==> !alive && !calm
      ensures r.Refused() ==> !calm
      ensures r.Refused() && SiteOf(old(disk), old(catalog).entries[index].uuid).staged.Some? ==> poisoned
      ensures r.Succeeded() ==>
        && alive && !poisoned && catalog == old(catalog) && active == old(active) && disk.catalog == old(disk).catalog
        && PublishedIntact(SiteOf(disk, catalog.entries[index].uuid), catalog.entries[index].evidence)
        && SitesKeptBut(old(disk), disk, catalog.entries[index].uuid)
    {
      hide IsRunFromFresh, Undisturbed;
      if SiteOf(disk, catalog.entries[index].uuid).staged.Some? {
        r := Publish(index, calm);
        if r.Refused() {
          poisoned := true;
          Record(Poison);
        }
        return;
      }
      var syncFails := *;
      if !calm && syncFails {
        return Finished(Err(IoFailure));
      }
      disk := SyncAll(disk);
      Record(SyncSites);
      return Finished(Ok(()));
    }

    /** Journals the end of an entry's story so far: Closed or Failed. */
    method Conclude(index: nat, change: Change, calm: bool) returns (r: Ending<()>)
      requires Valid() && alive && !poisoned && Warranted(View(), index, change) && (change.Close? || change.Fail?)
      modifies this
      ensures Valid() && Continues()
      ensures r.Crashed? ==> !alive && !calm
      ensures r.Succeeded() ==>
        && alive && !poisoned && active == old(active) && SameOutside(old(catalog), catalog, index)
        && catalog.entries[index].phase == PhaseAfter(change) && catalog.generation == old(catalog).generation + 1
        && disk.sites == old(disk).sites
      ensures calm && old(catalog).generation < U64_MAX ==> r.Succeeded()
    {
      hide IsRunFromFresh, Undisturbed, MatchesEvidence, Located, EvidenceOf;
      r := Persist(index, change, calm);
    }

    /** Settles a Validated entry: proved in exactly one place, it is published and Closed; anything
        else definite is Failed. */
    method ReconcileValidated(index: nat, calm: bool) returns (r: Ending<()>)
      requires Valid() && HasEntry(View(), index, Validated)
      modifies this
      ensures Valid() && Continues()
      ensures r.Crashed? ==> !alive && !calm
      ensures r.Succeeded() ==>
        && alive && !poisoned && active == old(active) && SameOutside(old(catalog), catalog, index)
        && catalog.entries[index].phase ==
            Reconciled(old(catalog).entries[index], SiteOf(old(disk), old(catalog).entries[index].uuid))
        && catalog.generation == old(catalog).generation + 1
        && SitesKeptBut(old(disk), disk, old(catalog).entries[index].uuid)
      ensures calm && old(catalog).generation < U64_MAX ==> r.Succeeded()
    {
      hide IsRunFromFresh, Undisturbed;
      var e := catalog.entries[index];
      var site := SiteOf(disk, e.uuid);
      var trouble := Probe(calm);
      var checked := if trouble.AtExists? then Err(trouble.error)
        else if (site.staged.Some? <==> site.published.Some?) then Ok(false)
        else MatchesEvidence(if site.staged.Some? then site.staged else site.published, e.evidence, trouble);
      ValidatedHasEvidence(index);
      MatchIsProof(if site.staged.Some? then site.staged else site.published, e.evidence, trouble);
      if checked.Err? {
        return Finished(Err(checked.error));
      }
      assert checked.value <==> Located(site, e.evidence);
      hide MatchesEvidence, Located, PublishedIntact, SameOutside, SitesKeptBut;
      if !checked.value {
        ghost var was := disk;
        r := Conclude(index, Fail, calm);
        if r.Succeeded() {
          SitesKept(was, disk, e.uuid);
        }
        return;
      }
      ghost var start := disk;
      r := EnsurePublished(index, calm);
      if r.Succeeded() {
        ghost var published := disk;
        r := Conclude(index, Close, calm);
        if r.Succeeded() {
          KeptByWrite(start, published, disk, e.uuid);
        }
      }
    }

    /** Settles a Quiescing entry: only definite evidence fails it; passing trouble leaves it alone. */
    method ReconcileQuiescing(index: nat, calm: bool) returns (r: Ending<()>)
      requires Valid() && HasEntry(View(), index, Quiescing) && active == map[]
      modifies this
      ensures Valid() && Continues()
      ensures r.Crashed? ==> !alive && !calm
      ensures r.Succeeded() ==>
        && alive && !poisoned && active == map[] && SameOutside(old(catalog), catalog, index)
        && old(catalog).generation <= catalog.generation <= old(catalog).generation + 1
        && disk.sites == old(disk).sites
      ensures r.Succeeded() && calm ==>
        catalog.entries[index].phase ==
            Reconciled(old(catalog).entries[index], SiteOf(old(disk), old(catalog).entries[index].uuid))
      ensures calm && old(catalog).generation < U64_MAX ==> r.Succeeded()
    {
      hide IsRunFromFresh, Undisturbed;
      Facts();
      var e := catalog.entries[index];
      var site := SiteOf(disk, e.uuid);
      var trouble := Probe(calm);
      MatchStable(site.published, e.evidence, trouble);
      hide Inv;
      var definite := !trouble.AtExists?
          && (site.staged.Some? || MatchesEvidence(site.published, e.evidence, trouble) == Ok(false));
      if !definite {
        return Finished(Ok(()));
      }
      r := Conclude(index, Fail, calm);
    }

    method ReconcileEntry(index: nat, calm: bool) returns (r: Ending<()>)
      requires Valid() && alive && !poisoned && active == map[] && index < |catalog.entries|
      modifies this
      ensures Valid() && Continues()
      ensures r.Crashed? ==> !alive && !calm
      ensures r.Succeeded() ==>
        && alive && !poisoned && active == map[] && SameOutside(old(catalog), catalog, index)
        && old(catalog).generation <= catalog.generation <= old(catalog).generation + 1
        && SitesKeptBut(old(disk), disk, old(catalog).entries[index].uuid)
      ensures r.Succeeded() && (calm || !old(catalog).entries[index].phase.Quiescing?) ==>
        catalog.entries[index].phase ==
            Reconciled(old(catalog).entries[index], SiteOf(old(disk), old(catalog).entries[index].uuid))
      ensures calm && old(catalog).generation < U64_MAX ==> r.Succeeded()
    {
      hide IsRunFromFresh, Undisturbed;
      match catalog.entries[index].phase
      case Failed => return Finished(Ok(()));
      case Closed => return Finished(Ok(()));
      case Quiescing => r := ReconcileQuiescing(index, calm);
      case Validated => r := ReconcileValidated(index, calm);
      case Reserved =>
        var trouble := Probe(calm);
        if trouble.AtExists? {
          return Finished(Err(trouble.error));
        }
        r := Persist(index, Fail, calm);
    }

    /** `reconcile`: a calm pass leaves every entry exactly in its reconciled phase; whatever happens
        on the way, an entry that was Validated ends Closed only if its recorded directory stood whole
        in exactly one place. */
    method Reconcile(calm: bool) returns (r: Ending<()>)
      requires Valid() && alive
      modifies this
      ensures Valid() && Continues()
      ensures r.Crashed? ==> !alive && !calm
      ensures r.Succeeded() ==>
        && alive && !poisoned && active == map[] && |catalog.entries| == |old(catalog).entries|
        && (forall i :: 0 <= i < |catalog.entries| ==>
            Settled(old(catalog).entries[i], old(disk), catalog.entries[i], calm))
      ensures calm && !old(poisoned) && old(active) == map[]
              && old(catalog).generation + |old(catalog).entries| <= U64_MAX ==>
        r.Succeeded()
    {
      hide IsRunFromFresh, Undisturbed;
      if poisoned {
        return Finished(Err(Poisoned));
      }
      if active != map[] {
        return Finished(Err(Conflict));
      }
      ghost var before, disk0 := catalog, disk;
      Facts();
      assert DistinctUuids(before);
      hide Inv;
      var i := 0;
      while i < |catalog.entries|
        invariant Valid() && Continues() && alive && !poisoned && active == map[]
        invariant 0 <= i <= |catalog.entries| == |before.entries|
        invariant catalog.generation <= before.generation + i
        invariant forall k :: 0 <= k < i ==> Settled(before.entries[k], disk0, catalog.entries[k], calm)
        invariant forall k :: i <= k < |before.entries| ==>
            catalog.entries[k] == before.entries[k] && SiteKept(disk0, disk, before.entries[k].uuid)
        decreases |before.entries| - i
      {
        ReconciledBySite(before.entries[i], SiteOf(disk0, before.entries[i].uuid),
            SiteOf(disk, before.entries[i].uuid));
        ghost var mid := disk;
        r := ReconcileEntry(i, calm);
        if !r.Succeeded() {
          return;
        }
        forall k | i < k < |before.entries| ensures SiteKept(disk0, disk, before.entries[k].uuid) {
          assert before.entries[i].uuid != before.entries[k].uuid && SiteKept(disk0, mid, before.entries[k].uuid);
          assert SiteKept(mid, disk, before.entries[k].uuid);
        }
        i := i + 1;
      }
      return Finished(Ok(()));
    }

    /** Process start on a root with a catalog: load it, then reconcile. */
    method Open(calm: bool) returns (r: Ending<()>)
      requires Valid() && !alive
      modifies this
      ensures Valid() && Continues()
      ensures r.Crashed? ==> !alive && !calm
      ensures r.Succeeded() ==>
        && alive && !poisoned && active == map[] && |catalog.entries| == |old(disk).catalog.entries|
        && (forall i :: 0 <= i < |catalog.entries| ==>
            Settled(old(disk).catalog.entries[i], old(disk), catalog.entries[i], calm))
      ensures calm && old(disk).catalog.generation + |old(disk).catalog.entries| <= U64_MAX ==> r.Succeeded()
    {
      Start();
      r := Reconcile(calm);
    }

    // ---- handles and quiesce ----

    /** `open_repository`: the counted slot appears only for a Closed entry whose directory was proved; a
        directory disproved makes the entry Failed. */
    method OpenRepository(id: string, mode: Repositories.OpenMode, calm: bool) returns (r: Ending<Uuid>)
      requires Valid() && alive
      modifies this
      ensures Valid() && Continues()
      ensures r.Crashed? ==> !alive && !calm
      ensures r.Succeeded() ==>
        && alive && !poisoned && r.result.value !in old(active) && active == old(active)[r.result.value := false]
        && disk == old(disk) && catalog == old(catalog) && |active| <= catalog.limits.openHandles
        && Provable(disk, catalog, id) && catalog.entries[PositionOf(catalog.entries, id).value].uuid == r.result.value
      ensures r.Refused() && alive && !poisoned ==> active == old(active)
      ensures r.Refused() && alive && !poisoned && catalog != old(catalog) ==>
        && PositionOf(old(catalog).entries, id).Some? && !Provable(old(disk), old(catalog), id)
        && catalog == Changed(old(catalog), PositionOf(old(catalog).entries, id).value, Fail)
      ensures calm && !old(poisoned) ==> (r.Succeeded() <==> CanOpen(old(disk), old(catalog), old(active), id))
      ensures !old(poisoned) && |old(active)| < old(catalog).limits.openHandles
              && Busy(old(catalog), old(active), id) ==>
        r == Finished(Err(Conflict)) && View() == old(View())
      ensures old(poisoned) || !MayOpen(old(catalog), old(active), id) ==> r.Refused() && View() == old(View())
      ensures calm && !old(poisoned) && MayOpen(old(catalog), old(active), id) && !r.Succeeded()
              && old(catalog).generation < U64_MAX ==>
        catalog == Changed(old(catalog), PositionOf(old(catalog).entries, id).value, Fail)
    {
      hide IsRunFromFresh, Undisturbed;
      if poisoned {
        return Finished(Err(Poisoned));
      }
      if |active| >= catalog.limits.openHandles {
        return Finished(Err(LimitReached));
      }
      var position := PositionOf(catalog.entries, id);
      if position.None? {
        return Finished(Err(NotFound));
      }
      var index := position.value;
      var e := catalog.entries[index];
      if !e.phase.Closed? {
        return Finished(Err(NotReadyYet));
      }
      if e.uuid in active {
        return Finished(Err(Conflict));
      }
      hide MatchesEvidence, Intact;
      var checked := CheckPublished(index, calm);
      if checked.Err? {
        return Finished(Err(checked.error));
      }
      if !checked.value {
        var failed := Persist(index, Fail, calm);
        return if failed.Crashed? then Crashed
            else Finished(Err(if failed.Refused() then failed.result.error else NotReadyYet));
      }
      r := OpenProved(index, mode, calm);
    }

    /** The rest of opening, once the directory is proved: the model, the store, the slot. */
    method OpenProved(index: nat, mode: Repositories.OpenMode, calm: bool) returns (r: Ending<Uuid>)
      requires Valid() && HasEntry(View(), index, Closed) && catalog.entries[index].uuid !in active
      requires |active| < catalog.limits.openHandles && Intact(disk, catalog.entries[index])
      modifies this
      ensures Valid() && Continues() && r.Finished? && alive && !poisoned && disk == old(disk)
          && catalog == old(catalog)
      ensures r.Refused() ==> !calm && active == old(active)
      ensures r.Succeeded() ==>
        && r.result.value == catalog.entries[index].uuid && active == old(active)[r.result.value := false]
        && |active| <= catalog.limits.openHandles
    {
      hide IsRunFromFresh, Undisturbed;
      Facts();
      assert ValidLimits(catalog.limits);
      hide Inv, ValidLimits;
      var e := catalog.entries[index];
      var modelReady := RunModel(catalog.limits, e.id, mode, catalog.generation);
      if !modelReady {
        return Finished(Err(NotReadyYet));
      }
      var storeFails := *;
      if !calm && storeFails {
        return Finished(Err(StorageFailure));
      }
      AddKeepsSize(active, e.uuid);
      active := active[e.uuid := false];
      Record(OpenHandle(index));
      return Finished(Ok(e.uuid));
    }

    /** The lifecycle model that opening runs alongside; accepted limits always let it reach ready. */
    static method RunModel(limits: ManagerLimits, id: string, mode: Repositories.OpenMode, generation: nat)
        returns (ready: bool)
      requires ValidLimits(limits)
      ensures ready
    {
      EmbeddedModelCannotFail(limits, 0, id, mode, generation);
      var accepted := Repositories.NewLimits(limits.modelRetention, limits.modelMaxGeneration);
      var model := Repositories.OpenSequence(0, id, accepted.value, mode, generation);
      return model.Ok?;
    }

    method DropHandleOf(u: Uuid)
      requires Valid() && alive && u in active
      modifies this
      ensures Valid() && Continues() && View() == Step(old(View()), DropHandle(u))
    {
      active := active - {u};
      Record(DropHandle(u));
    }

    /** `begin_quiesce`: the fence goes up with the durable change, comes down if the change was refused
        before any write, and stays up if its outcome is uncertain. */
    method BeginQuiesce(id: string, expected: nat, calm: bool) returns (r: Ending<Receipt>)
      requires Valid() && alive
      modifies this
      ensures Valid() && Continues()
      ensures r.Crashed? ==> !alive && !calm
      ensures r.Succeeded() ==>
        && alive && !poisoned && var receipt := r.result.value;
           && receipt.id == id && receipt.phase.Quiescing?
           && Holds(catalog, receipt) && active.Keys == old(active).Keys
           && (receipt.uuid in active ==> active[receipt.uuid])
      ensures r.Succeeded() ==> Quiesced(old(catalog), catalog, id, expected)
      ensures r.Succeeded() ==>
        var index := PositionOf(old(catalog).entries, id).value;
        DurablyQuiescing(disk, index) <==>
            old(catalog).entries[index].phase.Closed? || DurablyQuiescing(old(disk), index)
      ensures r.Succeeded() ==>
        var index := PositionOf(old(catalog).entries, id).value;
        old(catalog).entries[index].phase.Closed? || WrittenSinceStart(old(View()).mem.value) ==>
          DurablyQuiescing(disk, index)
      ensures calm && !old(poisoned) ==> (r.Succeeded() <==> CanQuiesce(old(catalog), id, expected))
      ensures !old(poisoned) && PositionOf(old(catalog).entries, id).Some?
              && old(catalog).entries[PositionOf(old(catalog).entries, id).value].changedAt != expected ==>
        r == Finished(Err(Conflict)) && View() == old(View())
      ensures r.Refused() && alive && !poisoned ==> active == old(active) && catalog == old(catalog)
      ensures r.Refused() && alive && poisoned && !old(poisoned) && PositionOf(old(catalog).entries, id).Some? ==>
        var u := old(catalog).entries[PositionOf(old(catalog).entries, id).value].uuid;
        u in active ==> active[u]
    {
      hide IsRunFromFresh, Undisturbed, DurablyQuiescing;
      if poisoned {
        return Finished(Err(Poisoned));
      }
      var position := PositionOf(catalog.entries, id);
      if position.None? {
        return Finished(Err(NotFound));
      }
      var index := position.value;
      var e := catalog.entries[index];
      if e.changedAt != expected {
        return Finished(Err(Conflict));
      }
      if e.phase.Quiescing? {
        Facts();
        if e.uuid in active {
          FencedIffQuiescing(View(), index);
        }
        if WrittenSinceStart(View().mem.value) {
          WrittenMeansDurable(View(), index);
        }
        assert Names(catalog, index, Receipt(id, e.uuid, e.phase, e.changedAt, catalog.generation));
        return Finished(Ok(Receipt(id, e.uuid, e.phase, e.changedAt, catalog.generation)));
      }
      if !e.phase.Closed? {
        return Finished(Err(NotReadyYet));
      }
      r := QuiesceClosed(index, calm);
    }

    /** The one write of `begin_quiesce`. */
    method QuiesceClosed(index: nat, calm: bool) returns (r: Ending<Receipt>)
      requires Valid() && HasEntry(View(), index, Closed)
      modifies this
      ensures Valid() && Continues()
      ensures r.Crashed? ==> !alive && !calm
      ensures r.Succeeded() ==>
        && alive && !poisoned && DurablyQuiescing(disk, index) && old(catalog).generation < U64_MAX
        && catalog == Changed(old(catalog), index, Quiesce)
        && var e := catalog.entries[index];
           && r.result.value == Receipt(e.id, e.uuid, Quiescing, e.changedAt, catalog.generation)
           && Holds(catalog, r.result.value) && active.Keys == old(active).Keys && (e.uuid in active ==> active[e.uuid])
      ensures calm && old(catalog).generation < U64_MAX ==> r.Succeeded()
      ensures r.Refused() && alive && !poisoned ==> active == old(active) && catalog == old(catalog)
      ensures r.Refused() && alive && poisoned ==>
        var u := old(catalog).entries[index].uuid; u in active ==> active[u]
    {
      hide IsRunFromFresh, Undisturbed;
      var written := Persist(index, Quiesce, calm);
      if !written.Succeeded() {
        return if written.Crashed? then Crashed else Finished(Err(written.result.error));
      }
      assert Versions(disk) == [catalog];
      var now := catalog.entries[index];
      r := Finished(Ok(Receipt(now.id, now.uuid, now.phase, now.changedAt, catalog.generation)));
      assert Names(catalog, index, r.result.value);
    }

    /** `complete_quiesce`: needs the exact receipt of the current Quiescing generation and no live
        handle; ends Closed on proof of the directory, Failed on proof against it. */
    method CompleteQuiesce(id: string, receipt: Receipt, calm: bool) returns (r: Ending<Receipt>)
      requires Valid() && alive
      modifies this
      ensures Valid() && Continues()
      ensures r.Crashed? ==> !alive && !calm
      ensures r.Succeeded() ==>
        && alive && !poisoned && Holds(old(catalog), receipt) && receipt.phase.Quiescing?
            && receipt.uuid !in old(active)
        && r.result.value.phase.Closed? && r.result.value.uuid == receipt.uuid && Holds(catalog, r.result.value)
        && r.result.value.generation > receipt.generation
      ensures r.Succeeded() ==> Completed(old(disk), old(catalog), catalog, id, receipt, true)
      ensures r.Refused() && alive && !poisoned ==>
          catalog == old(catalog) || Completed(old(disk), old(catalog), catalog, id, receipt, false)
      ensures calm && !old(poisoned) ==>
        (r.Succeeded() <==>
         CanComplete(old(catalog), old(active), id, receipt)
             && Intact(old(disk), old(catalog).entries[PositionOf(old(catalog).entries, id).value]))
      ensures calm && !old(poisoned) ==>
        (catalog != old(catalog) <==> CanComplete(old(catalog), old(active), id, receipt))
      ensures !old(poisoned) && PositionOf(old(catalog).entries, id).Some?
              && !Current(old(catalog), id, receipt) ==>
        r == Finished(Err(Conflict)) && View() == old(View())
      ensures !old(poisoned) && Current(old(catalog), id, receipt) && receipt.uuid in old(active) ==>
        r == Finished(Err(HandleBusy)) && View() == old(View())
    {
      hide IsRunFromFresh, Undisturbed;
      if poisoned {
        return Finished(Err(Poisoned));
      }
      var position := PositionOf(catalog.entries, id);
      if position.None? {
        return Finished(Err(NotFound));
      }
      var index := position.value;
      var e := catalog.entries[index];
      if receipt.id != id || receipt.uuid != e.uuid || !receipt.phase.Quiescing? || !e.phase.Quiescing?
          || e.changedAt != receipt.generation {
        return Finished(Err(Conflict));
      }
      assert Names(catalog, index, receipt);
      if e.uuid in active {
        return Finished(Err(HandleBusy));
      }
      if catalog.generation >= U64_MAX {
        return Finished(Err(LimitReached));
      }
      Facts();
      assert e.changedAt <= catalog.generation;
      hide Inv;
      var checked := CheckPublished(index, calm);
      if checked.Err? {
        return Finished(Err(checked.error));
      }
      var written := Persist(index, if checked.value then Close else Fail, calm);
      if !written.Succeeded() {
        return if written.Crashed? then Crashed else Finished(Err(written.result.error));
      }
      if !checked.value {
        return Finished(Err(NotReadyYet));
      }
      var now := catalog.entries[index];
      assert Names(catalog, index, Receipt(id, now.uuid, now.phase, now.changedAt, catalog.generation));
      return Finished(Ok(Receipt(id, now.uuid, now.phase, now.changedAt, catalog.generation)));
    }

    /** Left to itself, the manager never meets a directory at the place of a new identifier. */
    lemma NewPlaceIsFree(uuid: Uuid)
      requires Valid() && alive && !poisoned
      ensures Undisturbed(moves) && (forall i :: 0 <= i < |catalog.entries| ==> catalog.entries[i].uuid != uuid) ==>
        Free(SiteOf(disk, uuid))
    {
      hide IsRunFromFresh, Undisturbed, EntryFiles;
      Facts();
    }

    lemma ValidatedHasEvidence(index: nat)
      requires Valid() && HasEntry(View(), index, Validated)
      ensures catalog.entries[index].evidence.Some?
    {
      Facts();
    }

    lemma MemoryIsDurable()
      requires Valid() && alive && !poisoned
      ensures catalog == disk.catalog
    {
      Facts();
    }
  }

  predicate SiteKept(before: Disk, after: Disk, u: Uuid) {
    SiteOf(after, u).staged == SiteOf(before, u).staged && SiteOf(after, u).published == SiteOf(before, u).published
  }

  ghost predicate SitesKeptBut(before: Disk, after: Disk, uuid: Uuid) {
    forall u :: u != uuid ==> SiteKept(before, after, u)
  }

  lemma KeptByWrite(before: Disk, mid: Disk, after: Disk, uuid: Uuid)
    requires SitesKeptBut(before, mid, uuid) && after.sites == mid.sites
    ensures SitesKeptBut(before, after, uuid)
  {
    forall u | u != uuid ensures SiteKept(before, after, u) {
      assert SiteKept(before, mid, u);
    }
  }

  lemma SitesKept(before: Disk, after: Disk, uuid: Uuid)
    requires after.sites == before.sites
    ensures SitesKeptBut(before, after, uuid)
  {
  }

  ghost predicate DistinctUuids(c: Catalog) {
    forall i, j :: 0 <= i < j < |c.entries| ==> c.entries[i].uuid != c.entries[j].uuid
  }

  lemma ReconciledBySite(e: Entry, s: Site, t: Site)
    ensures s.staged == t.staged && s.published == t.published ==> Reconciled(e, s) == Reconciled(e, t)
  {
  }

  /** A finding made under passing trouble is the finding made without any. */
  lemma MatchStable(dir: Option<Dir>, evidence: Option<Evidence>, trouble: Trouble)
    requires Passing(trouble)
    ensures MatchesEvidence(dir, evidence, trouble).Ok? ==>
        MatchesEvidence(dir, evidence, trouble) == MatchesEvidence(dir, evidence, NoTrouble)
  {
  }

  /** An entry before and after reconciliation. A Quiescing one may be left alone for passing trouble. */
  predicate Settled(before: Entry, disk: Disk, after: Entry, calm: bool) {
    && after.id == before.id && after.uuid == before.uuid
    && (calm || !before.phase.Quiescing? ==> after.phase == Reconciled(before, SiteOf(disk, before.uuid)))
  }

  predicate Names(c: Catalog, i: nat, receipt: Receipt) {
    && i < |c.entries|
    && c.entries[i].id == receipt.id && c.entries[i].uuid == receipt.uuid && c.entries[i].phase == receipt.phase
    && c.entries[i].changedAt == receipt.generation
  }

  /** The catalog's current entry is the one the receipt was issued for. */
  predicate Holds(c: Catalog, receipt: Receipt) {
    exists i :: 0 <= i < |c.entries| && Names(c, i, receipt)
  }

  predicate CanQuiesce(c: Catalog, id: string, expected: nat) {
    && PositionOf(c.entries, id).Some?
    && var e := c.entries[PositionOf(c.entries, id).value];
       e.changedAt == expected && (e.phase.Quiescing? || (e.phase.Closed? && c.generation < U64_MAX))
  }

  /** One durable change from Closed, or none at all for an entry that was Quiescing already. */
  predicate Quiesced(c: Catalog, d: Catalog, id: string, expected: nat) {
    && PositionOf(c.entries, id).Some?
    && var index := PositionOf(c.entries, id).value;
       && c.entries[index].changedAt == expected
       && if c.entries[index].phase.Closed? then d == Changed(c, index, Quiesce)
           else c.entries[index].phase.Quiescing? && d == c
  }

  /** The receipt is that of the current quiesce of this id. */
  predicate Current(c: Catalog, id: string, receipt: Receipt) {
    && PositionOf(c.entries, id).Some? && receipt.phase.Quiescing? && receipt.id == id
    && Names(c, PositionOf(c.entries, id).value, receipt)
  }

  /** What a calm completion needs of the journal and the live handles. */
  predicate CanComplete(c: Catalog, active: map<Uuid, bool>, id: string, receipt: Receipt) {
    Current(c, id, receipt) && receipt.uuid !in active && c.generation < U64_MAX
  }

  /** The receipt's entry, and nothing else, went to Closed with its recorded directory published, or to
      Failed without it. */
  predicate Completed(disk: Disk, c: Catalog, d: Catalog, id: string, receipt: Receipt, intact: bool) {
    && PositionOf(c.entries, id).Some?
    && var index := PositionOf(c.entries, id).value;
       && Names(c, index, receipt) && d == Changed(c, index, if intact then Close else Fail)
       && intact == Intact(disk, c.entries[index])
  }

  /** The entry of this id is Closed and its recorded directory is published. */
  predicate Provable(disk: Disk, c: Catalog, id: string) {
    && PositionOf(c.entries, id).Some?
    && var e := c.entries[PositionOf(c.entries, id).value]; e.phase.Closed? && Intact(disk, e)
  }

  /** A Closed entry of this id with a live handle. */
  predicate Busy(c: Catalog, active: map<Uuid, bool>, id: string) {
    && PositionOf(c.entries, id).Some?
    && var e := c.entries[PositionOf(c.entries, id).value]; e.phase.Closed? && e.uuid in active
  }

  /** A Closed entry of this id, without a handle yet, and a free slot. */
  predicate MayOpen(c: Catalog, active: map<Uuid, bool>, id: string) {
    && |active| < c.limits.openHandles && PositionOf(c.entries, id).Some?
    && var e := c.entries[PositionOf(c.entries, id).value]; e.phase.Closed? && e.uuid !in active
  }

  /** What a calm opening needs: a Closed entry with its recorded directory, and a free slot. */
  predicate CanOpen(disk: Disk, c: Catalog, active: map<Uuid, bool>, id: string) {
    && |active| < c.limits.openHandles
    && PositionOf(c.entries, id).Some?
    && var e := c.entries[PositionOf(c.entries, id).value];
       e.phase.Closed? && e.uuid !in active
           && MatchesEvidence(SiteOf(disk, e.uuid).published, e.evidence, NoTrouble) == Ok(true)
  }

  /** Another entry has this internal identifier already. */
  predicate Taken(c: Catalog, uuid: Uuid) {
    exists i :: 0 <= i < |c.entries| && c.entries[i].uuid == uuid
  }

  /** What a calm creation needs of the journal. */
  predicate CanCreate(c: Catalog, id: string, expected: nat, uuid: Uuid) {
    && expected == c.generation && PositionOf(c.entries, id).None? && !Taken(c, uuid)
    && |c.entries| < c.limits.repositories && c.generation + 3 <= U64_MAX
  }

  /** Only the entry at `index` may differ, and its identity does not. */
  predicate SameOutside(c: Catalog, d: Catalog, index: nat) {
    && |c.entries| == |d.entries| && index < |c.entries|
    && (forall i :: 0 <= i < |c.entries| && i != index ==> d.entries[i] == c.entries[i])
    && d.entries[index].id == c.entries[index].id && d.entries[index].uuid == c.entries[index].uuid
  }

  /** An entry that was just reserved and then moved on is the one new entry. */
  lemma ReservedThenSettled(c: Catalog, mid: Catalog, d: Catalog, id: string, uuid: Uuid)
    requires mid == Changed(c, |c.entries|, Reserve(id, uuid))
    requires SameOutside(mid, d, |c.entries|) || GrewTo(mid, d, |c.entries|, Closed)
    ensures |c.entries| < |d.entries| && GrewTo(c, d, |c.entries|, d.entries[|c.entries|].phase)
    ensures d.entries[|c.entries|].id == id && d.entries[|c.entries|].uuid == uuid
    ensures GrewTo(mid, d, |c.entries|, Closed) ==> d.entries[|c.entries|].phase.Closed?
  {
    forall i | 0 <= i < |c.entries| ensures d.entries[i] == c.entries[i] {
      assert mid.entries[i] == c.entries[i];
    }
  }

  /** `d` is `c` with the entry at `index` (possibly new) in the given phase. */
  predicate GrewTo(c: Catalog, d: Catalog, index: nat, phase: Phase) {
    && |c.entries| <= |d.entries| <= |c.entries| + 1 && index < |d.entries|
    && (forall i :: 0 <= i < |c.entries| && i != index ==> d.entries[i] == c.entries[i])
    && (index < |c.entries| ==> SameOutside(c, d, index))
    && d.entries[index].phase == phase
  }
}

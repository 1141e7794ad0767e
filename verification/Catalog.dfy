/** The repository catalog as a protocol: a durable phase journal on disk, a manager's memory, and the
    atomic moves between which a crash may fall.

    Filesystem assumptions: renames are atomic and keep the identity of what they move, and one that no
    sync has followed stays in danger: any later crash may undo it, the first one or one after several
    restarts. That goes for publishing a directory and for replacing the catalog alike. A catalog write
    that fails may have done nothing, may have renamed without a sync, or may have done all of its
    work. Verification reads the directory and can also fail for passing reasons. Outside interference
    falls between operations, not inside one. */
module Catalogs {
  import opened Common
  import Repositories

  type Uuid = nat

  datatype ManagerLimits = ManagerLimits(
    repositories: nat,
    catalogBytes: nat,
    scanEntries: nat,
    openHandles: nat,
    storeFiles: nat,
    modelRetention: nat,
    modelMaxGeneration: nat)

  datatype CatalogError =
    | UnsafePath
    | InvalidCatalog
    | LimitReached
    | Conflict
    | NotFound
    | NotReadyYet
    | StorageFailure
    | CorruptStore
    | IoFailure
    | Poisoned
    | Injected
    | HandleQuiescing
    | HandleBusy

  datatype Phase = Reserved | Validated | Closed | Quiescing | Failed

  datatype Evidence = Evidence(device: nat, inode: nat, format: string)

  datatype Entry = Entry(id: string, uuid: Uuid, phase: Phase, changedAt: nat, evidence: Option<Evidence>)

  datatype Catalog = Catalog(generation: nat, limits: ManagerLimits, entries: seq<Entry>)

  /** What a verification of the directory's contents finds. */
  datatype Health = Sound(format: string) | CorruptContents | UnsafeContents

  datatype Dir = Dir(device: nat, inode: nat, health: Health)

  /** Where a repository's directory is; `settled` when no rename of it awaits its sync. */
  datatype Site = Site(staged: Option<Dir>, published: Option<Dir>, settled: bool)

  /** `older` holds the catalogs, oldest first, that a crash may still bring back. */
  datatype Disk = Disk(catalog: Catalog, older: seq<Catalog>, sites: map<Uuid, Site>)

  /** `active` holds one slot per live handle; the flag is its quiesce fence. `creating` is the entry
      that this process has durably reserved and is still building. `loaded` is the generation of the
      catalog that this process started from. */
  datatype Memory = Memory(
    catalog: Catalog,
    active: map<Uuid, bool>,
    poisoned: bool,
    creating: Option<nat>,
    loaded: nat)

  datatype World = World(disk: Disk, mem: Option<Memory>)

  // ---- limits ----

  predicate ValidLimits(l: ManagerLimits) {
    && 0 < l.repositories && 0 < l.catalogBytes && 0 < l.scanEntries && 0 < l.openHandles && 0 < l.storeFiles
    && l.catalogBytes != USIZE_MAX
    && l.modelRetention != 0
    && 4 <= l.modelMaxGeneration <= U64_MAX
    && l.repositories + 5 <= USIZE_MAX && l.repositories + 5 <= l.scanEntries
  }

  /** For any limits the manager accepts, the lifecycle model embedded in opening cannot fail. */
  lemma EmbeddedModelCannotFail(l: ManagerLimits, instance: nat, id: string, mode: Repositories.OpenMode,
      generation: nat)
    requires ValidLimits(l)
    ensures var limits := Repositories.NewLimits(l.modelRetention, l.modelMaxGeneration);
      && limits.Ok?
      && Repositories.OpenSequence(instance, id, limits.value, mode, generation).Ok?
      && Repositories.OpenSequence(instance, id, limits.value, mode, generation).value.state ==
         if mode.ReadWrite? then Repositories.ReadyReadWrite else Repositories.ReadyReadOnly
  {
    Repositories.OpenSequenceSucceeds(instance, id, Repositories.Limits(l.modelRetention, l.modelMaxGeneration), mode,
        generation);
  }

  // ---- evidence ----

  function SiteOf(disk: Disk, uuid: Uuid): Site {
    if uuid in disk.sites then disk.sites[uuid] else Site(None, None, true)
  }

  /** What a full verification of this directory would record. */
  function EvidenceOf(d: Dir): Option<Evidence> {
    if d.health.Sound? then Some(Evidence(d.device, d.inode, d.health.format)) else None
  }

  /** Passing refusals: existence checks or verification that fail for reasons other than content. */
  datatype Trouble = NoTrouble | AtExists(error: CatalogError) | AtVerification(error: CatalogError)

  function Verified(d: Dir, trouble: Trouble): Result<Evidence, CatalogError> {
    if trouble.AtVerification? then Err(trouble.error)
    else
      match d.health
      case Sound(format) => Ok(Evidence(d.device, d.inode, format))
      case CorruptContents => Err(CorruptStore)
      case UnsafeContents => Err(UnsafePath)
  }

  /** `matches_evidence`: identity first, then contents; only definite findings say no. */
  function MatchesEvidence(dir: Option<Dir>, evidence: Option<Evidence>, trouble: Trouble): Result<bool, CatalogError> {
    if trouble.AtExists? then Err(trouble.error)
    else if dir.None? then Ok(false)
    else if dir.value.health.UnsafeContents? then Ok(false)
    else if evidence.Some?
        && (evidence.value.device != dir.value.device || evidence.value.inode != dir.value.inode) then Ok(false)
    else
      match Verified(dir.value, trouble)
      case Ok(actual) => Ok(Some(actual) == evidence)
      case Err(CorruptStore) => Ok(false)
      case Err(UnsafePath) => Ok(false)
      case Err(e) => Err(e)
  }

  /** The trouble that interrupts a check, as opposed to a finding about the directory. */
  predicate Passing(trouble: Trouble) {
    trouble.AtVerification? ==> trouble.error != CorruptStore && trouble.error != UnsafePath
  }

  /** A yes is proof of identity and contents; a no is proof of a mismatch. */
  lemma MatchIsProof(dir: Option<Dir>, evidence: Option<Evidence>, trouble: Trouble)
    requires evidence.Some? && Passing(trouble)
    ensures MatchesEvidence(dir, evidence, trouble) == Ok(true) ==> dir.Some? && EvidenceOf(dir.value) == evidence
    ensures MatchesEvidence(dir, evidence, trouble) == Ok(false) ==> !(dir.Some? && EvidenceOf(dir.value) == evidence)
    ensures trouble.NoTrouble? ==> MatchesEvidence(dir, evidence, trouble).Ok?
  {
  }

  /** Exactly one of staging and published exists, and it is the directory that was recorded. */
  predicate Located(site: Site, evidence: Option<Evidence>) {
    && evidence.Some?
    && (site.staged.Some? <==> site.published.None?)
    && (site.staged.Some? ==> EvidenceOf(site.staged.value) == evidence)
    && (site.published.Some? ==> EvidenceOf(site.published.value) == evidence)
  }

  predicate PublishedIntact(site: Site, evidence: Option<Evidence>) {
    Located(site, evidence) && site.published.Some? && site.settled
  }

  // ---- journal changes ----

  datatype Change = Reserve(id: string, uuid: Uuid) | Validate(found: Evidence) | Close | Quiesce | Fail

  /** What a catalog write that reported an error has done. */
  datatype Landing = NotRenamed | Unsynced | Durable

  datatype Fate = Written | Refused | Uncertain(landing: Landing)

  function PhaseAfter(change: Change): Phase {
    match change
    case Reserve(_, _) => Reserved
    case Validate(_) => Validated
    case Close => Closed
    case Quiesce => Quiescing
    case Fail => Failed
  }

  function EntryAfter(e: Entry, change: Change, generation: nat): Entry {
    e.(phase := PhaseAfter(change),
       changedAt := generation,
       evidence := if change.Validate? then Some(change.found) else e.evidence)
  }

  function Changed(c: Catalog, index: nat, change: Change): Catalog
    requires if change.Reserve? then index == |c.entries| else index < |c.entries|
  {
    var g := c.generation + 1;
    c.(generation := g,
       entries := if change.Reserve? then c.entries + [Entry(change.id, change.uuid, Reserved, g, None)]
                  else c.entries[index := EntryAfter(c.entries[index], change, g)])
  }

  /** When the manager may ask for a journal change. */
  predicate Warranted(w: World, index: nat, change: Change) {
    && w.mem.Some? && !w.mem.value.poisoned
    && var m := w.mem.value;
       var entries := m.catalog.entries;
       match change
       case Reserve(id, uuid) =>
         && index == |entries| && |entries| < m.catalog.limits.repositories
         && (forall i :: 0 <= i < |entries| ==> entries[i].id != id && entries[i].uuid != uuid)
       case Validate(found) =>
         && index < |entries| && entries[index].phase.Reserved? && m.creating == Some(index)
         && var site := SiteOf(w.disk, entries[index].uuid);
            site.staged.Some? && EvidenceOf(site.staged.value) == Some(found)
       case Close =>
         && index < |entries|
         && (entries[index].phase.Validated? || (entries[index].phase.Quiescing? && entries[index].uuid !in m.active))
         && var site := SiteOf(w.disk, entries[index].uuid);
            if entries[index].phase.Validated? then PublishedIntact(site, entries[index].evidence)
            else site.published.Some? && EvidenceOf(site.published.value) == entries[index].evidence
       case Quiesce => index < |entries| && entries[index].phase.Closed?
       case Fail =>
         && index < |entries|
         && var e := entries[index];
            var site := SiteOf(w.disk, e.uuid);
            match e.phase
            case Reserved => true
            case Validated => !Located(site, e.evidence)
            case Closed => e.uuid !in m.active && MatchesEvidence(site.published, e.evidence, NoTrouble) == Ok(false)
            case Quiescing =>
              e.uuid !in m.active
                  && (site.staged.Some? || MatchesEvidence(site.published, e.evidence, NoTrouble) == Ok(false))
            case Failed => false
  }

  // ---- moves ----

  datatype Move =
    | Boot
    | Crash(undone: set<Uuid>, back: Option<nat>)
    | Write(index: nat, change: Change, fate: Fate)
    | MakeStaging(index: nat, dir: Dir)
    | FillStore(index: nat, health: Health)
    | Rename(index: nat)
    | SyncSites
    | Poison
    | OpenHandle(index: nat)
    | DropHandle(uuid: Uuid)
    | Tamper(uuid: Uuid, site: Site)

  predicate Usable(w: World) {
    w.mem.Some? && !w.mem.value.poisoned
  }

  predicate HasEntry(w: World, index: nat, phase: Phase) {
    Usable(w) && index < |w.mem.value.catalog.entries| && w.mem.value.catalog.entries[index].phase == phase
  }

  predicate Building(w: World, index: nat) {
    HasEntry(w, index, Reserved) && w.mem.value.creating == Some(index)
  }

  predicate Enabled(w: World, move: Move) {
    match move
    case Boot => w.mem.None?
    case Crash(undone, back) =>
      && (forall u :: u in undone ==> u in w.disk.sites && Endangered(w.disk.sites[u]))
      && (back.Some? ==> back.value < |w.disk.older|)
    case Write(index, change, fate) =>
      Warranted(w, index, change) && (!fate.Refused? ==> w.mem.value.catalog.generation < U64_MAX)
    case MakeStaging(index, _) =>
      Building(w, index) && SiteOf(w.disk, w.mem.value.catalog.entries[index].uuid).staged.None?
    case FillStore(index, _) =>
      Building(w, index) && SiteOf(w.disk, w.mem.value.catalog.entries[index].uuid).staged.Some?
    case Rename(index) =>
      && HasEntry(w, index, Validated)
      && var s := SiteOf(w.disk, w.mem.value.catalog.entries[index].uuid);
         s.staged.Some? && s.published.None?
    case SyncSites => w.mem.Some?
    case Poison => w.mem.Some?
    case OpenHandle(index) =>
      && HasEntry(w, index, Closed)
      && var m := w.mem.value;
         && m.catalog.entries[index].uuid !in m.active
         && |m.active| < m.catalog.limits.openHandles
         && SiteOf(w.disk, m.catalog.entries[index].uuid).published.Some?
    case DropHandle(u) => w.mem.Some? && u in w.mem.value.active
    case Tamper(_, _) => true
  }

  function SyncAll(disk: Disk): Disk {
    disk.(sites := map u | u in disk.sites :: disk.sites[u].(settled := true))
  }

  function Undo(site: Site): Site {
    Site(site.published, None, true)
  }

  /** A published directory whose rename no sync has made durable yet. */
  predicate Endangered(site: Site) {
    !site.settled && site.staged.None? && site.published.Some?
  }

  /** A crash undoes some unsynced renames; the others stay visible and stay unsynced. */
  function UndoAll(sites: map<Uuid, Site>, undone: set<Uuid>): map<Uuid, Site> {
    map u | u in sites :: if u in undone then Undo(sites[u]) else sites[u]
  }

  function FenceIfQuiescing(m: Memory, index: nat, change: Change): map<Uuid, bool> {
    if change.Quiesce? && index < |m.catalog.entries| && m.catalog.entries[index].uuid in m.active then
      m.active[m.catalog.entries[index].uuid := true]
    else m.active
  }

  /** A crash may bring back a catalog that a rename without a sync had replaced. */
  function Recovered(disk: Disk, back: Option<nat>): Disk
    requires back.Some? ==> back.value < |disk.older|
  {
    if back.None? then disk else disk.(catalog := disk.older[back.value], older := disk.older[..back.value])
  }

  /** A completed write is synced, and with it every earlier one. */
  function Replaced(disk: Disk, next: Catalog, landing: Landing): Disk {
    match landing
    case NotRenamed => disk
    case Unsynced => disk.(catalog := next, older := disk.older + [disk.catalog])
    case Durable => disk.(catalog := next, older := [])
  }

  function Step(w: World, move: Move): World
    requires Enabled(w, move)
  {
    match move
    case Boot => w.(mem := Some(Memory(w.disk.catalog, map[], false, None, w.disk.catalog.generation)))
    case Crash(undone, back) => World(Recovered(w.disk.(sites := UndoAll(w.disk.sites, undone)), back), None)
    case Write(index, change, fate) =>
      var m := w.mem.value;
      var next := Changed(m.catalog, index, change);
      var active := FenceIfQuiescing(m, index, change);
      (match fate
       case Written =>
         var creating := if change.Reserve? then Some(index) else None;
         World(Replaced(w.disk, next, Durable), Some(Memory(next, active, false, creating, m.loaded)))
       case Refused => w
       case Uncertain(landing) =>
         World(Replaced(w.disk, next, landing), Some(m.(active := active, poisoned := true))))
    case MakeStaging(index, dir) =>
      var u := w.mem.value.catalog.entries[index].uuid;
      w.(disk := w.disk.(sites := w.disk.sites[u := SiteOf(w.disk, u).(staged := Some(dir))]))
    case FillStore(index, health) =>
      var u := w.mem.value.catalog.entries[index].uuid;
      var s := SiteOf(w.disk, u);
      w.(disk := w.disk.(sites := w.disk.sites[u := s.(staged := Some(s.staged.value.(health := health)))]))
    case Rename(index) =>
      var u := w.mem.value.catalog.entries[index].uuid;
      w.(disk := w.disk.(sites := w.disk.sites[u := Site(None, SiteOf(w.disk, u).staged, false)]))
    case SyncSites => w.(disk := SyncAll(w.disk))
    case Poison => w.(mem := Some(w.mem.value.(poisoned := true)))
    case OpenHandle(index) =>
      w.(mem := Some(w.mem.value.(active := w.mem.value.active[w.mem.value.catalog.entries[index].uuid := false])))
    case DropHandle(u) => w.(mem := Some(w.mem.value.(active := w.mem.value.active - {u})))
    case Tamper(u, site) => w.(disk := w.disk.(sites := w.disk.sites[u := site]))
  }

  function Fresh(limits: ManagerLimits): World {
    World(Disk(Catalog(1, limits, []), [], map[]), None)
  }
}

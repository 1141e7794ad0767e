/** What every run of the catalog keeps: any moves, any crashes, any uncertain writes. */
module CatalogRuns {
  import opened Common
  import opened Catalogs

  // ---- the journal ----

  predicate EvidenceRule(e: Entry) {
    && (e.phase.Reserved? ==> e.evidence.None?)
    && (e.phase.Validated? || e.phase.Closed? || e.phase.Quiescing? ==> e.evidence.Some?)
  }

  /** What decoding a stored catalog demands of its entries. */
  predicate CatalogOk(c: Catalog) {
    && 1 <= c.generation <= U64_MAX
    && ValidLimits(c.limits)
    && |c.entries| <= c.limits.repositories
    && (forall i :: 0 <= i < |c.entries| ==> 1 <= c.entries[i].changedAt <= c.generation && EvidenceRule(c.entries[i]))
    && (forall i, j :: 0 <= i < j < |c.entries| ==>
          c.entries[i].id != c.entries[j].id && c.entries[i].uuid != c.entries[j].uuid)
  }

  /** Memory against disk. While unpoisoned they agree; live handles sit on durable entries that are
      Closed or Quiescing, and a Quiescing one is always fenced. */
  predicate MemoryOk(w: World) {
    w.mem.Some? ==>
      var m := w.mem.value;
      && (!m.poisoned ==> m.catalog == w.disk.catalog)
      && |m.active| <= m.catalog.limits.openHandles
      && (forall u :: u in m.active ==> SlotOk(w.disk.catalog, u, m.active[u]))
      && (!m.poisoned ==> ClosedUnfenced(m.catalog, m.active))
  }

  predicate ClosedUnfenced(c: Catalog, active: map<Uuid, bool>) {
    forall i :: 0 <= i < |c.entries| && c.entries[i].uuid in active && c.entries[i].phase.Closed? ==>
        !active[c.entries[i].uuid]
  }

  predicate SlotOk(c: Catalog, u: Uuid, fenced: bool) {
    exists i :: 0 <= i < |c.entries| && c.entries[i].uuid == u
        && (c.entries[i].phase.Closed? || (c.entries[i].phase.Quiescing? && fenced))
  }

  /** The catalogs that a start may find: the current one, and those a crash may bring back. */
  function Versions(disk: Disk): seq<Catalog> {
    disk.older + [disk.catalog]
  }

  predicate VersionsOk(disk: Disk) {
    forall k :: 0 <= k < |Versions(disk)| ==> CatalogOk(Versions(disk)[k])
  }

  /** The process has completed a catalog write: the generation is past the one it started from. */
  predicate WrittenSinceStart(m: Memory) {
    m.catalog.generation > m.loaded
  }

  /** A usable process that has completed a write stands on a journal that no crash can take back; an
      entry is only being built by such a process. */
  predicate ProcessOk(w: World) {
    Usable(w) ==>
      && w.mem.value.loaded <= w.mem.value.catalog.generation
      && (WrittenSinceStart(w.mem.value) ==> w.disk.older == [])
      && (w.mem.value.creating.Some? ==>
            WrittenSinceStart(w.mem.value) && HasEntry(w, w.mem.value.creating.value, Reserved))
  }

  predicate Inv(w: World) {
    && VersionsOk(w.disk) && CatalogOk(w.disk.catalog)
    && MemoryOk(w) && (w.mem.Some? ==> CatalogOk(w.mem.value.catalog)) && ProcessOk(w)
  }

  /** Every catalog after a move is one from before, or the successor of the current one. */
  lemma VersionsAfter(w: World, move: Move, k: nat)
    requires Enabled(w, move) && k < |Versions(Step(w, move).disk)|
    ensures var d := Versions(Step(w, move).disk)[k];
      || (exists j :: 0 <= j < |Versions(w.disk)| && Versions(w.disk)[j] == d)
      || (move.Write? && !move.fate.Refused? && d == Changed(w.mem.value.catalog, move.index, move.change))
  {
    hide MatchesEvidence, Located, EvidenceOf, SiteOf, UndoAll, FenceIfQuiescing;
    var before, after := Versions(w.disk), Versions(Step(w, move).disk);
    if move.Crash? && move.back.Some? {
      assert after[k] == before[k];
    } else if move.Write? && !move.fate.Refused? {
      if k < |before| && after[k] == before[k] {
      } else {
        assert after[k] == Changed(w.mem.value.catalog, move.index, move.change);
      }
    } else {
      assert after[k] == before[k];
    }
  }

  lemma FreshInv(limits: ManagerLimits)
    requires ValidLimits(limits)
    ensures Inv(Fresh(limits))
  {
  }

  lemma ChangedOk(w: World, index: nat, change: Change)
    requires Inv(w) && Warranted(w, index, change) && w.mem.value.catalog.generation < U64_MAX
    ensures CatalogOk(Changed(w.mem.value.catalog, index, change))
  {
    hide MatchesEvidence, Located, EvidenceOf, SiteOf, ValidLimits, VersionsOk, MemoryOk;
  }

  lemma SlotsSurviveWrite(w: World, index: nat, change: Change, u: Uuid)
    requires Inv(w) && Warranted(w, index, change) && u in w.mem.value.active
    ensures var m := w.mem.value;
      var fence := FenceIfQuiescing(m, index, change);
      && u in fence && fence.Keys == m.active.Keys
      && SlotOk(Changed(m.catalog, index, change), u, fence[u])
      && SlotOk(m.catalog, u, fence[u])
  {
    hide MatchesEvidence, Located, EvidenceOf, SiteOf;
    var m := w.mem.value;
    assert SlotOk(m.catalog, u, m.active[u]);
    var i :| 0 <= i < |m.catalog.entries| && m.catalog.entries[i].uuid == u
             && (m.catalog.entries[i].phase.Closed? || (m.catalog.entries[i].phase.Quiescing? && m.active[u]));
    assert i == index ==> change.Quiesce?;
    assert index < |m.catalog.entries| && m.catalog.entries[index].uuid == u ==> i == index;
    SlotSurvives(m, index, change, i);
  }

  /** Of a live handle's entry, the only change is the one to Quiescing, which raises the fence. */
  lemma SlotSurvives(m: Memory, index: nat, change: Change, i: nat)
    requires i < |m.catalog.entries| && m.catalog.entries[i].uuid in m.active
    requires if change.Reserve? then index == |m.catalog.entries| else index < |m.catalog.entries|
    requires var e := m.catalog.entries[i]; e.phase.Closed? || (e.phase.Quiescing? && m.active[e.uuid])
    requires i == index ==> change.Quiesce?
    requires index < |m.catalog.entries| && m.catalog.entries[index].uuid == m.catalog.entries[i].uuid ==> i == index
    ensures var fence := FenceIfQuiescing(m, index, change);
      var u := m.catalog.entries[i].uuid;
      && u in fence && fence.Keys == m.active.Keys
      && SlotOk(Changed(m.catalog, index, change), u, fence[u]) && SlotOk(m.catalog, u, fence[u])
  {
    var u := m.catalog.entries[i].uuid;
    var fence := FenceIfQuiescing(m, index, change);
    var next := Changed(m.catalog, index, change).entries[i];
    assert next.uuid == u && (next.phase.Closed? || (next.phase.Quiescing? && fence[u]));
    assert m.catalog.entries[i].phase.Closed? || (m.catalog.entries[i].phase.Quiescing? && fence[u]);
  }

  lemma WriteKeepsUnfenced(w: World, index: nat, change: Change)
    requires Inv(w) && Warranted(w, index, change)
    ensures ClosedUnfenced(Changed(w.mem.value.catalog, index, change), FenceIfQuiescing(w.mem.value, index, change))
  {
    var c := w.mem.value.catalog;
    var next := Changed(c, index, change);
    var fence := FenceIfQuiescing(w.mem.value, index, change);
    forall i | 0 <= i < |next.entries| && next.entries[i].uuid in fence && next.entries[i].phase.Closed?
      ensures !fence[next.entries[i].uuid]
    {
      if i != index && i < |c.entries| {
        assert next.entries[i] == c.entries[i];
      } else if change.Close? {
        assert c.entries[index].uuid in w.mem.value.active ==> c.entries[index].phase.Validated?;
        NoHandleBeforeClosed(w, index);
      }
    }
  }

  lemma NoHandleBeforeClosed(w: World, index: nat)
    requires Inv(w) && Usable(w) && index < |w.disk.catalog.entries|
    ensures w.disk.catalog.entries[index].uuid in w.mem.value.active ==>
      w.disk.catalog.entries[index].phase.Closed? || w.disk.catalog.entries[index].phase.Quiescing?
  {
    var u := w.disk.catalog.entries[index].uuid;
    if u in w.mem.value.active {
      assert SlotOk(w.disk.catalog, u, w.mem.value.active[u]);
    }
  }

  lemma WriteKeepsMemory(w: World, index: nat, change: Change, fate: Fate)
    requires Inv(w) && Enabled(w, Write(index, change, fate)) && !fate.Refused?
    ensures MemoryOk(Step(w, Write(index, change, fate)))
  {
    hide CatalogOk, SlotOk, ClosedUnfenced, VersionsOk, MatchesEvidence, Located, EvidenceOf, SiteOf;
    var v := Step(w, Write(index, change, fate));
    WriteKeepsUnfenced(w, index, change);
    var fence := FenceIfQuiescing(w.mem.value, index, change);
    assert fence.Keys == w.mem.value.active.Keys;
    assert |fence| == |fence.Keys| && |w.mem.value.active| == |w.mem.value.active.Keys|;
    assert v.mem.value.active == fence;
    forall u | u in fence ensures SlotOk(v.disk.catalog, u, fence[u]) {
      SlotsSurviveWrite(w, index, change, u);
    }
  }

  lemma WriteKeepsInv(w: World, index: nat, change: Change, fate: Fate)
    requires Inv(w) && Enabled(w, Write(index, change, fate))
    ensures Inv(Step(w, Write(index, change, fate)))
  {
    if !fate.Refused? {
      hide CatalogOk, VersionsOk, MemoryOk, MatchesEvidence, Located, EvidenceOf, SiteOf, FenceIfQuiescing;
      ChangedOk(w, index, change);
      WriteKeepsMemory(w, index, change, fate);
      VersionsStayOk(w, Write(index, change, fate));
      ReserveCreates(w, index, change);
    }
  }

  lemma ReserveCreates(w: World, index: nat, change: Change)
    requires Warranted(w, index, change)
    ensures change.Reserve? ==>
      var d := Changed(w.mem.value.catalog, index, change);
      index < |d.entries| && d.entries[index].phase.Reserved?
  {
  }

  lemma VersionsStayOk(w: World, move: Move)
    requires VersionsOk(w.disk) && Enabled(w, move)
    requires move.Write? && !move.fate.Refused? ==> CatalogOk(Changed(w.mem.value.catalog, move.index, move.change))
    ensures VersionsOk(Step(w, move).disk)
    ensures CatalogOk(Step(w, move).disk.catalog)
  {
    hide CatalogOk, Step, Enabled;
    var after := Step(w, move).disk;
    forall k | 0 <= k < |Versions(after)| ensures CatalogOk(Versions(after)[k]) {
      VersionsAfter(w, move, k);
    }
    assert Versions(after)[|after.older|] == after.catalog;
  }


  lemma DropKeepsSize(active: map<Uuid, bool>, u: Uuid)
    requires u in active
    ensures |active - {u}| <= |active|
  {
    assert (active - {u}).Keys == active.Keys - {u};
    assert |(active - {u}).Keys| <= |active.Keys|;
  }

  lemma AddKeepsSize(active: map<Uuid, bool>, u: Uuid)
    ensures |active[u := false]| <= |active| + 1
  {
    var more := active[u := false];
    assert more.Keys == active.Keys + {u};
    assert |more| == |more.Keys| && |active| == |active.Keys|;
  }

  lemma OpenKeepsInv(w: World, index: nat)
    requires Inv(w) && Enabled(w, OpenHandle(index))
    ensures Inv(Step(w, OpenHandle(index)))
  {
    var m := w.mem.value;
    var u := m.catalog.entries[index].uuid;
    var more := m.active[u := false];
    AddKeepsSize(m.active, u);
    forall x | x in more ensures SlotOk(w.disk.catalog, x, more[x]) {
      if x == u {
        assert w.disk.catalog.entries[index].uuid == u && w.disk.catalog.entries[index].phase.Closed?;
      } else {
        assert SlotOk(w.disk.catalog, x, m.active[x]);
      }
    }
  }

  lemma DropKeepsInv(w: World, u: Uuid)
    requires Inv(w) && Enabled(w, DropHandle(u))
    ensures Inv(Step(w, DropHandle(u)))
  {
    hide CatalogOk, VersionsOk, SlotOk;
    VersionsStayOk(w, DropHandle(u));
    DropKeepsSize(w.mem.value.active, u);
  }

  lemma BootKeepsInv(w: World)
    requires Inv(w) && Enabled(w, Boot)
    ensures Inv(Step(w, Boot))
  {
    hide CatalogOk, VersionsOk, SlotOk;
    VersionsStayOk(w, Boot);
    assert |Step(w, Boot).mem.value.active| == 0;
  }

  /** Moves that touch neither the journal nor the handles. */
  lemma SiteMoveKeepsInv(w: World, move: Move)
    requires Inv(w) && Enabled(w, move)
    requires !move.Write? && !move.OpenHandle? && !move.DropHandle? && !move.Boot?
    ensures Inv(Step(w, move))
  {
    hide CatalogOk, VersionsOk, SlotOk, ClosedUnfenced, Endangered;
    VersionsStayOk(w, move);
  }

  lemma StepKeepsInv(w: World, move: Move)
    requires Inv(w) && Enabled(w, move)
    ensures Inv(Step(w, move))
  {
    hide Inv, Step, Enabled;
    match move
    case Write(index, change, fate) => WriteKeepsInv(w, index, change, fate);
    case OpenHandle(index) => OpenKeepsInv(w, index);
    case DropHandle(u) => DropKeepsInv(w, u);
    case Boot => BootKeepsInv(w);
    case _ => SiteMoveKeepsInv(w, move);
  }

  // ---- runs ----

  ghost predicate IsRun(ws: seq<World>, moves: seq<Move>) {
    && |ws| == |moves| + 1
    && forall i :: 0 <= i < |moves| ==> Enabled(ws[i], moves[i]) && ws[i + 1] == Step(ws[i], moves[i])
  }

  ghost predicate IsRunFromFresh(ws: seq<World>, moves: seq<Move>) {
    && IsRun(ws, moves)
    && ValidLimits(ws[0].disk.catalog.limits)
    && ws[0] == Fresh(ws[0].disk.catalog.limits)
  }

  lemma RunExtends(ws: seq<World>, moves: seq<Move>, move: Move, v: World)
    requires IsRunFromFresh(ws, moves)
    requires Enabled(ws[|ws| - 1], move) && v == Step(ws[|ws| - 1], move)
    ensures IsRunFromFresh(ws + [v], moves + [move])
    ensures Undisturbed(moves) && !move.Tamper? ==> Undisturbed(moves + [move])
  {
    hide Step, Enabled, ValidLimits;
    var more, evs := ws + [v], moves + [move];
    forall i | 0 <= i < |evs| ensures Enabled(more[i], evs[i]) && more[i + 1] == Step(more[i], evs[i]) {
      if i < |moves| {
        assert more[i] == ws[i] && more[i + 1] == ws[i + 1] && evs[i] == moves[i];
      }
    }
  }

  lemma {:induction false} RunKeepsInv(ws: seq<World>, moves: seq<Move>, i: nat)
    requires IsRun(ws, moves) && Inv(ws[0]) && i < |ws|
    ensures Inv(ws[i])
  {
    hide Inv, Step, Enabled;
    if i > 0 {
      RunKeepsInv(ws, moves, i - 1);
      StepKeepsInv(ws[i - 1], moves[i - 1]);
    }
  }

  // ---- crash safety without outside interference ----

  /** Files against the journal. A reservation that outlives its process only waits to be failed. */
  predicate EntryFiles(e: Entry, site: Site) {
    match e.phase
    case Reserved => true
    case Validated => Located(site, e.evidence)
    case Closed => PublishedIntact(site, e.evidence)
    case Quiescing => PublishedIntact(site, e.evidence)
    case Failed => true
  }

  /** Each entry's files fit its phase, and no other directories stand in the repository places. */
  predicate CatalogFiles(c: Catalog, disk: Disk) {
    && (forall i :: 0 <= i < |c.entries| ==> EntryFiles(c.entries[i], SiteOf(disk, c.entries[i].uuid)))
    && disk.sites.Keys <= Uuids(c)
  }

  /** The files fit whatever catalog the next start finds. */
  predicate FilesOk(w: World) {
    && (forall k :: 0 <= k < |Versions(w.disk)| ==> CatalogFiles(Versions(w.disk)[k], w.disk))
    && CatalogFiles(w.disk.catalog, w.disk)
    && (Usable(w) && w.mem.value.creating.Some? && w.mem.value.creating.value < |w.mem.value.catalog.entries| ==>
          SiteOf(w.disk, w.mem.value.catalog.entries[w.mem.value.creating.value].uuid).published.None?)
  }

  function Uuids(c: Catalog): set<Uuid> {
    set e | e in c.entries :: e.uuid
  }

  predicate Undisturbed(moves: seq<Move>) {
    forall i :: 0 <= i < |moves| ==> !moves[i].Tamper?
  }

  /** No journal change takes an identity away. */
  lemma UuidsGrow(c: Catalog, index: nat, change: Change)
    requires if change.Reserve? then index == |c.entries| else index < |c.entries|
    ensures Uuids(c) <= Uuids(Changed(c, index, change))
  {
    var d := Changed(c, index, change);
    forall u | u in Uuids(c) ensures u in Uuids(d) {
      var i :| 0 <= i < |c.entries| && c.entries[i].uuid == u;
      assert d.entries[i] in d.entries && d.entries[i].uuid == u;
    }
  }

  /** A change of places that keeps every entry's files in order keeps every catalog's. */
  lemma SitesMove(c: Catalog, before: Disk, after: Disk)
    requires CatalogFiles(c, before) && after.sites.Keys <= Uuids(c)
    requires forall e :: e in c.entries && EntryFiles(e, SiteOf(before, e.uuid)) ==>
        EntryFiles(e, SiteOf(after, e.uuid))
    ensures CatalogFiles(c, after)
  {
    hide EntryFiles, SiteOf;
    forall i | 0 <= i < |c.entries| ensures EntryFiles(c.entries[i], SiteOf(after, c.entries[i].uuid)) {
      assert c.entries[i] in c.entries && EntryFiles(c.entries[i], SiteOf(before, c.entries[i].uuid));
    }
  }

  /** Undoing unsynced renames loses no directory that an entry counts on. */
  lemma CrashMovesFiles(c: Catalog, w: World, undone: set<Uuid>, back: Option<nat>)
    requires Enabled(w, Crash(undone, back)) && CatalogFiles(c, w.disk)
    ensures CatalogFiles(c, Step(w, Crash(undone, back)).disk)
  {
    var v := Step(w, Crash(undone, back));
    assert v.disk.sites.Keys == w.disk.sites.Keys;
    SitesMove(c, w.disk, v.disk);
  }

  lemma CrashKeepsFiles(w: World, undone: set<Uuid>, back: Option<nat>)
    requires Enabled(w, Crash(undone, back)) && FilesOk(w)
    ensures FilesOk(Step(w, Crash(undone, back)))
  {
    var v := Step(w, Crash(undone, back));
    assert forall k :: 0 <= k < |Versions(v.disk)| ==> Versions(v.disk)[k] == Versions(w.disk)[k];
    hide CatalogFiles, Enabled;
    assert v.disk.catalog == Versions(v.disk)[|v.disk.older|];
    forall k | 0 <= k < |Versions(v.disk)| ensures CatalogFiles(Versions(v.disk)[k], v.disk) {
      CrashMovesFiles(Versions(w.disk)[k], w, undone, back);
    }
  }

  /** The changed entry's files are in order: each change is only asked for when they are. */
  lemma ChangedEntryFiles(w: World, index: nat, change: Change)
    requires Inv(w) && Warranted(w, index, change) && FilesOk(w)
    ensures var d := Changed(w.mem.value.catalog, index, change);
      index < |d.entries| && EntryFiles(d.entries[index], SiteOf(w.disk, d.entries[index].uuid))
  {
    hide MatchesEvidence, VersionsOk, SlotOk, ClosedUnfenced, ValidLimits;
    var c := w.disk.catalog;
    if index < |c.entries| {
      assert EntryFiles(c.entries[index], SiteOf(w.disk, c.entries[index].uuid));
    }
  }

  lemma ChangedFiles(w: World, index: nat, change: Change)
    requires Inv(w) && Warranted(w, index, change) && FilesOk(w)
    ensures CatalogFiles(Changed(w.mem.value.catalog, index, change), w.disk)
  {
    hide MatchesEvidence, Located, EvidenceOf, SiteOf, EntryFiles, VersionsOk, CatalogOk;
    var c := w.disk.catalog;
    var d := Changed(c, index, change);
    UuidsGrow(c, index, change);
    ChangedEntryFiles(w, index, change);
    forall i | 0 <= i < |d.entries| ensures EntryFiles(d.entries[i], SiteOf(w.disk, d.entries[i].uuid)) {
      if i != index {
        assert d.entries[i] == c.entries[i];
      }
    }
  }

  lemma SameSites(c: Catalog, before: Disk, after: Disk)
    requires CatalogFiles(c, before) && after.sites == before.sites
    ensures CatalogFiles(c, after)
  {
    SitesMove(c, before, after);
  }

  lemma WriteKeepsVersion(w: World, index: nat, change: Change, fate: Fate, k: nat)
    requires Inv(w) && Enabled(w, Write(index, change, fate)) && FilesOk(w)
    requires k < |Versions(Step(w, Write(index, change, fate)).disk)|
    ensures var d := Step(w, Write(index, change, fate)).disk; CatalogFiles(Versions(d)[k], d)
  {
    hide CatalogFiles, Inv, Warranted, FenceIfQuiescing;
    ChangedFiles(w, index, change);
    VersionsAfter(w, Write(index, change, fate), k);
    var d := Step(w, Write(index, change, fate)).disk;
    assert d.sites == w.disk.sites;
    SameSites(Versions(d)[k], w.disk, d);
  }

  lemma WriteKeepsFiles(w: World, index: nat, change: Change, fate: Fate)
    requires Inv(w) && Enabled(w, Write(index, change, fate)) && FilesOk(w)
    ensures FilesOk(Step(w, Write(index, change, fate)))
  {
    hide CatalogFiles, Inv, Warranted, FenceIfQuiescing;
    NewPlace(w, index, change);
    var v := Step(w, Write(index, change, fate));
    forall k | 0 <= k < |Versions(v.disk)| ensures CatalogFiles(Versions(v.disk)[k], v.disk) {
      WriteKeepsVersion(w, index, change, fate, k);
    }
    assert v.disk.catalog == Versions(v.disk)[|v.disk.older|];
  }

  /** A new identifier has nothing at its place yet. */
  lemma NewPlace(w: World, index: nat, change: Change)
    requires Inv(w) && Warranted(w, index, change) && FilesOk(w)
    ensures change.Reserve? ==>
      var d := Changed(w.mem.value.catalog, index, change);
      index < |d.entries| && SiteOf(w.disk, d.entries[index].uuid).published.None?
  {
    hide VersionsOk, EntryFiles;
    if change.Reserve? {
      assert change.uuid !in Uuids(w.disk.catalog);
    }
  }

  /** Building touches only the new entry's place. */
  lemma BuildMovesFiles(w: World, move: Move, index: nat)
    requires CatalogOk(w.disk.catalog) && MemoryOk(w) && Enabled(w, move) && CatalogFiles(w.disk.catalog, w.disk)
    requires (move.MakeStaging? && move.index == index) || (move.FillStore? && move.index == index)
    ensures CatalogFiles(w.disk.catalog, Step(w, move).disk)
  {
    hide EvidenceOf, SlotOk, ClosedUnfenced, ValidLimits;
    var v := Step(w, move);
    var c := w.disk.catalog;
    assert c.entries[index] in c.entries;
    forall e | e in c.entries && EntryFiles(e, SiteOf(w.disk, e.uuid)) ensures EntryFiles(e, SiteOf(v.disk, e.uuid)) {
      var i :| 0 <= i < |c.entries| && c.entries[i] == e;
      assert i != index ==> c.entries[i].uuid != c.entries[index].uuid;
    }
    SitesMove(c, w.disk, v.disk);
  }

  /** And only on a journal with a single version. */
  lemma BuildKeepsFiles(w: World, move: Move, index: nat)
    requires Inv(w) && Enabled(w, move) && FilesOk(w)
    requires (move.MakeStaging? && move.index == index) || (move.FillStore? && move.index == index)
    ensures FilesOk(Step(w, move))
  {
    hide VersionsOk, CatalogOk, MemoryOk, CatalogFiles;
    BuildMovesFiles(w, move, index);
    assert Versions(Step(w, move).disk) == [w.disk.catalog];
  }

  lemma RenameMovesFiles(c: Catalog, w: World, index: nat)
    requires Enabled(w, Rename(index)) && CatalogFiles(c, w.disk)
    ensures CatalogFiles(c, Step(w, Rename(index)).disk)
  {
    var v := Step(w, Rename(index));
    assert v.disk.sites.Keys == w.disk.sites.Keys;
    SitesMove(c, w.disk, v.disk);
  }

  lemma SyncMovesFiles(c: Catalog, w: World)
    requires w.mem.Some? && CatalogFiles(c, w.disk)
    ensures CatalogFiles(c, Step(w, SyncSites).disk)
  {
    var v := Step(w, SyncSites);
    assert v.disk.sites.Keys == w.disk.sites.Keys;
    SitesMove(c, w.disk, v.disk);
  }

  lemma RenameKeepsFiles(w: World, index: nat)
    requires Inv(w) && Enabled(w, Rename(index)) && FilesOk(w)
    ensures FilesOk(Step(w, Rename(index)))
  {
    hide CatalogFiles, VersionsOk;
    var v := Step(w, Rename(index));
    assert Versions(v.disk) == Versions(w.disk);
    RenameMovesFiles(w.disk.catalog, w, index);
    forall k | 0 <= k < |Versions(v.disk)| ensures CatalogFiles(Versions(v.disk)[k], v.disk) {
      RenameMovesFiles(Versions(w.disk)[k], w, index);
    }
  }

  lemma SyncKeepsFiles(w: World)
    requires w.mem.Some? && FilesOk(w)
    ensures FilesOk(Step(w, SyncSites))
  {
    hide CatalogFiles;
    var v := Step(w, SyncSites);
    assert Versions(v.disk) == Versions(w.disk);
    SyncMovesFiles(w.disk.catalog, w);
    forall k | 0 <= k < |Versions(v.disk)| ensures CatalogFiles(Versions(v.disk)[k], v.disk) {
      SyncMovesFiles(Versions(w.disk)[k], w);
    }
  }

  lemma StepKeepsFiles(w: World, move: Move)
    requires Inv(w) && Enabled(w, move) && !move.Tamper? && FilesOk(w)
    ensures FilesOk(Step(w, move))
  {
    hide Inv, CatalogFiles, Warranted;
    match move
    case Crash(undone, back) => CrashKeepsFiles(w, undone, back);
    case Write(index, change, fate) => WriteKeepsFiles(w, index, change, fate);
    case MakeStaging(index, _) => BuildKeepsFiles(w, move, index);
    case FillStore(index, _) => BuildKeepsFiles(w, move, index);
    case Rename(index) => RenameKeepsFiles(w, index);
    case SyncSites => SyncKeepsFiles(w);
    case _ =>
  }

  /** Crash safety: in every undisturbed run, after any crashes at any moves, whatever unsynced renames
      they undo, and in whatever catalog the next start finds: a Validated entry's directory is whole in
      exactly one place and a Closed or Quiescing entry's is published and synced. */
  lemma {:induction false} CrashSafety(ws: seq<World>, moves: seq<Move>, i: nat)
    requires IsRunFromFresh(ws, moves) && Undisturbed(moves) && i < |ws|
    ensures Inv(ws[i]) && FilesOk(ws[i])
  {
    hide Inv, Step, Enabled, FilesOk;
    FreshInv(ws[0].disk.catalog.limits);
    FreshFiles(ws[0].disk.catalog.limits);
    RunKeepsInv(ws, moves, i);
    if i > 0 {
      CrashSafety(ws, moves, i - 1);
      StepKeepsFiles(ws[i - 1], moves[i - 1]);
    }
  }

  /** What a process leaves that is killed after the rename and before the syncs: at the next start, and
      at every later one, the rename can still be undone. So Closed may follow only a new sync. */
  lemma KilledRenameStaysInDanger(w: World, index: nat)
    requires Inv(w) && Enabled(w, Rename(index))
    ensures var u := w.mem.value.catalog.entries[index].uuid;
      var killed := Step(Step(w, Rename(index)), Crash({}, None));
      var again := Step(killed, Boot);
      && Endangered(SiteOf(again.disk, u)) && Enabled(again, Crash({u}, None))
      && SiteOf(Step(again, Crash({u}, None)).disk, u).published.None?
      && !Warranted(again, index, Close)
  {
  }

  lemma FreshFiles(limits: ManagerLimits)
    ensures FilesOk(Fresh(limits))
  {
  }

  // ---- nothing proven is ever rolled back ----

  predicate Proven(p: Phase) {
    p.Validated? || p.Closed? || p.Quiescing?
  }

  predicate Created(p: Phase) {
    p.Closed? || p.Quiescing?
  }

  /** From one catalog to its successor, an entry keeps its place, identity and, once proven, its
      evidence; a changed entry carries the new generation. */
  predicate Kept(c: Catalog, d: Catalog, index: nat) {
    && index < |c.entries| <= |d.entries|
    && d.entries[index].id == c.entries[index].id && d.entries[index].uuid == c.entries[index].uuid
    && (Proven(c.entries[index].phase) ==> d.entries[index].evidence == c.entries[index].evidence)
    && c.entries[index].changedAt <= d.entries[index].changedAt
    && (d.entries[index] != c.entries[index] ==> d.entries[index].changedAt == d.generation == c.generation + 1)
  }

  lemma WriteStays(w: World, at: nat, change: Change, index: nat)
    requires Inv(w) && Warranted(w, at, change) && index < |w.disk.catalog.entries|
    ensures Kept(w.disk.catalog, Changed(w.mem.value.catalog, at, change), index)
  {
    hide MatchesEvidence, Located, EvidenceOf, SiteOf, VersionsOk;
    assert w.mem.value.catalog == w.disk.catalog;
  }

  /** Whatever catalog stands after a move, or may be brought back: it stood or could be brought back
      before, or it is the current one's successor, with every entry kept. */
  lemma EntriesStay(w: World, move: Move, index: nat, k: nat)
    requires Inv(w) && Enabled(w, move) && index < |w.disk.catalog.entries| && k < |Versions(Step(w, move).disk)|
    ensures var d := Versions(Step(w, move).disk)[k];
      (exists j :: 0 <= j < |Versions(w.disk)| && Versions(w.disk)[j] == d) || Kept(w.disk.catalog, d, index)
  {
    hide Inv, Kept;
    VersionsAfter(w, move, k);
    if move.Write? {
      WriteStays(w, move.index, move.change, index);
    }
  }

  /** In every catalog that stands or may be brought back, the entry at `index` is `e` or what became of
      it: proven, and created if `created` says so. */
  predicate Stands(disk: Disk, index: nat, e: Entry, created: bool) {
    forall k :: 0 <= k < |Versions(disk)| ==> StandsIn(Versions(disk)[k], index, e, created)
  }

  predicate StandsIn(c: Catalog, index: nat, e: Entry, created: bool) {
    && index < |c.entries|
    && var d := c.entries[index];
       && d.id == e.id && d.uuid == e.uuid && d.evidence == e.evidence
       && Proven(d.phase) && (created ==> Created(d.phase))
  }

  lemma ChangeKeepsProof(w: World, at: nat, change: Change, index: nat, e: Entry, created: bool)
    requires Inv(w) && Warranted(w, at, change) && FilesOk(w) && StandsIn(w.disk.catalog, index, e, created)
    ensures StandsIn(Changed(w.mem.value.catalog, at, change), index, e, created)
  {
    hide VersionsOk, MatchesEvidence;
    WriteStays(w, at, change, index);
    var c := w.disk.catalog.entries[index];
    assert EntryFiles(c, SiteOf(w.disk, c.uuid));
    if change.Fail? && at == index && c.evidence.Some? {
      MatchIsProof(SiteOf(w.disk, c.uuid).published, c.evidence, NoTrouble);
    }
  }

  lemma StandsStep(w: World, move: Move, index: nat, e: Entry, created: bool)
    requires Inv(w) && Enabled(w, move) && FilesOk(w) && Stands(w.disk, index, e, created)
    ensures Stands(Step(w, move).disk, index, e, created)
  {
    hide Inv, FilesOk, StandsIn;
    assert Versions(w.disk)[|w.disk.older|] == w.disk.catalog;
    var v := Step(w, move);
    forall k | 0 <= k < |Versions(v.disk)| ensures StandsIn(Versions(v.disk)[k], index, e, created) {
      VersionsAfter(w, move, k);
      if move.Write? {
        ChangeKeepsProof(w, move.index, move.change, index, e, created);
      }
    }
  }

  /** In every undisturbed run, whatever crashes fall where and whatever they undo: an entry that was
      once proven in every catalog a crash could bring back never fails, and one that was so created (as
      any creation that reported success is) stays Closed or Quiescing for ever, with the same
      evidence. */
  lemma {:induction false} NeverRolledBack(ws: seq<World>, moves: seq<Move>, index: nat, e: Entry, created: bool,
      i: nat, j: nat)
    requires IsRunFromFresh(ws, moves) && Undisturbed(moves) && i <= j < |ws|
    requires Stands(ws[i].disk, index, e, created)
    ensures Stands(ws[j].disk, index, e, created)
    decreases j
  {
    hide Step, Enabled, FilesOk, Stands, Inv;
    if i < j {
      NeverRolledBack(ws, moves, index, e, created, i, j - 1);
      CrashSafety(ws, moves, j - 1);
      StandsStep(ws[j - 1], moves[j - 1], index, e, created);
    }
  }

  // ---- quiesce fencing ----

  /** `admit`: whether a live handle may touch its store. */
  function AdmitHandle(w: World, u: Uuid): Result<(), CatalogError> {
    if w.mem.None? || u !in w.mem.value.active then Err(NotReadyYet)
    else if w.mem.value.active[u] then Err(HandleQuiescing)
    else Ok(())
  }

  /** No handle works on a repository that is durably anything but Closed, poisoned manager or not. */
  lemma AdmittedMeansClosed(w: World, index: nat)
    requires Inv(w) && index < |w.disk.catalog.entries|
    ensures AdmitHandle(w, w.disk.catalog.entries[index].uuid).Ok? ==> w.disk.catalog.entries[index].phase.Closed?
  {
    var u := w.disk.catalog.entries[index].uuid;
    if AdmitHandle(w, u).Ok? {
      assert SlotOk(w.disk.catalog, u, false);
    }
  }

  /** While the manager is usable, a live handle is fenced exactly when its entry is Quiescing. */
  lemma FencedIffQuiescing(w: World, index: nat)
    requires Inv(w) && Usable(w) && index < |w.disk.catalog.entries|
    requires w.disk.catalog.entries[index].uuid in w.mem.value.active
    ensures w.mem.value.catalog == w.disk.catalog
    ensures w.mem.value.active[w.disk.catalog.entries[index].uuid] <==> w.disk.catalog.entries[index].phase.Quiescing?
  {
    var u := w.disk.catalog.entries[index].uuid;
    assert SlotOk(w.disk.catalog, u, w.mem.value.active[u]);
  }

  /** A fence, once up, stays up until that handle is gone. */
  lemma FenceSticks(w: World, move: Move, u: Uuid)
    requires Inv(w) && Enabled(w, move) && w.mem.Some? && u in w.mem.value.active && w.mem.value.active[u]
    ensures var v := Step(w, move); v.mem.Some? && u in v.mem.value.active ==> v.mem.value.active[u]
  {
  }

  ghost predicate HandleLives(ws: seq<World>, u: Uuid, i: nat, j: nat)
    requires i <= j < |ws|
  {
    forall k :: i <= k <= j ==> ws[k].mem.Some? && u in ws[k].mem.value.active
  }

  /** After a quiesce has been written, no operation of any handle that was live at that moment is ever
      admitted again. */
  lemma {:induction false} NoWorkAfterQuiesce(ws: seq<World>, moves: seq<Move>, index: nat, i: nat, j: nat)
    requires IsRun(ws, moves) && Inv(ws[0]) && i < j < |ws|
    requires moves[i] == Write(index, Quiesce, Written)
    requires HandleLives(ws, ws[i].mem.value.catalog.entries[index].uuid, i, j)
    ensures AdmitHandle(ws[j], ws[i].mem.value.catalog.entries[index].uuid) == Err(HandleQuiescing)
    decreases j
  {
    hide Step, Inv;
    var u := ws[i].mem.value.catalog.entries[index].uuid;
    RunKeepsInv(ws, moves, j - 1);
    if j > i + 1 {
      NoWorkAfterQuiesce(ws, moves, index, i, j - 1);
      FenceSticks(ws[j - 1], moves[j - 1], u);
    } else {
      QuiesceFences(ws[i], index);
    }
  }

  lemma QuiesceFences(w: World, index: nat)
    requires Enabled(w, Write(index, Quiesce, Written))
    ensures var m := Step(w, Write(index, Quiesce, Written)).mem;
      var u := w.mem.value.catalog.entries[index].uuid;
      m.Some? && (u in m.value.active ==> m.value.active[u])
  {
  }

  // ---- receipts ----

  /** A durable completion of the quiesce that a receipt of this generation names: the one that reports
      success, or one whose success only went unreported. */
  predicate Completes(w: World, move: Move, index: nat, generation: nat) {
    && move.Write? && move.index == index && (move.change.Close? || move.change.Fail?)
    && (move.fate.Written? || move.fate == Uncertain(Durable))
    && index < |w.disk.catalog.entries|
    && w.disk.catalog.entries[index].phase.Quiescing? && w.disk.catalog.entries[index].changedAt == generation
  }

  /** The entry is past this generation in every catalog that stands or may be brought back. */
  predicate Past(disk: Disk, index: nat, generation: nat) {
    forall k :: 0 <= k < |Versions(disk)| ==> PastIn(Versions(disk)[k], index, generation)
  }

  predicate PastIn(c: Catalog, index: nat, generation: nat) {
    index < |c.entries| && c.entries[index].changedAt > generation
  }

  lemma PastStep(w: World, move: Move, index: nat, generation: nat)
    requires Inv(w) && Enabled(w, move) && Past(w.disk, index, generation)
    ensures Past(Step(w, move).disk, index, generation)
  {
    hide Inv, Enabled;
    assert Versions(w.disk)[|w.disk.older|] == w.disk.catalog;
    var v := Step(w, move);
    forall k | 0 <= k < |Versions(v.disk)| ensures PastIn(Versions(v.disk)[k], index, generation) {
      EntriesStay(w, move, index, k);
    }
  }

  lemma {:induction false} PastForever(ws: seq<World>, moves: seq<Move>, index: nat, generation: nat, i: nat, j: nat)
    requires IsRun(ws, moves) && Inv(ws[0]) && i <= j < |ws| && Past(ws[i].disk, index, generation)
    ensures Past(ws[j].disk, index, generation)
    decreases j
  {
    hide Step, Enabled, Inv, Past;
    if i < j {
      PastForever(ws, moves, index, generation, i, j - 1);
      RunKeepsInv(ws, moves, j - 1);
      PastStep(ws[j - 1], moves[j - 1], index, generation);
    }
  }

  lemma CompletionAdvances(w: World, move: Move, index: nat, generation: nat)
    requires Inv(w) && Enabled(w, move) && Completes(w, move, index, generation)
    ensures Past(Step(w, move).disk, index, generation)
    ensures w.disk.catalog.entries[index].uuid !in w.mem.value.active
  {
    hide VersionsOk;
  }

  /** A receipt's generation completes durably at most once, and only with no live handle. */
  lemma ReceiptCompletesOnce(ws: seq<World>, moves: seq<Move>, index: nat, generation: nat, i: nat, j: nat)
    requires IsRun(ws, moves) && Inv(ws[0]) && i < j < |moves|
    requires Completes(ws[i], moves[i], index, generation)
    ensures !Completes(ws[j], moves[j], index, generation)
    ensures ws[i].mem.Some? && ws[i].disk.catalog.entries[index].uuid !in ws[i].mem.value.active
  {
    hide Inv, Step;
    RunKeepsInv(ws, moves, i);
    CompletionAdvances(ws[i], moves[i], index, generation);
    PastForever(ws, moves, index, generation, i + 1, j);
    assert Versions(ws[j].disk)[|ws[j].disk.older|] == ws[j].disk.catalog;
  }

  // ---- a quiesce that is only visible ----

  /** Quiescing in every catalog that stands or may be brought back. */
  predicate DurablyQuiescing(disk: Disk, index: nat) {
    forall k :: 0 <= k < |Versions(disk)| ==> QuiescingIn(Versions(disk)[k], index)
  }

  predicate QuiescingIn(c: Catalog, index: nat) {
    index < |c.entries| && c.entries[index].phase.Quiescing?
  }

  /** A quiesce whose rename was not synced before the process was killed is found, at the next start, as
      Quiescing: repeating it then needs no write and reports success. A crash after that can still bring
      the repository back Closed. */
  lemma VisibleQuiesceCanBeLost(w: World, index: nat)
    requires Inv(w) && Enabled(w, Write(index, Quiesce, Uncertain(Unsynced)))
    ensures var killed := Step(Step(w, Write(index, Quiesce, Uncertain(Unsynced))), Crash({}, None));
      var again := Step(killed, Boot);
      var loss := Crash({}, Some(|w.disk.older|));
      && HasEntry(again, index, Quiescing) && !DurablyQuiescing(again.disk, index)
      && Enabled(again, loss) && Step(again, loss).disk.catalog.entries[index].phase.Closed?
  {
    hide VersionsOk;
    var killed := Step(Step(w, Write(index, Quiesce, Uncertain(Unsynced))), Crash({}, None));
    assert Versions(killed.disk)[|w.disk.older|] == w.disk.catalog;
  }

  /** What a manager that has completed a catalog write since its start shows as Quiescing is durable. */
  lemma WrittenMeansDurable(w: World, index: nat)
    requires Inv(w) && HasEntry(w, index, Quiescing) && WrittenSinceStart(w.mem.value)
    ensures DurablyQuiescing(w.disk, index)
  {
    hide VersionsOk, CatalogOk;
    assert Versions(w.disk) == [w.disk.catalog];
  }

  /** All that a manager or its caller can see of two states is the same. */
  predicate LooksLike(v: World, w: World) {
    v.mem == w.mem && v.disk.catalog == w.disk.catalog && v.disk.sites == w.disk.sites
  }

  /** The catalog as it would be without the quiesce. */
  function Reclosed(c: Catalog, index: nat): Catalog
    requires index < |c.entries|
  {
    c.(entries := c.entries[index := c.entries[index].(phase := Closed)])
  }

  lemma ReclosedOk(c: Catalog, index: nat)
    requires CatalogOk(c) && QuiescingIn(c, index)
    ensures CatalogOk(Reclosed(c, index)) && !QuiescingIn(Reclosed(c, index), index)
  {
    hide ValidLimits;
  }

  lemma ReclosedFiles(c: Catalog, index: nat, disk: Disk)
    requires CatalogFiles(c, disk) && QuiescingIn(c, index)
    ensures CatalogFiles(Reclosed(c, index), disk)
  {
    hide PublishedIntact, Located, SiteOf;
    SameUuids(c, index, Closed);
    var d := Reclosed(c, index);
    forall i | 0 <= i < |d.entries| ensures EntryFiles(d.entries[i], SiteOf(disk, d.entries[i].uuid)) {
      assert EntryFiles(c.entries[i], SiteOf(disk, c.entries[i].uuid));
    }
  }

  /** Without such a write, a state that looks the same can hide an older catalog without the quiesce. */
  lemma HiddenOlderCatalog(w: World, index: nat) returns (v: World)
    requires Inv(w) && HasEntry(w, index, Quiescing) && !WrittenSinceStart(w.mem.value)
    ensures Inv(v) && LooksLike(v, w) && !DurablyQuiescing(v.disk, index)
    ensures FilesOk(w) ==> FilesOk(v)
  {
    hide CatalogOk, CatalogFiles, SlotOk, ClosedUnfenced, QuiescingIn;
    var c := w.disk.catalog;
    assert QuiescingIn(c, index) by {
      EntryIsQuiescing(w, index);
    }
    var closed := Reclosed(c, index);
    ReclosedOk(c, index);
    v := w.(disk := w.disk.(older := [closed]));
    assert Versions(v.disk) == [closed, c];
    assert !QuiescingIn(Versions(v.disk)[0], index);
    if FilesOk(w) {
      SameSites(c, w.disk, v.disk);
      ReclosedFiles(c, index, v.disk);
    }
  }

  lemma EntryIsQuiescing(w: World, index: nat)
    requires Inv(w) && HasEntry(w, index, Quiescing)
    ensures QuiescingIn(w.disk.catalog, index)
  {
    hide CatalogOk, VersionsOk;
  }

  lemma SameUuids(c: Catalog, index: nat, phase: Phase)
    requires index < |c.entries|
    ensures Uuids(c.(entries := c.entries[index := c.entries[index].(phase := phase)])) == Uuids(c)
  {
    var d := c.(entries := c.entries[index := c.entries[index].(phase := phase)]);
    forall u ensures u in Uuids(d) <==> u in Uuids(c) {
      if u in Uuids(c) {
        var i :| 0 <= i < |c.entries| && c.entries[i].uuid == u;
        assert d.entries[i] in d.entries && d.entries[i].uuid == u;
      }
      if u in Uuids(d) {
        var i :| 0 <= i < |d.entries| && d.entries[i].uuid == u;
        assert c.entries[i] in c.entries && c.entries[i].uuid == u;
      }
    }
  }

  /** So for everything a manager can show: its visible quiesce is durable, whatever the disk holds behind
      what it sees, if and only if it has completed a catalog write since its start. */
  lemma VisibleQuiesceIsDurableIff(w: World, index: nat)
    requires Inv(w) && HasEntry(w, index, Quiescing)
    ensures WrittenSinceStart(w.mem.value) <==>
            forall v: World :: Inv(v) && LooksLike(v, w) ==> DurablyQuiescing(v.disk, index)
  {
    hide Inv, DurablyQuiescing;
    if WrittenSinceStart(w.mem.value) {
      forall v: World | Inv(v) && LooksLike(v, w) ensures DurablyQuiescing(v.disk, index) {
        WrittenMeansDurable(v, index);
      }
    } else {
      var v := HiddenOlderCatalog(w, index);
    }
  }

  // ---- the same over whole runs ----

  /** A catalog whose last change made the entry Quiescing was written by that quiesce. */
  lemma {:induction false} QuiesceWasWritten(ws: seq<World>, moves: seq<Move>, index: nat, j: nat, k: nat)
      returns (i: nat)
    requires IsRunFromFresh(ws, moves) && j < |ws| && k < |Versions(ws[j].disk)|
    requires var d := Versions(ws[j].disk)[k]; QuiescingIn(d, index) && d.entries[index].changedAt == d.generation
    ensures i < j && moves[i].Write? && moves[i].index == index && moves[i].change == Quiesce && !moves[i].fate.Refused?
    ensures Changed(ws[i].mem.value.catalog, index, Quiesce) == Versions(ws[j].disk)[k]
    decreases j
  {
    hide Inv, Step, Enabled;
    FreshInv(ws[0].disk.catalog.limits);
    if j > 0 {
      var d := Versions(ws[j].disk)[k];
      var before := Versions(ws[j - 1].disk);
      RunKeepsInv(ws, moves, j - 1);
      VersionsAfter(ws[j - 1], moves[j - 1], k);
      if p :| 0 <= p < |before| && before[p] == d {
        i := QuiesceWasWritten(ws, moves, index, j - 1, p);
      } else {
        i := j - 1;
        LastChange(ws[i], moves[i], index);
      }
    }
  }

  lemma LastChange(w: World, move: Move, index: nat)
    requires Inv(w) && Enabled(w, move) && move.Write?
    requires var d := Changed(w.mem.value.catalog, move.index, move.change);
      QuiescingIn(d, index) && d.entries[index].changedAt == d.generation
    ensures move.index == index && move.change == Quiesce
  {
    hide MatchesEvidence, Located, EvidenceOf, SiteOf, VersionsOk;
    var c := w.mem.value.catalog;
    assert index < |c.entries| ==> c.entries[index].changedAt <= c.generation;
  }

  /** Killed after an unsynced write and started again. */
  function Restarted(w: World, index: nat): World
    requires Enabled(w, Write(index, Quiesce, Uncertain(Unsynced)))
  {
    Step(Step(Step(w, Write(index, Quiesce, Uncertain(Unsynced))), Crash({}, None)), Boot)
  }

  /** A run that gets as far as `i`, has its quiesce left unsynced, is killed and starts again. */
  lemma UnsyncedTwin(ws: seq<World>, moves: seq<Move>, index: nat, i: nat)
    returns (vs: seq<World>, ns: seq<Move>)
    requires IsRunFromFresh(ws, moves) && i < |moves|
    requires moves[i].Write? && moves[i].index == index && moves[i].change == Quiesce && !moves[i].fate.Refused?
    ensures IsRunFromFresh(vs, ns) && (Undisturbed(moves) ==> Undisturbed(ns))
    ensures Enabled(ws[i], Write(index, Quiesce, Uncertain(Unsynced))) && vs[|vs| - 1] == Restarted(ws[i], index)
  {
    hide Warranted;
    var write := Write(index, Quiesce, Uncertain(Unsynced));
    var first := Step(ws[i], write);
    var killed := Step(first, Crash({}, None));
    hide Step, Enabled, Inv;
    vs, ns := ws[..i + 1], moves[..i];
    vs, ns := Extend(vs, ns, write, first), ns + [write];
    vs, ns := Extend(vs, ns, Crash({}, None), killed), ns + [Crash({}, None)];
    vs, ns := Extend(vs, ns, Boot, Step(killed, Boot)), ns + [Boot];
  }

  ghost function Extend(ws: seq<World>, moves: seq<Move>, move: Move, v: World): (vs: seq<World>)
    requires IsRunFromFresh(ws, moves) && Enabled(ws[|ws| - 1], move) && v == Step(ws[|ws| - 1], move)
    ensures IsRunFromFresh(vs, moves + [move]) && vs[|vs| - 1] == v
  {
    RunExtends(ws, moves, move, v);
    ws + [v]
  }

  /** A manager that shows the same catalog since the same start. */
  predicate ShowsSame(v: World, w: World) {
    && Usable(v) && Usable(w)
    && v.mem.value.catalog == w.mem.value.catalog && v.mem.value.loaded == w.mem.value.loaded
  }

  ghost predicate DurableInEveryRun(w: World, index: nat) {
    forall vs: seq<World>, ns: seq<Move> :: IsRunFromFresh(vs, ns) && ShowsSame(vs[|vs| - 1], w) ==>
        DurablyQuiescing(vs[|vs| - 1].disk, index)
  }

  /** Over all runs, for a quiesce that is the catalog's last change (its receipt carries the catalog's own
      generation): it is durable in every run that leads to a manager showing this catalog if and only if
      the manager has completed a catalog write since its start. */
  lemma LastQuiesceIsDurableIff(ws: seq<World>, moves: seq<Move>, index: nat)
    requires IsRunFromFresh(ws, moves) && HasEntry(ws[|ws| - 1], index, Quiescing)
    requires var c := ws[|ws| - 1].mem.value.catalog; c.entries[index].changedAt == c.generation
    ensures WrittenSinceStart(ws[|ws| - 1].mem.value) <==> DurableInEveryRun(ws[|ws| - 1], index)
  {
    var last := |ws| - 1;
    var w := ws[last];
    hide Inv, DurablyQuiescing, Step, Enabled;
    FreshInv(ws[0].disk.catalog.limits);
    RunKeepsInv(ws, moves, last);
    if WrittenSinceStart(w.mem.value) {
      forall vs: seq<World>, ns: seq<Move> | IsRunFromFresh(vs, ns) && ShowsSame(vs[|vs| - 1], w)
        ensures DurablyQuiescing(vs[|vs| - 1].disk, index)
      {
        FreshInv(vs[0].disk.catalog.limits);
        RunKeepsInv(vs, ns, |vs| - 1);
        WrittenMeansDurable(vs[|vs| - 1], index);
      }
    } else {
      MemoryIsVisible(w);
      assert Versions(w.disk)[|w.disk.older|] == w.disk.catalog;
      var i := QuiesceWasWritten(ws, moves, index, last, |w.disk.older|);
      RunKeepsInv(ws, moves, i);
      var vs, ns := UnsyncedTwin(ws, moves, index, i);
      VisibleQuiesceCanBeLost(ws[i], index);
      RestartedShows(ws[i], index);
      assert ShowsSame(vs[|vs| - 1], w);
    }
  }

  lemma MemoryIsVisible(w: World)
    requires Inv(w) && Usable(w)
    ensures w.mem.value.catalog == w.disk.catalog && w.mem.value.loaded <= w.mem.value.catalog.generation
  {
  }

  lemma RestartedShows(w: World, index: nat)
    requires Inv(w) && Enabled(w, Write(index, Quiesce, Uncertain(Unsynced)))
    ensures var v := Restarted(w, index);
      var next := Changed(w.mem.value.catalog, index, Quiesce);
      Usable(v) && v.mem.value.catalog == next && v.mem.value.loaded == next.generation
  {
  }

  /** And a durable one holds through every move, crash or restart, until its completion is written. */
  lemma DurableQuiesceHolds(w: World, move: Move, index: nat)
    requires Inv(w) && Enabled(w, move) && DurablyQuiescing(w.disk, index)
    requires !(move.Write? && move.index == index)
    ensures DurablyQuiescing(Step(w, move).disk, index)
  {
    hide VersionsOk, CatalogOk, MatchesEvidence, Located, EvidenceOf, SiteOf;
    assert Versions(w.disk)[|w.disk.older|] == w.disk.catalog;
    var v := Step(w, move);
    forall k | 0 <= k < |Versions(v.disk)| ensures QuiescingIn(Versions(v.disk)[k], index) {
      VersionsAfter(w, move, k);
    }
  }
}

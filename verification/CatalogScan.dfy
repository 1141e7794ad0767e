/** The scan ceiling: the entries that a scan of the root counts, against the limits that the manager
    accepts. */
module CatalogScan {
  import opened Common
  import opened Catalogs
  import opened CatalogRuns

  /** The lock, the catalog, and the two directories of repository places. */
  const FIXED_ENTRIES: nat := 4

  function StagedPlaces(disk: Disk): set<Uuid> {
    set u | u in disk.sites && disk.sites[u].staged.Some?
  }

  function PublishedPlaces(disk: Disk): set<Uuid> {
    set u | u in disk.sites && disk.sites[u].published.Some?
  }

  /** What a scan counts when `temps` temporary catalog files have been left behind by failed writes. */
  function Scanned(disk: Disk, temps: nat): nat {
    FIXED_ENTRIES + temps + |StagedPlaces(disk)| + |PublishedPlaces(disk)|
  }

  /** No repository has a directory in both places. */
  predicate OnePlaceEach(disk: Disk) {
    forall u :: u in disk.sites ==> disk.sites[u].staged.None? || disk.sites[u].published.None?
  }

  lemma StepKeepsOnePlace(w: World, move: Move)
    requires Inv(w) && FilesOk(w) && Enabled(w, move) && !move.Tamper? && OnePlaceEach(w.disk)
    ensures OnePlaceEach(Step(w, move).disk)
  {
    hide Inv, CatalogFiles, Warranted;
    match move
    case MakeStaging(index, _) =>
      assert SiteOf(w.disk, w.mem.value.catalog.entries[index].uuid).published.None?;
    case FillStore(index, _) =>
      assert SiteOf(w.disk, w.mem.value.catalog.entries[index].uuid).published.None?;
    case _ =>
  }

  lemma {:induction false} RunKeepsOnePlace(ws: seq<World>, moves: seq<Move>, i: nat)
    requires IsRunFromFresh(ws, moves) && Undisturbed(moves) && i < |ws|
    ensures OnePlaceEach(ws[i].disk)
  {
    hide Inv, FilesOk, Enabled, Step;
    if i > 0 {
      RunKeepsOnePlace(ws, moves, i - 1);
      CrashSafety(ws, moves, i - 1);
      StepKeepsOnePlace(ws[i - 1], moves[i - 1]);
    }
  }

  lemma {:induction false} UuidsCount(entries: seq<Entry>)
    ensures |set e | e in entries :: e.uuid| <= |entries|
  {
    var all := set e | e in entries :: e.uuid;
    if entries == [] {
      assert all == {};
    } else {
      var rest := set e | e in entries[1..] :: e.uuid;
      UuidsCount(entries[1..]);
      assert all == rest + {entries[0].uuid} by {
        assert forall e :: e in entries <==> e in entries[1..] || e == entries[0];
      }
    }
  }

  lemma SubsetIsSmaller<T>(a: set<T>, b: set<T>)
    requires a <= b
    ensures |a| <= |b|
  {
    assert |b - a| == |b| - |a|;
  }

  /** Directories are never more than entries. */
  lemma PlacesFit(w: World)
    requires FilesOk(w) && OnePlaceEach(w.disk)
    ensures |StagedPlaces(w.disk)| + |PublishedPlaces(w.disk)| <= |w.disk.catalog.entries|
  {
    var staged, published := StagedPlaces(w.disk), PublishedPlaces(w.disk);
    assert staged !! published;
    assert |staged + published| == |staged| + |published|;
    SubsetIsSmaller(staged + published, w.disk.sites.Keys);
    SubsetIsSmaller(w.disk.sites.Keys, Uuids(w.disk.catalog));
    UuidsCount(w.disk.catalog.entries);
  }

  /** In every undisturbed run, whatever crashes fall where: as long as failed writes have left no more
      temporary files than the limits allow beyond `repositories + 5`, the scan before a catalog write
      always has room for it, and the scan before a creation that the repository limit admits has room for
      the staging directory as well. With no failed write at all, that is every state. */
  lemma ScanAlwaysHasRoom(ws: seq<World>, moves: seq<Move>, i: nat, temps: nat)
    requires IsRunFromFresh(ws, moves) && Undisturbed(moves) && i < |ws|
    requires var l := ws[i].disk.catalog.limits; temps + l.repositories + 5 <= l.scanEntries
    ensures var c := ws[i].disk.catalog;
      && Scanned(ws[i].disk, temps) + 1 <= c.limits.scanEntries
      && (|c.entries| < c.limits.repositories ==> Scanned(ws[i].disk, temps) + 2 <= c.limits.scanEntries)
  {
    RunKeepsOnePlace(ws, moves, i);
    CrashSafety(ws, moves, i);
    PlacesFit(ws[i]);
  }

  /** The ceiling that every manager starts with leaves room for no temporary file at the limit of
      repositories: the smallest accepted ceiling is also the smallest that works. */
  lemma SmallestCeilingIsTight(ws: seq<World>, moves: seq<Move>, i: nat)
    requires IsRunFromFresh(ws, moves) && Undisturbed(moves) && i < |ws|
    requires var c := ws[i].disk.catalog;
      && c.limits.scanEntries == c.limits.repositories + 5 && |c.entries| == c.limits.repositories
      && (forall k :: 0 <= k < |c.entries| ==> Created(c.entries[k].phase))
    ensures Scanned(ws[i].disk, 0) + 1 == ws[i].disk.catalog.limits.scanEntries
  {
    RunKeepsOnePlace(ws, moves, i);
    CrashSafety(ws, moves, i);
    PlacesFit(ws[i]);
    CreatedHavePlaces(ws[i]);
  }

  lemma CreatedHavePlaces(w: World)
    requires Inv(w) && FilesOk(w)
    requires var c := w.disk.catalog; forall k :: 0 <= k < |c.entries| ==> Created(c.entries[k].phase)
    ensures |PublishedPlaces(w.disk)| >= |w.disk.catalog.entries|
  {
    var c := w.disk.catalog;
    forall k | 0 <= k < |c.entries| ensures c.entries[k].uuid in PublishedPlaces(w.disk) {
      assert EntryFiles(c.entries[k], SiteOf(w.disk, c.entries[k].uuid));
    }
    DistinctCount(c.entries, PublishedPlaces(w.disk));
  }

  lemma {:induction false} DistinctCount(entries: seq<Entry>, places: set<Uuid>)
    requires forall i, j :: 0 <= i < j < |entries| ==> entries[i].uuid != entries[j].uuid
    requires forall k :: 0 <= k < |entries| ==> entries[k].uuid in places
    ensures |places| >= |entries|
  {
    if entries != [] {
      DistinctCount(entries[1..], places - {entries[0].uuid});
    }
  }
}

/** The reconciliation that mount runs over the metadata, the local directory and the manifest. */
module Startup {
  import opened Bytes
  import opened Store
  import W = World
  import Lifecycle
  import Serving
  import BlockRead
  import FP = FetchPolicy

  datatype LocalFile = LocalFile(size: nat, modified: int)

  /** The local directory: regular files, and the subdirectories that a stat also finds. */
  datatype Dir = Dir(files: map<string, LocalFile>, subdirs: set<string>)

  predicate Exists(dir: Dir, n: string) { n in dir.files || n in dir.subdirs }

  /** What may fail while a file system is mounted, by name: every failure is passed over. */
  datatype Faults = Faults(
    unseen: set<string>,       // directory entries whose stat fails during the scan
    unswept: set<string>,      // stale files that cannot be deleted
    scanLookups: set<string>,  // lookups of scanned files
    scanUpserts: set<string>,  // updates of their rows
    kept: set<string>,         // orphans that are not listed, or cannot be told to be orphans, or not be deleted
    listLookups: set<string>,  // lookups of listed files
    listUpserts: set<string>)  // updates of their rows

  const NO_FAULTS := Faults({}, {}, {}, {}, {}, {}, {})

  /** Zero-byte files that are no block files are deleted during the scan. */
  predicate Stale(dir: Dir, n: string) { n in dir.files && !IsBlockOrUndo(n) && dir.files[n].size == 0 }

  predicate IsSwept(dir: Dir, faults: Faults, n: string) {
    Stale(dir, n) && n !in faults.unseen && n !in faults.unswept
  }

  function Swept(dir: Dir, faults: Faults): Dir {
    dir.(files := map n | n in dir.files && !IsSwept(dir, faults, n) :: dir.files[n])
  }

  predicate LocalBlockFile(dir: Dir, n: string) { n in dir.files && IsBlockOrUndo(n) }

  function ScannedRow(f: LocalFile, now: int): Row {
    Row(Active, Local, f.size, None, f.modified, now, 0, 0)
  }

  /** mergeLocalScanEntry: a known row keeps its heights only. */
  function Merged(existing: Option<Row>, scanned: Row): Row {
    match existing
    case None => scanned
    case Some(row) =>
      var merged := row.(state := scanned.state, source := scanned.source, size := scanned.size,
                         created := scanned.created, access := scanned.access);
      if scanned.state == Active then merged.(sha := None) else merged
  }

  function RowOf(rows: Rows, n: string): Option<Row> { if n in rows then Some(rows[n]) else None }

  /** What a lookup delivers: a failing one passes for a missing row. */
  function LookedUp(row: Option<Row>, fails: bool): Option<Row> { if fails then None else row }

  /** The rows of the local block files that the scan sees. */
  function Scanned(dir: Dir, faults: Faults, now: int): map<string, Row> {
    map n | n in dir.files && IsBlockOrUndo(n) && n !in faults.unseen :: ScannedRow(dir.files[n], now)
  }

  /** What the first loop makes of one row. */
  function MergedRow(row: Option<Row>, found: map<string, Row>, faults: Faults, n: string): Option<Row> {
    if n in found && n !in faults.scanUpserts then Some(Merged(LookedUp(row, n in faults.scanLookups), found[n]))
    else row
  }

  function AfterScan(rows: Rows, dir: Dir, now: int, faults: Faults): Rows {
    var found := Scanned(dir, faults, now);
    map n | n in rows.Keys + found.Keys && MergedRow(RowOf(rows, n), found, faults, n).Some? ::
      MergedRow(RowOf(rows, n), found, faults, n).value
  }

  /** Whether the second loop removes a row. */
  predicate Orphan(row: Option<Row>, dir: Dir, faults: Faults, n: string) {
    row.Some? && row.value.state == Active && n != ".lock" && !Exists(dir, n) && n !in faults.kept
  }

  function AfterOrphans(rows: Rows, dir: Dir, faults: Faults): Rows {
    map n | n in rows && !Orphan(Some(rows[n]), dir, faults, n) :: rows[n]
  }

  /** What the manifest loop makes of one row that it finds. */
  function Registered(existing: Option<Row>, f: Listed, now: int): Row {
    match existing
    case None => Row(Remote, Server, f.size, f.sha, now, now, 0, 0)
    case Some(row) =>
      if (row.state == Remote || row.state == Cached) && (row.size != f.size || (f.sha.Some? && row.sha != f.sha))
      then row.(size := f.size, sha := if f.sha.Some? then f.sha else row.sha, access := now)
      else row
  }

  function AfterListing(rows: Rows, f: Listed, now: int, faults: Faults): Rows {
    if f.name in faults.listUpserts then rows
    else rows[f.name := Registered(LookedUp(RowOf(rows, f.name), f.name in faults.listLookups), f, now)]
  }

  function AfterManifest(rows: Rows, files: seq<Listed>, now: int, faults: Faults): Rows
    decreases |files|
  {
    if files == [] then rows else AfterManifest(AfterListing(rows, files[0], now, faults), files[1..], now, faults)
  }

  function Started(rows: Rows, dir: Dir, files: seq<Listed>, now: int, faults: Faults): Rows {
    AfterManifest(AfterOrphans(AfterScan(rows, dir, now, faults), Swept(dir, faults), faults), files, now, faults)
  }

  /** The row of one name while the scan results are merged in. */
  predicate MergedAt(before: Rows, found: map<string, Row>, faults: Faults, todo: set<string>, rows: Rows, n: string) {
    RowOf(rows, n) == if n in todo then RowOf(before, n) else MergedRow(RowOf(before, n), found, faults, n)
  }

  lemma MergedIsAfterScan(before: Rows, dir: Dir, now: int, faults: Faults, rows: Rows)
    requires forall n :: MergedAt(before, Scanned(dir, faults, now), faults, {}, rows, n)
    ensures rows == AfterScan(before, dir, now, faults)
  {
    hide Merged, IsBlockOrUndo;
    var found := Scanned(dir, faults, now);
    var rows' := AfterScan(before, dir, now, faults);
    forall n
      ensures RowOf(rows, n) == RowOf(rows', n)
    {
      assert MergedAt(before, found, faults, {}, rows, n);
    }
    assert forall n :: n in rows <==> RowOf(rows, n).Some?;
  }

  class Mounter {
    var rows: Rows
    var dir: Dir

    constructor (rows: Rows, dir: Dir)
      ensures this.rows == rows && this.dir == dir
    {
      this.rows, this.dir := rows, dir;
    }

    /** ScanLocalFiles: the rows of the local block files; stale files are removed on the way. */
    method ScanLocalFiles(now: int, faults: Faults) returns (found: map<string, Row>)
      modifies this`dir
      ensures dir == Swept(old(dir), faults)
      ensures found == Scanned(old(dir), faults, now)
    {
      hide IsBlockOrUndo;
      found := map[];
      var before := dir;
      var todo := before.files.Keys;
      while todo != {}
        invariant todo <= before.files.Keys
        invariant dir == before.(files := map n |
                    n in before.files && (n in todo || !IsSwept(before, faults, n)) :: before.files[n])
        invariant found == map n | n in before.files && n !in todo && IsBlockOrUndo(n) && n !in faults.unseen ::
                             ScannedRow(before.files[n], now)
        decreases |todo|
      {
        var n :| n in todo;
        todo := todo - {n};
        if n in faults.unseen {
          continue;
        }
        var info := before.files[n];
        if !IsBlockOrUndo(n) {
          if info.size == 0 && n !in faults.unswept {
            dir := dir.(files := dir.files - {n});
          }
        } else {
          found := found[n := ScannedRow(info, now)];
        }
      }
    }

    method MergeLocalFiles(found: map<string, Row>, faults: Faults)
      modifies this`rows
      ensures forall n :: MergedAt(old(rows), found, faults, {}, rows, n)
    {
      hide Merged;
      var todo := found.Keys;
      while todo != {}
        invariant todo <= found.Keys && forall n :: MergedAt(old(rows), found, faults, todo, rows, n)
        decreases |todo|
      {
        var n :| n in todo;
        assert MergedAt(old(rows), found, faults, todo, rows, n);
        ghost var before, left := rows, todo;
        todo := todo - {n};
        var existing := LookedUp(RowOf(rows, n), n in faults.scanLookups);
        if n !in faults.scanUpserts {
          rows := rows[n := Merged(existing, found[n])];
        }
        forall k
          ensures MergedAt(old(rows), found, faults, todo, rows, k)
        {
          assert MergedAt(old(rows), found, faults, left, before, k);
        }
      }
    }

    method RemoveOrphans(faults: Faults)
      modifies this`rows
      ensures rows == AfterOrphans(old(rows), dir, faults)
    {
      var before := rows;
      var active := set n | n in before && before[n].state == Active;
      var todo := active;
      while todo != {}
        invariant todo <= active
        invariant rows == map n | n in before && (n in todo || !Orphan(Some(before[n]), dir, faults, n)) :: before[n]
        decreases |todo|
      {
        var n :| n in todo;
        todo := todo - {n};
        if n != ".lock" && n !in faults.kept && !Exists(dir, n) {
          rows := rows - {n};
        }
      }
    }

    method RegisterManifest(files: seq<Listed>, now: int, faults: Faults)
      modifies this`rows
      ensures rows == AfterManifest(old(rows), files, now, faults)
    {
      hide AfterListing;
      for i := 0 to |files|
        invariant AfterManifest(rows, files[i..], now, faults) == AfterManifest(old(rows), files, now, faults)
      {
        assert files[i..][1..] == files[i + 1..];
        RegisterFile(files[i], now, faults);
      }
    }

    /** The body of the manifest loop. */
    method RegisterFile(f: Listed, now: int, faults: Faults)
      modifies this`rows
      ensures rows == AfterListing(old(rows), f, now, faults)
    {
      var stores := f.name !in faults.listUpserts;
      var found := LookedUp(RowOf(rows, f.name), f.name in faults.listLookups);
      if found == None {
        if stores {
          rows := rows[f.name := Row(Remote, Server, f.size, f.sha, now, now, 0, 0)];
        }
        return;
      }
      var existing := found.value;
      if existing.state == Remote || existing.state == Cached {
        if existing.size != f.size || (f.sha != None && existing.sha != f.sha) {
          existing := existing.(size := f.size);
          if f.sha != None {
            existing := existing.(sha := f.sha);
          }
          if stores {
            rows := rows[f.name := existing.(access := now)];
          }
          return;
        }
      }
      assert rows[f.name := existing] == rows;
    }

    method Execute(files: seq<Listed>, now: int, faults: Faults)
      modifies this
      ensures dir == Swept(old(dir), faults)
      ensures rows == Started(old(rows), old(dir), files, now, faults)
    {
      hide IsBlockOrUndo, Merged, AfterManifest, AfterOrphans, AfterScan, Scanned, MergedRow;
      var found := ScanLocalFiles(now, faults);
      ghost var before := rows;
      MergeLocalFiles(found, faults);
      forall n
        ensures MergedAt(before, found, faults, {}, rows, n)
      {
      }
      MergedIsAfterScan(old(rows), old(dir), now, faults, rows);
      RemoveOrphans(faults);
      RegisterManifest(files, now, faults);
    }
  }

  // One name

  /** Manifests list each name once. */
  predicate DistinctNames(files: seq<Listed>) {
    forall i, j :: 0 <= i < j < |files| ==> files[i].name != files[j].name
  }

  function ListingOf(files: seq<Listed>, n: string): (f: Option<Listed>)
    ensures f.Some? ==> f.value in files && f.value.name == n
    ensures f.None? <==> forall i :: 0 <= i < |files| ==> files[i].name != n
  {
    if files == [] then None else if files[0].name == n then Some(files[0]) else ListingOf(files[1..], n)
  }

  lemma {:induction false} ListedAt(files: seq<Listed>, i: nat)
    requires DistinctNames(files) && i < |files|
    ensures ListingOf(files, files[i].name) == Some(files[i])
  {
    if i > 0 {
      ListedAt(files[1..], i - 1);
    }
  }

  /** What the first two loops leave of one row. */
  function BaseRow(row: Option<Row>, n: string, dir: Dir, now: int, faults: Faults): Option<Row> {
    var merged := MergedRow(row, Scanned(dir, faults, now), faults, n);
    if Orphan(merged, Swept(dir, faults), faults, n) then None else merged
  }

  /** And the third. */
  function ListedRow(row: Option<Row>, listing: Option<Listed>, now: int, faults: Faults): Option<Row> {
    if listing.None? || listing.value.name in faults.listUpserts then row
    else Some(Registered(LookedUp(row, listing.value.name in faults.listLookups), listing.value, now))
  }

  function FinalRow(row: Option<Row>, n: string, dir: Dir, listing: Option<Listed>, now: int, faults: Faults)
    : Option<Row>
  {
    ListedRow(BaseRow(row, n, dir, now, faults), listing, now, faults)
  }

  lemma {:induction false} ManifestRow(rows: Rows, files: seq<Listed>, now: int, faults: Faults, n: string)
    requires DistinctNames(files)
    ensures RowOf(AfterManifest(rows, files, now, faults), n)
            == ListedRow(RowOf(rows, n), ListingOf(files, n), now, faults)
    decreases |files|
  {
    hide Registered;
    if files != [] {
      ManifestRow(AfterListing(rows, files[0], now, faults), files[1..], now, faults, n);
      if files[0].name == n {
        assert forall i :: 0 <= i < |files[1..]| ==> files[1..][i].name != n;
      }
    }
  }

  /** The row of a name behind all three loops depends on its own row, file and listing only. */
  lemma StartedRow(rows: Rows, dir: Dir, files: seq<Listed>, now: int, faults: Faults, n: string)
    requires DistinctNames(files)
    ensures RowOf(Started(rows, dir, files, now, faults), n)
            == FinalRow(RowOf(rows, n), n, dir, ListingOf(files, n), now, faults)
  {
    hide Merged, ListedRow, AfterManifest, Swept, Scanned;
    ManifestRow(AfterOrphans(AfterScan(rows, dir, now, faults), Swept(dir, faults), faults), files, now, faults, n);
  }

  // What holds behind the loops

  /** The scan reaches the row of a local block file. */
  predicate Rescanned(dir: Dir, faults: Faults, n: string) {
    LocalBlockFile(dir, n) && n !in faults.unseen && n !in faults.scanUpserts
  }

  /** A failed lookup makes the manifest loop overwrite the row. */
  predicate Clobbered(files: seq<Listed>, faults: Faults, n: string) {
    ListingOf(files, n).Some? && n in faults.listLookups && n !in faults.listUpserts
  }

  predicate ActiveLocally(row: Option<Row>, f: LocalFile) {
    && row.Some? && row.value.state == Active && row.value.source == Local && row.value.size == f.size
    && row.value.sha == None
  }

  /** The scan deletes empty files, and only those whose names are not blk or rev, a number, .dat; whatever else is in
      the directory stays. */
  lemma ScanDeletesIff(dir: Dir, faults: Faults, n: string)
    requires n in dir.files
    ensures n !in Swept(dir, faults).files
            <==> dir.files[n].size == 0 && !NamesNumbered(n) && n !in faults.unseen && n !in faults.unswept
    ensures n in Swept(dir, faults).files ==> Swept(dir, faults).files[n] == dir.files[n]
    ensures Swept(dir, faults).subdirs == dir.subdirs && Swept(dir, faults).files.Keys <= dir.files.Keys
  {
    hide IsBlockOrUndo, NamesNumbered;
    IsBlockOrUndoIff(n);
  }

  /** A local block file ends up active with its size on disk and no hash iff the scan reaches its row, or it was so
      before, and the manifest loop does not overwrite it. */
  lemma LocalFilesActiveIff(rows: Rows, dir: Dir, files: seq<Listed>, now: int, faults: Faults, n: string)
    requires DistinctNames(files) && n in dir.files && NamesNumbered(n)
    ensures ActiveLocally(RowOf(Started(rows, dir, files, now, faults), n), dir.files[n])
            <==> !Clobbered(files, faults, n)
                 && (|| (n !in faults.unseen && n !in faults.scanUpserts)
                     || ActiveLocally(RowOf(rows, n), dir.files[n]))
  {
    hide IsBlockOrUndo, NamesNumbered, Started;
    IsBlockOrUndoIff(n);
    StartedRow(rows, dir, files, now, faults, n);
  }

  /** A local file whose row was overwritten is lost to writers: they are given handles that drop what is written. */
  lemma ClobberedFileDropsWrites(rows: Rows, dir: Dir, files: seq<Listed>, now: int, faults: Faults, n: string,
                                 w: W.World, id: int, off: nat, data: Buf)
    requires DistinctNames(files) && LocalBlockFile(dir, n) && Clobbered(files, faults, n)
    requires w.rows == Started(rows, dir, files, now, faults)
    ensures n in w.rows && w.rows[n].state == Remote
    ensures var w1 := W.Open(w, id, n, true, false, false);
            && w1.handles == w.handles[id := W.NullWriter(n)]
            && W.Write(w1, id, off, data, false, |data|).local == w.local
  {
    hide IsBlockOrUndo, Started, BaseRow;
    StartedRow(rows, dir, files, now, faults, n);
  }

  /** An active row that is not the lock file has nothing behind it iff it was an orphan before and is not removed. */
  lemma OrphansLeftIff(rows: Rows, dir: Dir, files: seq<Listed>, now: int, faults: Faults, n: string)
    requires DistinctNames(files) && n != ".lock" && !Exists(Swept(dir, faults), n)
    ensures var rows' := Started(rows, dir, files, now, faults);
            n in rows' && rows'[n].state == Active
            <==> n in rows && rows[n].state == Active && n in faults.kept && !Clobbered(files, faults, n)
  {
    hide Started;
    StartedRow(rows, dir, files, now, faults, n);
  }

  /** Every listed name whose update does not fail has a row; archived ones carry the listed size and, where there is
      one, the listed hash. Where the update fails the row is what the first two loops left. */
  lemma ManifestRowsRegistered(rows: Rows, dir: Dir, files: seq<Listed>, now: int, faults: Faults, i: nat)
    requires DistinctNames(files) && i < |files|
    ensures var rows', n := Started(rows, dir, files, now, faults), files[i].name;
            if n in faults.listUpserts then RowOf(rows', n) == BaseRow(RowOf(rows, n), n, dir, now, faults)
            else n in rows' && (!IsLocal(rows'[n].state) ==>
              rows'[n].size == files[i].size && (files[i].sha.Some? ==> rows'[n].sha == files[i].sha))
  {
    hide BaseRow, Started;
    StartedRow(rows, dir, files, now, faults, files[i].name);
    ListedAt(files, i);
  }

  // Starting again

  /** The same row but for times and heights. */
  predicate SameRow(a: Option<Row>, b: Option<Row>) {
    && (a.None? <==> b.None?)
    && (a.Some? && b.Some? ==> a.value.state == b.value.state && a.value.source == b.value.source
                               && a.value.size == b.value.size && a.value.sha == b.value.sha)
  }

  /** The same row but for the access time. */
  predicate SameButAccess(a: Option<Row>, b: Option<Row>) {
    (a.None? <==> b.None?) && (a.Some? && b.Some? ==> a.value == b.value.(access := a.value.access))
  }

  lemma SweptAgain(dir: Dir, faults: Faults)
    ensures Swept(Swept(dir, faults), NO_FAULTS) == Swept(dir, NO_FAULTS)
  {
    hide IsBlockOrUndo;
  }

  lemma SweptKeepsBlockFiles(dir: Dir, faults: Faults, n: string)
    ensures LocalBlockFile(Swept(dir, faults), n) <==> LocalBlockFile(dir, n)
    ensures LocalBlockFile(dir, n) ==> Swept(dir, faults).files[n] == dir.files[n]
    ensures n in Swept(dir, faults).files ==> n in dir.files
  {
    hide IsBlockOrUndo;
  }

  /** Starting again on the same directory and manifest changes nothing but access times. */
  lemma StartTwice(rows: Rows, dir: Dir, files: seq<Listed>, now: int, later: int, n: string)
    requires DistinctNames(files)
    ensures var once := Started(rows, dir, files, now, NO_FAULTS);
            SameButAccess(RowOf(Started(once, Swept(dir, NO_FAULTS), files, later, NO_FAULTS), n), RowOf(once, n))
  {
    hide IsBlockOrUndo, Started, Swept;
    var once := Started(rows, dir, files, now, NO_FAULTS);
    StartedRow(rows, dir, files, now, NO_FAULTS, n);
    StartedRow(once, Swept(dir, NO_FAULTS), files, later, NO_FAULTS, n);
    SweptAgain(dir, NO_FAULTS);
    SweptKeepsBlockFiles(dir, NO_FAULTS, n);
  }

  /** What a start that overwrote a row cannot be healed from: a row that was there, was no local block file's, and said
      more than the listing does. */
  predicate BeyondHealing(rows: Rows, dir: Dir, files: seq<Listed>, now: int, faults: Faults, n: string) {
    var base := BaseRow(RowOf(rows, n), n, dir, now, NO_FAULTS);
    && Clobbered(files, faults, n) && !LocalBlockFile(dir, n)
    && base.Some? && (base.value.state != Remote || (ListingOf(files, n).value.sha.None? && base.value.sha.Some?))
  }

  /** Whatever failed in one start, another one without failures leaves every name as a single one without failures
      would have, exactly unless a row is beyond healing. */
  lemma StartHealsIff(rows: Rows, dir: Dir, files: seq<Listed>, now: int, later: int, faults: Faults, n: string)
    requires DistinctNames(files) && (n in rows ==> rows[n].source == SourceForState(rows[n].state))
    ensures var once := Started(rows, dir, files, now, faults);
            SameRow(RowOf(Started(once, Swept(dir, faults), files, later, NO_FAULTS), n),
                    RowOf(Started(rows, dir, files, now, NO_FAULTS), n))
            <==> !BeyondHealing(rows, dir, files, now, faults, n)
  {
    hide IsBlockOrUndo, Started, Swept;
    var once := Started(rows, dir, files, now, faults);
    StartedRow(rows, dir, files, now, faults, n);
    StartedRow(rows, dir, files, now, NO_FAULTS, n);
    StartedRow(once, Swept(dir, faults), files, later, NO_FAULTS, n);
    SweptAgain(dir, faults);
    SweptKeepsBlockFiles(dir, faults, n);
    SweptKeepsBlockFiles(dir, NO_FAULTS, n);
    SweptKeepsMore(dir, faults, n);
    SweptKeepsMore(dir, NO_FAULTS, n);
  }

  lemma SweptKeepsMore(dir: Dir, faults: Faults, n: string)
    ensures n in Swept(dir, NO_FAULTS).files ==> n in Swept(dir, faults).files
    ensures Swept(dir, faults).subdirs == dir.subdirs
  {
    hide IsBlockOrUndo;
  }

  // The start of a run

  /** The prior rows are consistent, and only active ones name anything but block files; the manifest lists nothing
      else. */
  predicate Ordinary(rows: Rows, files: seq<Listed>) {
    && (forall n :: n in rows ==>
          rows[n].source == SourceForState(rows[n].state) && (IsBlockOrUndo(n) || rows[n].state == Active))
    && (forall i :: 0 <= i < |files| ==> IsBlockOrUndo(files[i].name))
  }

  /** A local block file stays or becomes active; a row without one is not finalized, or overwritten. */
  predicate SoundStart(rows: Rows, dir: Dir, files: seq<Listed>, faults: Faults, n: string) {
    if LocalBlockFile(dir, n) then
      !Clobbered(files, faults, n)
      && (|| Rescanned(dir, faults, n)
          || (n in rows && rows[n].state == Active)
          || (n !in rows && (ListingOf(files, n).None? || n in faults.listUpserts)))
    else
      n in rows && rows[n].state == LocalFinalized ==> Clobbered(files, faults, n)
  }

  lemma OrdinaryListing(rows: Rows, files: seq<Listed>, n: string)
    requires Ordinary(rows, files)
    ensures ListingOf(files, n).Some? ==> IsBlockOrUndo(n)
    ensures n in rows ==> rows[n].source == SourceForState(rows[n].state)
                          && (IsBlockOrUndo(n) || rows[n].state == Active)
  {
    hide IsBlockOrUndo;
  }

  lemma StartedRowSound(rows: Rows, dir: Dir, files: seq<Listed>, now: int, faults: Faults, n: string)
    requires DistinctNames(files) && Ordinary(rows, files)
    ensures var rows' := Started(rows, dir, files, now, faults);
            SoundStart(rows, dir, files, faults, n) <==>
            (n in rows' ==>
               && rows'[n].source == SourceForState(rows'[n].state) && rows'[n].state != LocalFinalized
               && (!IsLocal(rows'[n].state) ==> n !in Swept(dir, faults).files))
  {
    hide IsBlockOrUndo, Started, Swept, Ordinary, DistinctNames;
    StartedRow(rows, dir, files, now, faults, n);
    OrdinaryListing(rows, files, n);
    SweptKeepsBlockFiles(dir, faults, n);
  }

  /** Startup hands the running file system a proper initial world exactly when, whatever failed, every local block file
      stays or becomes active, and no finalized row has lost its file without being overwritten. */
  lemma StartsARunIff(rows: Rows, dir: Dir, files: seq<Listed>, now: int, faults: Faults, w: W.World)
    requires DistinctNames(files) && Ordinary(rows, files)
    requires w.rows == Started(rows, dir, files, now, faults) && w.local.Keys == Swept(dir, faults).files.Keys
    requires w.handles == map[] && w.writers == map[]
    ensures Lifecycle.Initial(w) <==> forall n :: SoundStart(rows, dir, files, faults, n)
  {
    hide Started, Swept, Ordinary, DistinctNames, SoundStart;
    forall n
      ensures SoundStart(rows, dir, files, faults, n) <==>
              (n in w.rows ==>
                 && w.rows[n].source == SourceForState(w.rows[n].state) && w.rows[n].state != LocalFinalized
                 && (!IsLocal(w.rows[n].state) ==> n !in w.local))
    {
      StartedRowSound(rows, dir, files, now, faults, n);
    }
  }

  /** When nothing fails, that is: no finalized row has lost its file. */
  lemma SoundWithoutFaultsIff(rows: Rows, dir: Dir, files: seq<Listed>)
    requires Ordinary(rows, files)
    ensures (forall n :: SoundStart(rows, dir, files, NO_FAULTS, n))
            <==> forall n :: n in rows && rows[n].state == LocalFinalized ==> n in dir.files
  {
    hide IsBlockOrUndo;
    forall n
      ensures SoundStart(rows, dir, files, NO_FAULTS, n)
              <==> (n in rows && rows[n].state == LocalFinalized ==> n in dir.files)
    {
      OrdinaryListing(rows, files, n);
    }
  }

  // Cached copies

  /** The mounted manifest is the one that startup registers; it has a hash for every file. */
  predicate Lists(m: W.Mount, files: seq<Listed>) {
    forall i :: 0 <= i < |files| ==>
      files[i].sha.Some? && files[i].name in m.manifest && m.manifest[files[i].name].sha == files[i].sha
  }

  predicate IsListed(files: seq<Listed>, n: string) { exists i :: 0 <= i < |files| && files[i].name == n }

  /** What is archived, and every cached block file, is listed. */
  ghost predicate ArchiveListed(rows: Rows, files: seq<Listed>, cache: map<string, Buf>) {
    && (forall n :: n in rows && !IsLocal(rows[n].state) ==> IsListed(files, n))
    && (forall n :: n in cache && IsBlockOrUndo(n) ==> IsListed(files, n))
  }

  /** Cached copies with the hash of the server's file are the server's file. */
  predicate NoCacheCollision(m: W.Mount, cache: map<string, Buf>) {
    forall n :: n in cache && n in m.server && m.sha(cache[n]) == m.sha(m.server[n]) ==> cache[n] == m.server[n]
  }

  /** Every cached copy of a listed file has the listed hash. */
  predicate CacheCurrent(m: W.Mount, files: seq<Listed>, cache: map<string, Buf>) {
    forall i :: 0 <= i < |files| && files[i].name in cache ==> files[i].sha == Some(m.sha(cache[files[i].name]))
  }

  /** The row of an archived name kept a hash that is no longer the listed one, because its update failed. */
  predicate StaleRow(rows: Rows, dir: Dir, files: seq<Listed>, faults: Faults, n: string) {
    && ListingOf(files, n).Some? && n in faults.listUpserts
    && n in rows && !IsLocal(rows[n].state) && !Rescanned(dir, faults, n)
    && rows[n].sha.Some? && rows[n].sha != ListingOf(files, n).value.sha
  }

  predicate CurrentCopy(m: W.Mount, files: seq<Listed>, cache: map<string, Buf>, n: string) {
    ListingOf(files, n).Some? && n in cache ==> ListingOf(files, n).value.sha == Some(m.sha(cache[n]))
  }

  lemma ListingFacts(m: W.Mount, a: Serving.Archive, rows: Rows, files: seq<Listed>, cache: map<string, Buf>, n: string)
    requires Serving.Faithful(m, a) && DistinctNames(files) && Lists(m, files) && ArchiveListed(rows, files, cache)
    ensures ListingOf(files, n).Some? ==> n in m.server && ListingOf(files, n).value.sha == Some(m.sha(m.server[n]))
    ensures n in rows && !IsLocal(rows[n].state) ==> ListingOf(files, n).Some?
    ensures n in cache && IsBlockOrUndo(n) ==> ListingOf(files, n).Some?
  {
    hide IsBlockOrUndo, Serving.Faithful, Serving.MapOk;
    Serving.FaithfulAt(m, a, n);
  }

  /** One name, right after startup: no stale row, and nothing cached of it or the server's file. */
  lemma StartedAgreesIff(m: W.Mount, a: Serving.Archive, rows: Rows, dir: Dir, files: seq<Listed>, now: int,
        faults: Faults, w: W.World, n: string)
    requires Serving.Faithful(m, a) && DistinctNames(files) && Ordinary(rows, files) && Lists(m, files)
    requires ArchiveListed(rows, files, w.cache) && NoCacheCollision(m, w.cache)
    requires w.rows == Started(rows, dir, files, now, faults) && w.blockmaps == map[] && w.blocks == map[]
    ensures Serving.Agrees(m, a, w, n)
            <==> CurrentCopy(m, files, w.cache, n) && !StaleRow(rows, dir, files, faults, n)
  {
    hide IsBlockOrUndo, Started, Swept, Ordinary, DistinctNames, Lists, ArchiveListed, Serving.Faithful, Serving.MapOk,
        BlockRead.CacheAgrees;
    StartedRow(rows, dir, files, now, faults, n);
    OrdinaryListing(rows, files, n);
    ListingFacts(m, a, rows, files, w.cache, n);
    if n in m.server && n in a.maps {
      NothingCachedAgrees(m, a, n);
    }
  }

  lemma NothingCachedAgrees(m: W.Mount, a: Serving.Archive, n: string)
    requires n in m.server && n in a.maps
    ensures BlockRead.CacheAgrees(map[], n, Serving.ServedFile(m, a, n), a.maps[n])
  {
  }

  /** Startup hands over metadata and a cache that agree with the server exactly when every cached copy of a listed file
      has the listed hash, which it does not look at, and no archived row kept an old hash. */
  lemma StartsInAgreementIff(m: W.Mount, a: Serving.Archive, rows: Rows, dir: Dir, files: seq<Listed>, now: int,
        faults: Faults, w: W.World)
    requires Serving.Faithful(m, a) && DistinctNames(files) && Ordinary(rows, files) && Lists(m, files)
    requires ArchiveListed(rows, files, w.cache) && NoCacheCollision(m, w.cache)
    requires w.rows == Started(rows, dir, files, now, faults) && w.blockmaps == map[] && w.blocks == map[]
    ensures Serving.AllAgree(m, a, w)
            <==> CacheCurrent(m, files, w.cache) && forall n :: !StaleRow(rows, dir, files, faults, n)
  {
    hide Serving.Agrees, Serving.Faithful, Started, Lists, ArchiveListed, NoCacheCollision, Ordinary, DistinctNames,
        CurrentCopy, StaleRow, CacheCurrent;
    forall n
      ensures Serving.Agrees(m, a, w, n)
              <==> CurrentCopy(m, files, w.cache, n) && !StaleRow(rows, dir, files, faults, n)
    {
      StartedAgreesIff(m, a, rows, dir, files, now, faults, w, n);
    }
    CacheCurrentIff(m, files, w.cache);
  }

  lemma CacheCurrentIff(m: W.Mount, files: seq<Listed>, cache: map<string, Buf>)
    requires DistinctNames(files)
    ensures CacheCurrent(m, files, cache) <==> forall n :: CurrentCopy(m, files, cache, n)
  {
    hide DistinctNames, ListingOf;
    if forall n :: CurrentCopy(m, files, cache, n) {
      forall i | 0 <= i < |files| && files[i].name in cache
        ensures files[i].sha == Some(m.sha(cache[files[i].name]))
      {
        ListedAt(files, i);
        assert CurrentCopy(m, files, cache, files[i].name);
      }
    }
  }

  /** Where nothing fails and the rows recorded the hashes of their cached copies, that means: no listing of a cached
      file has changed. */
  lemma StartsInAgreementIffUnchanged(m: W.Mount, a: Serving.Archive, rows: Rows, dir: Dir, files: seq<Listed>,
        now: int, w: W.World)
    requires Serving.Faithful(m, a) && DistinctNames(files) && Ordinary(rows, files) && Lists(m, files)
    requires ArchiveListed(rows, files, w.cache) && NoCacheCollision(m, w.cache)
    requires w.rows == Started(rows, dir, files, now, NO_FAULTS) && w.blockmaps == map[] && w.blocks == map[]
    requires forall i :: 0 <= i < |files| && files[i].name in w.cache ==>
               files[i].name in rows && rows[files[i].name].sha == Some(m.sha(w.cache[files[i].name]))
    ensures Serving.AllAgree(m, a, w) <==>
            forall i :: 0 <= i < |files| && files[i].name in w.cache ==> rows[files[i].name].sha == files[i].sha
  {
    hide Serving.AllAgree, Serving.Faithful, Started, Lists, ArchiveListed, NoCacheCollision, Ordinary, DistinctNames;
    StartsInAgreementIff(m, a, rows, dir, files, now, NO_FAULTS, w);
  }

  /** A cached file whose listing changed gets the new size and hash, and its old bytes are served as before. */
  lemma StaleCopyServed(m: W.Mount, rows: Rows, dir: Dir, files: seq<Listed>, now: int, faults: Faults, w: W.World,
                        i: nat, id: int, off: nat, dest: Buf, env: W.ReadEnv)
    requires DistinctNames(files) && i < |files| && files[i].sha.Some?
    requires var n := files[i].name;
             && n in rows && rows[n].state == Cached && !LocalBlockFile(dir, n) && n in w.cache
             && n !in faults.listLookups && n !in faults.listUpserts
    requires w.rows == Started(rows, dir, files, now, faults) && env.cacheStop.None?
    ensures var n := files[i].name;
            var w1 := W.Open(w, id, n, false, false, false);
            && n in w.rows && w.rows[n].state == Cached && w.rows[n].sha == files[i].sha
                && w.rows[n].size == files[i].size
            && W.Read(m, w1, id, off, dest, env).0 == BlockRead.Data(Clip(w.cache[n], off, |dest|))
  {
    hide IsBlockOrUndo, Started, Swept, Clip;
    StartedRow(rows, dir, files, now, faults, files[i].name);
    ListedAt(files, i);
  }

  // Polling

  /** ManifestPoller.poll: added files overwrite any row, removed files lose theirs, except where the update fails. */
  function Polled(rows: Rows, added: map<string, Listed>, removed: set<string>, now: int, fails: set<string>): Rows {
    map n | n in rows.Keys + added.Keys && (if n in fails then n in rows else n !in removed) ::
      if n in added && n !in fails then Row(Remote, Server, added[n].size, added[n].sha, now, now, 0, 0) else rows[n]
  }

  /** Both startup and polling keep the source column in step with the state, whatever fails. */
  lemma SourcesSurviveStartAndPoll(rows: Rows, dir: Dir, files: seq<Listed>, now: int, faults: Faults,
                                   added: map<string, Listed>, removed: set<string>, fails: set<string>, n: string)
    requires forall k :: k in rows ==> rows[k].source == SourceForState(rows[k].state)
    requires DistinctNames(files)
    ensures var rows' := Started(rows, dir, files, now, faults);
            n in rows' ==> rows'[n].source == SourceForState(rows'[n].state)
    ensures var rows' := Polled(rows, added, removed, now, fails);
            n in rows' ==> rows'[n].source == SourceForState(rows'[n].state)
  {
    hide IsBlockOrUndo, Started, Swept;
    StartedRow(rows, dir, files, now, faults, n);
  }

  /** Polling is no step of the state machine: it takes a file that is being written straight to the archive. */
  lemma PollLeavesTheStateMachine(rows: Rows, n: string, f: Listed, now: int, fails: set<string>)
    requires n in rows
    ensures Allowed(rows[n].state, Polled(rows, map[n := f], {}, now, fails)[n].state)
            <==> rows[n].state != Active || n in fails
  {
    AllowedRaisesRank(rows[n].state, Remote);
  }

  /** What polling leaves: an added file is remote, with the listed size and hash; a removed one has no row; where the
      update fails, and everywhere else, the row stays. */
  lemma PollLeaves(rows: Rows, added: map<string, Listed>, removed: set<string>, now: int, fails: set<string>,
                   n: string)
    requires n in added ==> n !in removed
    ensures var rows' := Polled(rows, added, removed, now, fails);
            && (n in added && n !in fails ==>
                  && n in rows' && rows'[n].state == Remote && rows'[n].source == Server
                  && rows'[n].size == added[n].size && rows'[n].sha == added[n].sha)
            && (n in removed && n !in fails ==> n !in rows')
            && (n in fails || (n !in added && n !in removed) ==> RowOf(rows', n) == RowOf(rows, n))
  {
  }

  // Rows that startup keeps

  /** Apart from local block files, orphans and listings nothing is touched: a row that is none of these is the same
      afterwards, whatever fails. */
  lemma OtherRowsStay(rows: Rows, dir: Dir, files: seq<Listed>, now: int, faults: Faults, n: string)
    requires DistinctNames(files) && forall i :: 0 <= i < |files| ==> files[i].name != n
    requires n in dir.files ==> !NamesNumbered(n)
    requires n in rows && rows[n].state == Active ==> n == ".lock" || Exists(Swept(dir, faults), n)
    ensures RowOf(Started(rows, dir, files, now, faults), n) == RowOf(rows, n)
  {
    hide IsBlockOrUndo, NamesNumbered, Started, Swept;
    IsBlockOrUndoIff(n);
    StartedRow(rows, dir, files, now, faults, n);
  }

  /** A local block file that the scan reaches keeps the heights of its row, unless that is not found, and takes its
      creation time from the file. */
  lemma RescannedRow(rows: Rows, dir: Dir, files: seq<Listed>, now: int, faults: Faults, n: string)
    requires DistinctNames(files) && Rescanned(dir, faults, n) && !Clobbered(files, faults, n)
    ensures var rows' := Started(rows, dir, files, now, faults);
            && n in rows' && rows'[n].created == dir.files[n].modified && rows'[n].access == now
            && (n in rows && n !in faults.scanLookups ==>
                  rows'[n].heightFirst == rows[n].heightFirst && rows'[n].heightLast == rows[n].heightLast)
            && (n !in rows || n in faults.scanLookups ==> rows'[n].heightFirst == 0 && rows'[n].heightLast == 0)
  {
    hide IsBlockOrUndo, Started;
    StartedRow(rows, dir, files, now, faults, n);
  }

  /** A listed file without a row, and without a local file, gets one: remote, from the server. */
  lemma NewlyListed(rows: Rows, dir: Dir, files: seq<Listed>, now: int, faults: Faults, i: nat)
    requires DistinctNames(files) && i < |files| && files[i].name !in faults.listUpserts
    requires files[i].name !in rows && !LocalBlockFile(dir, files[i].name)
    ensures var rows', n := Started(rows, dir, files, now, faults), files[i].name;
            && n in rows' && rows'[n].state == Remote && rows'[n].source == Server
            && rows'[n].size == files[i].size && rows'[n].sha == files[i].sha
  {
    hide IsBlockOrUndo, Started, Swept;
    StartedRow(rows, dir, files, now, faults, files[i].name);
    ListedAt(files, i);
  }

  /** A listed file that is archived keeps its state, source and heights; its size and hash are the listed ones where
      there are any. */
  lemma ListedArchivedRow(rows: Rows, dir: Dir, files: seq<Listed>, now: int, faults: Faults, i: nat)
    requires DistinctNames(files) && i < |files| && !LocalBlockFile(dir, files[i].name)
    requires var n := files[i].name;
             n in rows && !IsLocal(rows[n].state) && n !in faults.listUpserts && n !in faults.listLookups
    ensures var rows', n := Started(rows, dir, files, now, faults), files[i].name;
            && n in rows'
            && rows'[n] == rows[n].(size := files[i].size, sha := rows'[n].sha, access := rows'[n].access)
            && rows'[n].sha == (if files[i].sha.Some? then files[i].sha else rows[n].sha)
  {
    hide IsBlockOrUndo, Started, Swept;
    StartedRow(rows, dir, files, now, faults, files[i].name);
    ListedAt(files, i);
  }
}

/** The server's sync loop: what it uploads to the bucket and which manifest it publishes. */
module Sync {
  import opened Bytes
  import opened Store
  import opened FinalizedScan
  import Startup

  type Manifest = seq<Listed>

  // Generating a manifest

  function HashCache(prev: Manifest): map<string, Listed> {
    if prev == [] then map[] else
      var last := prev[|prev| - 1];
      HashCache(prev[..|prev| - 1])[last.name := last]
  }

  /** Whether the cache has a hash for this name and size. */
  predicate Hit(cache: map<string, Listed>, f: DirFile) {
    f.name in cache && cache[f.name].size == |f.data| && cache[f.name].sha.Some?
  }

  /** What one cycle meets: the directory, the blockmap directory, if one is configured, and the operations that
      fail. */
  datatype Cycle = Cycle(
    dir: seq<DirFile>, maps: Option<map<string, Buf>>,
    scanFails: bool, listFails: bool, uploadFails: set<string>, mapUploadFails: set<string>,
    rescanFails: bool, hashFails: set<string>, mapStatFails: set<string>, mapHashFails: set<string>,
    manifestFails: bool)

  /** A blockmap for this file is seen. */
  predicate SeesMap(c: Cycle, n: string) { c.maps.Some? && n in c.maps.value && n !in c.mapStatFails }

  function ListedFile(sha: Sha, c: Cycle, cache: map<string, Listed>, f: DirFile): Listed {
    if Hit(cache, f)
    then Listed(f.name, |f.data|, cache[f.name].sha, if c.maps.Some? then cache[f.name].blockmapSha else None)
    else
      var blockmapSha := if SeesMap(c, f.name) then Some(sha(c.maps.value[f.name])) else None;
      Listed(f.name, |f.data|, Some(sha(f.data)), blockmapSha)
  }

  function CacheOf(prev: Option<Manifest>): map<string, Listed> {
    if prev.Some? then HashCache(prev.value) else map[]
  }

  function Generated(sha: Sha, c: Cycle, prev: Option<Manifest>): Manifest {
    seq(|Scan(c.dir)|, i requires 0 <= i < |Scan(c.dir)| => ListedFile(sha, c, CacheOf(prev), Scan(c.dir)[i]))
  }

  /** A manifest without its blockmap hashes. */
  function Plain(m: Manifest): (p: Manifest)
    ensures |p| == |m| && forall i :: 0 <= i < |m| ==> p[i] == m[i].(blockmapSha := None)
  {
    seq(|m|, i requires 0 <= i < |m| => m[i].(blockmapSha := None))
  }

  /** The manifest in which every file is hashed. */
  function FromScratch(sha: Sha, dir: seq<DirFile>): Manifest {
    seq(|Scan(dir)|, i requires 0 <= i < |Scan(dir)| =>
      var f := Scan(dir)[i]; Listed(f.name, |f.data|, Some(sha(f.data)), None))
  }

  /** A file that is not in the cache, or its blockmap, cannot be hashed. */
  predicate Unhashable(c: Cycle, cache: map<string, Listed>, f: DirFile) {
    !Hit(cache, f) && (f.name in c.hashFails || (SeesMap(c, f.name) && f.name in c.mapHashFails))
  }

  predicate GeneratingFails(c: Cycle, prev: Option<Manifest>) {
    c.rescanFails || exists f :: f in Scan(c.dir) && Unhashable(c, CacheOf(prev), f)
  }

  method GenerateManifest(sha: Sha, c: Cycle, prev: Option<Manifest>) returns (m: Option<Manifest>)
    ensures m == if GeneratingFails(c, prev) then None else Some(Generated(sha, c, prev))
  {
    hide Scan, Unhashable, ListedFile, HashCache;
    if c.rescanFails {
      return None;
    }
    var scanned := ScanFinalizedFiles(c.dir);
    var cache := BuildCache(prev);
    var slots, failed := FillSlots(sha, c, cache, scanned);
    if failed {
      return None;
    }
    assert slots == Generated(sha, c, prev);
    return Some(slots);
  }

  /** The entries of the previous manifest by name, later ones over earlier ones. */
  method BuildCache(prev: Option<Manifest>) returns (cache: map<string, Listed>)
    ensures cache == CacheOf(prev)
  {
    cache := map[];
    if prev.Some? {
      for i := 0 to |prev.value|
        invariant cache == HashCache(prev.value[..i])
      {
        assert prev.value[..i + 1][..i] == prev.value[..i];
        cache := cache[prev.value[i].name := prev.value[i]];
      }
      assert prev.value[..|prev.value|] == prev.value;
    }
  }

  /** One slot for each scanned file, unless one cannot be filled. */
  method FillSlots(sha: Sha, c: Cycle, cache: map<string, Listed>, scanned: seq<DirFile>)
    returns (filled: seq<Listed>, failed: bool)
    ensures failed <==> exists f :: f in scanned && Unhashable(c, cache, f)
    ensures !failed ==>
              && |filled| == |scanned|
              && forall i :: 0 <= i < |scanned| ==> filled[i] == ListedFile(sha, c, cache, scanned[i])
  {
    hide Unhashable, ListedFile;
    var slots := new Listed[|scanned|](_ => Listed("", 0, None, None));
    failed := false;
    for i := 0 to |scanned|
      invariant forall j :: 0 <= j < i && !Unhashable(c, cache, scanned[j]) ==>
                  slots[j] == ListedFile(sha, c, cache, scanned[j])
      invariant failed <==> exists j :: 0 <= j < i && Unhashable(c, cache, scanned[j])
    {
      var slot := FillSlot(sha, c, cache, scanned[i]);
      if slot.None? {
        failed := true;
      } else {
        slots[i] := slot.value;
      }
    }
    filled := slots[..];
  }

  /** The work on one file. */
  method FillSlot(sha: Sha, c: Cycle, cache: map<string, Listed>, f: DirFile) returns (slot: Option<Listed>)
    ensures slot == if Unhashable(c, cache, f) then None else Some(ListedFile(sha, c, cache, f))
  {
    var entry := Listed(f.name, |f.data|, None, None);
    if f.name in cache && cache[f.name].size == |f.data| && cache[f.name].sha != None {
      entry := entry.(sha := cache[f.name].sha);
      if c.maps != None && cache[f.name].blockmapSha != None {
        entry := entry.(blockmapSha := cache[f.name].blockmapSha);
      }
      return Some(entry);
    }
    if f.name in c.hashFails {
      return None;
    }
    entry := entry.(sha := Some(sha(f.data)));
    if c.maps.Some? && f.name in c.maps.value && f.name !in c.mapStatFails {
      if f.name in c.mapHashFails {
        return None;
      }
      entry := entry.(blockmapSha := Some(sha(c.maps.value[f.name])));
    }
    return Some(entry);
  }

  /** Reusing hashes gives the files as hashed from scratch exactly when every reused hash is still the file's own. */
  lemma GeneratedIffHitsFresh(sha: Sha, c: Cycle, prev: Option<Manifest>)
    ensures Plain(Generated(sha, c, prev)) == FromScratch(sha, c.dir)
            <==> forall f :: f in Scan(c.dir) && Hit(CacheOf(prev), f) ==>
                   CacheOf(prev)[f.name].sha == Some(sha(f.data))
  {
    hide Scan, CacheOf;
    var files, m, m' := Scan(c.dir), Plain(Generated(sha, c, prev)), FromScratch(sha, c.dir);
    assert forall i :: 0 <= i < |files| ==>
      (m[i] == m'[i] <==>
         (Hit(CacheOf(prev), files[i]) ==> CacheOf(prev)[files[i].name].sha == Some(sha(files[i].data))));
    if m == m' {
      forall f | f in files && Hit(CacheOf(prev), f)
        ensures CacheOf(prev)[f.name].sha == Some(sha(f.data))
      {
        var i :| 0 <= i < |files| && files[i] == f;
        assert m[i] == m'[i];
      }
    }
  }

  // One sync cycle

  /** The bucket, its published manifest and the syncer's memory of the manifest it last generated. */
  datatype Synced = Synced(objects: map<string, Buf>, manifest: Option<Manifest>, last: Option<Manifest>)

  datatype End = Idle | Incomplete | Failed | Published

  function BlockmapKey(name: string): string { name + ".blockmap" }

  /** uploadBlockmap has something to upload. */
  predicate HasMap(c: Cycle, name: string) {
    c.maps.Some? && Globs(name, "blk") && name in c.maps.value
  }

  predicate UploadFailed(c: Cycle, f: DirFile) {
    f.name in c.uploadFails || (HasMap(c, f.name) && f.name in c.mapUploadFails)
  }

  function Uploaded(objects: map<string, Buf>, c: Cycle, f: DirFile): map<string, Buf> {
    if f.name in c.uploadFails then objects
    else
      var stored := objects[f.name := f.data];
      if HasMap(c, f.name) && f.name !in c.mapUploadFails then stored[BlockmapKey(f.name) := c.maps.value[f.name]]
      else stored
  }

  function AllUploaded(objects: map<string, Buf>, c: Cycle, files: seq<DirFile>): map<string, Buf> {
    if files == [] then objects
    else Uploaded(AllUploaded(objects, c, files[..|files| - 1]), c, files[|files| - 1])
  }

  function Missing(keys: set<string>, files: seq<DirFile>): seq<DirFile> {
    Select(files, (f: DirFile) => f.name !in keys)
  }

  function After(sha: Sha, s: Synced, c: Cycle): (Synced, End) {
    var missing := Missing(s.objects.Keys, Scan(c.dir));
    if c.scanFails || c.listFails then (s, Failed)
    else if missing == [] then (s, Idle)
    else
      var s1 := s.(objects := AllUploaded(s.objects, c, missing));
      if exists f :: f in missing && UploadFailed(c, f) then (s1, Incomplete)
      else if GeneratingFails(c, s.last) then (s1, Failed)
      else
        var m := Some(Generated(sha, c, s.last));
        if c.manifestFails then (s1.(last := m), Failed) else (s1.(last := m, manifest := m), Published)
  }

  class Syncer {
    const sha: Sha
    var objects: map<string, Buf>
    var manifest: Option<Manifest>
    var lastManifest: Option<Manifest>

    function State(): Synced
      reads this
    {
      Synced(objects, manifest, lastManifest)
    }

    constructor (sha: Sha, objects: map<string, Buf>, manifest: Option<Manifest>)
      ensures State() == Synced(objects, manifest, None)
    {
      this.sha, this.objects, this.manifest, this.lastManifest := sha, objects, manifest, None;
    }

    method UploadFile(c: Cycle, f: DirFile) returns (failed: bool)
      modifies this`objects
      ensures objects == Uploaded(old(objects), c, f) && failed == UploadFailed(c, f)
    {
      hide Globs;
      if f.name in c.uploadFails {
        return true;
      }
      objects := objects[f.name := f.data];
      if c.maps.Some? && Globs(f.name, "blk") && f.name in c.maps.value {
        if f.name in c.mapUploadFails {
          return true;
        }
        objects := objects[BlockmapKey(f.name) := c.maps.value[f.name]];
      }
      failed := false;
    }

    method UploadAll(c: Cycle, files: seq<DirFile>) returns (failed: bool)
      modifies this`objects
      ensures objects == AllUploaded(old(objects), c, files)
      ensures failed <==> exists f :: f in files && UploadFailed(c, f)
    {
      hide Uploaded, UploadFailed;
      failed := false;
      for i := 0 to |files|
        invariant objects == AllUploaded(old(objects), c, files[..i])
        invariant failed <==> exists f :: f in files[..i] && UploadFailed(c, f)
      {
        assert files[..i + 1] == files[..i] + [files[i]];
        var fails := UploadFile(c, files[i]);
        failed := failed || fails;
      }
      assert files[..|files|] == files;
    }

    method Sync(c: Cycle) returns (end: End)
      modifies this
      ensures (State(), end) == After(sha, old(State()), c)
    {
      if c.scanFails {
        return Failed;
      }
      var localFiles := ScanFinalizedFiles(c.dir);
      if c.listFails {
        return Failed;
      }
      hide Scan, AllUploaded, UploadFailed, Generated, GeneratingFails;
      var keys := objects.Keys;
      var newFiles: seq<DirFile> := [];
      for i := 0 to |localFiles|
        invariant newFiles == Missing(keys, localFiles[..i])
      {
        assert localFiles[..i + 1][..i] == localFiles[..i];
        if localFiles[i].name !in keys {
          newFiles := newFiles + [localFiles[i]];
        }
      }
      assert localFiles[..|localFiles|] == localFiles;
      if newFiles == [] {
        return Idle;
      }
      var uploadFailed := UploadAll(c, newFiles);
      if uploadFailed {
        return Incomplete;
      }
      var m := GenerateManifest(sha, c, lastManifest);
      if m.None? {
        return Failed;
      }
      lastManifest := m;
      if c.manifestFails {
        return Failed;
      }
      manifest := m;
      end := Published;
    }
  }

  // Runs

  function Run(sha: Sha, s: Synced, run: seq<Cycle>): Synced {
    if run == [] then s else After(sha, Run(sha, s, run[..|run| - 1]), run[|run| - 1]).0
  }

  /** What a file of this name and size contains. */
  type Content = (string, nat) -> Buf

  predicate Fixed(content: Content, dir: seq<DirFile>) {
    forall f :: f in dir ==> f.data == content(f.name, |f.data|)
  }

  /** Every stored block file is some version of that file. */
  predicate Backed(content: Content, objects: map<string, Buf>) {
    forall n :: n in objects && HasSuffix(n, ".dat") ==> objects[n] == content(n, |objects[n]|)
  }

  predicate Honest(sha: Sha, content: Content, m: Manifest) {
    forall i :: 0 <= i < |m| ==> m[i].sha == Some(sha(content(m[i].name, m[i].size)))
  }

  predicate AllStored(objects: map<string, Buf>, m: Manifest) {
    forall i :: 0 <= i < |m| ==> m[i].name in objects
  }

  predicate Inv(sha: Sha, content: Content, s: Synced) {
    && Backed(content, s.objects)
    && (s.last.Some? ==> Honest(sha, content, s.last.value))
    && (s.manifest.Some? ==> AllStored(s.objects, s.manifest.value) && Honest(sha, content, s.manifest.value))
  }

  lemma {:induction false} CacheIsHonest(sha: Sha, content: Content, prev: Manifest, n: string)
    requires Honest(sha, content, prev)
    ensures n in HashCache(prev) ==> HashCache(prev)[n].sha == Some(sha(content(n, HashCache(prev)[n].size)))
  {
    if prev != [] {
      CacheIsHonest(sha, content, prev[..|prev| - 1], n);
    }
  }

  /** With contents fixed by name and size, remembered hashes are as good as fresh ones. */
  lemma GeneratedIsFromScratch(sha: Sha, content: Content, c: Cycle, prev: Option<Manifest>)
    requires Fixed(content, c.dir) && (prev.Some? ==> Honest(sha, content, prev.value))
    ensures Plain(Generated(sha, c, prev)) == FromScratch(sha, c.dir)
    ensures Honest(sha, content, Generated(sha, c, prev))
  {
    forall f | f in Scan(c.dir)
      ensures f in c.dir && (Hit(CacheOf(prev), f) ==> CacheOf(prev)[f.name].sha == Some(sha(f.data)))
    {
      ScanFindsFinalized(c.dir, f);
      if prev.Some? {
        CacheIsHonest(sha, content, prev.value, f.name);
      }
    }
    hide Scan;
    GeneratedIffHitsFresh(sha, c, prev);
    var m, p := Generated(sha, c, prev), FromScratch(sha, c.dir);
    assert forall i :: 0 <= i < |m| ==> Plain(m)[i] == p[i];
  }

  lemma {:induction false} UploadsKeep(content: Content, objects: map<string, Buf>, c: Cycle, files: seq<DirFile>)
    requires Backed(content, objects) && Fixed(content, files)
    ensures var objects' := AllUploaded(objects, c, files);
            && Backed(content, objects') && objects.Keys <= objects'.Keys
            && forall f :: f in files && !UploadFailed(c, f) ==> f.name in objects'
  {
    hide HasMap;
    if files != [] {
      var front, f := files[..|files| - 1], files[|files| - 1];
      assert files == front + [f];
      UploadsKeep(content, objects, c, front);
      KeyIsNoBlockFile(f.name);
    }
  }

  lemma KeyIsNoBlockFile(name: string)
    ensures !HasSuffix(BlockmapKey(name), ".dat")
  {
    var key := BlockmapKey(name);
    assert key[|key| - 4..] == "kmap";
  }

  lemma ScannedFilesStored(objects: map<string, Buf>, content: Content, c: Cycle)
    requires Backed(content, objects) && Fixed(content, c.dir)
    ensures var missing := Missing(objects.Keys, Scan(c.dir));
            var objects' := AllUploaded(objects, c, missing);
            && Backed(content, objects') && objects.Keys <= objects'.Keys
            && ((forall f :: f in missing ==> !UploadFailed(c, f)) ==>
                  forall f :: f in Scan(c.dir) ==> f.name in objects')
  {
    hide Scan, UploadFailed;
    var missing := Missing(objects.Keys, Scan(c.dir));
    forall f
      ensures f in missing <==> f in Scan(c.dir) && f.name !in objects
      ensures f in Scan(c.dir) ==> f in c.dir
    {
      SelectMembers(Scan(c.dir), (f: DirFile) => f.name !in objects.Keys, f);
      ScanFindsFinalized(c.dir, f);
    }
    UploadsKeep(content, objects, c, missing);
  }

  /** One cycle keeps the invariant; what it publishes, if anything, is the manifest hashed from scratch. */
  lemma CycleKeeps(sha: Sha, content: Content, s: Synced, c: Cycle)
    requires Inv(sha, content, s) && Fixed(content, c.dir)
    ensures var (s', end) := After(sha, s, c);
            && Inv(sha, content, s') && s.objects.Keys <= s'.objects.Keys
            && s'.manifest == (if end == Published then Some(Generated(sha, c, s.last)) else s.manifest)
            && (end == Published ==> Plain(Generated(sha, c, s.last)) == FromScratch(sha, c.dir))
  {
    hide Scan, UploadFailed, AllUploaded, Generated, GeneratingFails, Missing, Backed, Honest;
    ScannedFilesStored(s.objects, content, c);
    GeneratedIsFromScratch(sha, content, c, s.last);
  }

  lemma {:induction false} RunKeeps(sha: Sha, content: Content, s: Synced, run: seq<Cycle>)
    requires Inv(sha, content, s) && forall i :: 0 <= i < |run| ==> Fixed(content, run[i].dir)
    ensures Inv(sha, content, Run(sha, s, run)) && s.objects.Keys <= Run(sha, s, run).objects.Keys
    decreases |run|
  {
    hide Inv, After, Fixed;
    if run != [] {
      var front := run[..|run| - 1];
      RunKeeps(sha, content, s, front);
      CycleKeeps(sha, content, Run(sha, s, front), run[|run| - 1]);
    }
  }

  lemma {:induction false} RunSplit(sha: Sha, s: Synced, run: seq<Cycle>, i: nat)
    requires i <= |run|
    ensures Run(sha, s, run) == Run(sha, Run(sha, s, run[..i]), run[i..])
    decreases |run|
  {
    hide After;
    if i == |run| {
      assert run[..i] == run;
    } else {
      var front := run[..|run| - 1];
      RunSplit(sha, s, front, i);
      assert front[..i] == run[..i] && front[i..] == run[i..][..|run[i..]| - 1];
    }
  }

  /**
    * In every run, whatever fails: a cycle that publishes publishes the manifest of its directory with every file
    * hashed from scratch, and every listed file is in the bucket then and from then on.
    */
  lemma EveryPublishedManifest(sha: Sha, content: Content, s: Synced, run: seq<Cycle>, i: nat)
    requires Inv(sha, content, s) && i < |run| && forall j :: 0 <= j < |run| ==> Fixed(content, run[j].dir)
    ensures var (after, end) := After(sha, Run(sha, s, run[..i]), run[i]);
            end == Published ==>
              && after.manifest.Some? && Plain(after.manifest.value) == FromScratch(sha, run[i].dir)
              && AllStored(after.objects, FromScratch(sha, run[i].dir))
              && AllStored(Run(sha, s, run).objects, FromScratch(sha, run[i].dir))
  {
    hide After, Fixed, FromScratch;
    var before := Run(sha, s, run[..i]);
    RunKeeps(sha, content, s, run[..i]);
    CycleKeeps(sha, content, before, run[i]);
    assert run[..i + 1][..i] == run[..i];
    RunSplit(sha, s, run, i + 1);
    RunKeeps(sha, content, Run(sha, s, run[..i + 1]), run[i + 1..]);
  }

  /** A mount can take what is published: no name is listed twice. */
  lemma PublishedNamesDistinct(sha: Sha, dir: seq<DirFile>)
    requires Ascending(dir)
    ensures Startup.DistinctNames(FromScratch(sha, dir))
  {
    hide Scan, Less;
    ScanAscending(dir);
    var files, m := Scan(dir), FromScratch(sha, dir);
    forall i, j | 0 <= i < j < |m|
      ensures m[i].name != m[j].name
    {
      LessIsStrict(files[i].name, files[j].name);
    }
  }

  // When nothing is published

  /** A cycle publishes exactly when there is something new, all of it goes up and nothing after that fails. */
  lemma PublishesWhen(sha: Sha, s: Synced, c: Cycle)
    ensures After(sha, s, c).1 == Published <==>
            && !c.scanFails && !c.listFails && !GeneratingFails(c, s.last) && !c.manifestFails
            && (exists f :: Finalized(c.dir, f) && f.name !in s.objects)
            && (forall f :: Finalized(c.dir, f) && f.name !in s.objects ==> !UploadFailed(c, f))
  {
    hide Scan, Finalized, UploadFailed, AllUploaded, Generated, GeneratingFails;
    var missing := Missing(s.objects.Keys, Scan(c.dir));
    forall f
      ensures f in missing <==> Finalized(c.dir, f) && f.name !in s.objects
    {
      SelectMembers(Scan(c.dir), (f: DirFile) => f.name !in s.objects.Keys, f);
      ScanFindsFinalized(c.dir, f);
    }
    HasMember(missing);
  }

  /** In full: no upload of a new file or of its blockmap fails, and whatever is not remembered can be hashed. */
  lemma PublishesIff(sha: Sha, s: Synced, c: Cycle)
    ensures After(sha, s, c).1 == Published <==>
            && !c.scanFails && !c.listFails && !c.rescanFails && !c.manifestFails
            && (exists f :: Finalized(c.dir, f) && f.name !in s.objects)
            && (forall f :: Finalized(c.dir, f) && f.name !in s.objects ==>
                  && f.name !in c.uploadFails
                  && (c.maps.Some? && "blk" <= f.name && f.name in c.maps.value ==> f.name !in c.mapUploadFails))
            && (forall f :: Finalized(c.dir, f) && !Hit(CacheOf(s.last), f) ==>
                  && f.name !in c.hashFails
                  && (c.maps.Some? && f.name in c.maps.value && f.name !in c.mapStatFails ==>
                        f.name !in c.mapHashFails))
  {
    hide After, Scan, Hit, CacheOf, HasMap, Finalized, HasSuffix;
    PublishesWhen(sha, s, c);
    forall f
      ensures f in Scan(c.dir) <==> Finalized(c.dir, f)
      ensures Finalized(c.dir, f) ==>
        (HasMap(c, f.name) <==> c.maps.Some? && "blk" <= f.name && f.name in c.maps.value)
    {
      ScanFindsFinalized(c.dir, f);
      if Finalized(c.dir, f) {
        FinalizedEndsInDat(c.dir, f);
        HasMapIff(c, f.name);
      }
    }
  }

  lemma FinalizedEndsInDat(dir: seq<DirFile>, f: DirFile)
    requires Finalized(dir, f)
    ensures HasSuffix(f.name, ".dat")
  {
  }

  /** A manifest that cannot be stored is remembered all the same: but for the published one, the cycle ends as it would
      have, and its hashes are reused. */
  lemma FailedManifestIsRemembered(sha: Sha, s: Synced, c: Cycle)
    ensures var (failed, end) := After(sha, s, c.(manifestFails := true));
            var (sound, end') := After(sha, s, c.(manifestFails := false));
            && failed == sound.(manifest := s.manifest)
            && (end' == Published ==> end == Failed && sound.manifest == sound.last)
            && (end' != Published ==> end == end' && sound.manifest == s.manifest && sound.last == s.last)
  {
    hide Scan, UploadFailed, CacheOf;
    var c1, c2 := c.(manifestFails := true), c.(manifestFails := false);
    UploadsAlike(s.objects, c1, c2, Missing(s.objects.Keys, Scan(c.dir)));
    assert Generated(sha, c1, s.last) == Generated(sha, c2, s.last);
    assert forall f :: UploadFailed(c1, f) <==> UploadFailed(c2, f) by {
      SameFailures(c1, c2);
    }
    assert GeneratingFails(c1, s.last) <==> GeneratingFails(c2, s.last);
  }

  lemma SameFailures(c1: Cycle, c2: Cycle)
    requires c1.(manifestFails := true) == c2.(manifestFails := true)
    ensures forall f :: UploadFailed(c1, f) <==> UploadFailed(c2, f)
  {
  }

  lemma {:induction false} UploadsAlike(objects: map<string, Buf>, c1: Cycle, c2: Cycle, files: seq<DirFile>)
    requires c1.(manifestFails := true) == c2.(manifestFails := true)
    ensures AllUploaded(objects, c1, files) == AllUploaded(objects, c2, files)
  {
    if files != [] {
      UploadsAlike(objects, c1, c2, files[..|files| - 1]);
    }
  }

  ghost predicate NothingNew(names: set<string>, dir: seq<DirFile>) {
    forall f :: Finalized(dir, f) ==> f.name in names
  }

  /** As long as no new name is finalized, no cycle changes anything: a manifest that failed to go up is not tried
      again. */
  lemma {:induction false} NothingNewNothingDone(sha: Sha, s: Synced, run: seq<Cycle>)
    requires forall i :: 0 <= i < |run| ==> NothingNew(s.objects.Keys, run[i].dir)
    ensures Run(sha, s, run) == s
    decreases |run|
  {
    if run != [] {
      var front, c := run[..|run| - 1], run[|run| - 1];
      NothingNewNothingDone(sha, s, front);
      var missing := Missing(s.objects.Keys, Scan(c.dir));
      forall f
        ensures f !in missing
      {
        SelectMembers(Scan(c.dir), (f: DirFile) => f.name !in s.objects.Keys, f);
        ScanFindsFinalized(c.dir, f);
      }
      hide Scan, Finalized, AllUploaded, Generated, GeneratingFails, Missing;
      HasMember(missing);
    }
  }

  /** So one failed manifest upload after good file uploads hides the new files until yet another one appears. */
  lemma {:induction false} LostManifest(sha: Sha, content: Content, s: Synced, c: Cycle, run: seq<Cycle>)
    requires Inv(sha, content, s) && Fixed(content, c.dir)
    requires !c.scanFails && !c.listFails && (GeneratingFails(c, s.last) || c.manifestFails)
    requires forall f :: Finalized(c.dir, f) && f.name !in s.objects ==> !UploadFailed(c, f)
    requires forall i, f :: 0 <= i < |run| && Finalized(run[i].dir, f) ==>
        exists g :: Finalized(c.dir, g) && g.name == f.name
    ensures var s' := After(sha, s, c).0;
            && Run(sha, s', run) == s' && s'.manifest == s.manifest
            && forall f :: Finalized(c.dir, f) ==> f.name in s'.objects
  {
    hide Scan, Finalized, UploadFailed, AllUploaded, Generated, GeneratingFails, Inv;
    var s' := After(sha, s, c).0;
    CycleKeeps(sha, content, s, c);
    AllNamesStored(sha, content, s, c);
    NothingNewNothingDone(sha, s', run);
  }

  lemma AllNamesStored(sha: Sha, content: Content, s: Synced, c: Cycle)
    requires Inv(sha, content, s) && Fixed(content, c.dir) && !c.scanFails && !c.listFails
    requires forall f :: Finalized(c.dir, f) && f.name !in s.objects ==> !UploadFailed(c, f)
    ensures forall f :: Finalized(c.dir, f) ==> f.name in After(sha, s, c).0.objects
  {
    hide Scan, Finalized, UploadFailed, AllUploaded, Generated, GeneratingFails, Backed, Honest, Fixed;
    ScannedFilesStored(s.objects, content, c);
    var missing := Missing(s.objects.Keys, Scan(c.dir));
    forall f
      ensures f in missing <==> Finalized(c.dir, f) && f.name !in s.objects
      ensures f in Scan(c.dir) <==> Finalized(c.dir, f)
    {
      SelectMembers(Scan(c.dir), (f: DirFile) => f.name !in s.objects.Keys, f);
      ScanFindsFinalized(c.dir, f);
    }
  }

  // What the bucket holds

  lemma {:induction false} UploadsElsewhere(objects: map<string, Buf>, c: Cycle, files: seq<DirFile>, n: string)
    requires HasSuffix(n, ".dat") && forall f :: f in files ==> f.name != n
    ensures n in AllUploaded(objects, c, files) <==> n in objects
    ensures n in objects ==> AllUploaded(objects, c, files)[n] == objects[n]
  {
    hide HasMap;
    if files != [] {
      var front, f := files[..|files| - 1], files[|files| - 1];
      assert files == front + [f];
      UploadsElsewhere(objects, c, front, n);
      KeyIsNoBlockFile(f.name);
    }
  }

  /** A block file in the bucket is never uploaded again. */
  lemma {:induction false} StoredFilesStay(sha: Sha, s: Synced, run: seq<Cycle>, n: string)
    requires n in s.objects && HasSuffix(n, ".dat")
    ensures n in Run(sha, s, run).objects && Run(sha, s, run).objects[n] == s.objects[n]
    decreases |run|
  {
    if run != [] {
      var front, c := run[..|run| - 1], run[|run| - 1];
      StoredFilesStay(sha, s, front, n);
      var now := Run(sha, s, front);
      var missing := Missing(now.objects.Keys, Scan(c.dir));
      forall f | f in missing
        ensures f.name != n
      {
        SelectMembers(Scan(c.dir), (f: DirFile) => f.name !in now.objects.Keys, f);
      }
      hide Scan, AllUploaded, Generated, GeneratingFails, Missing, HasSuffix;
      UploadsElsewhere(now.objects, c, missing, n);
    }
  }

  /** So what is in the bucket is what the manifest lists exactly where the file has not grown since its upload. */
  lemma ObjectIsListedIff(sha: Sha, content: Content, s: Synced, c: Cycle, i: nat)
    requires Inv(sha, content, s) && Fixed(content, c.dir) && After(sha, s, c).1 == Published
        && i < |FromScratch(sha, c.dir)|
    ensures var e, f := FromScratch(sha, c.dir)[i], Scan(c.dir)[i];
            var objects := After(sha, s, c).0.objects;
            e.name in objects && (objects[e.name] == f.data <==> |objects[e.name]| == e.size)
  {
    hide After, Backed, Honest;
    var f, objects := Scan(c.dir)[i], After(sha, s, c).0.objects;
    CycleKeeps(sha, content, s, c);
    ScanFindsFinalized(c.dir, f);
    assert FromScratch(sha, c.dir)[i].name in objects;
    BackedAt(content, objects, f.name);
  }

  lemma BackedAt(content: Content, objects: map<string, Buf>, n: string)
    requires Backed(content, objects) && n in objects && HasSuffix(n, ".dat")
    ensures objects[n] == content(n, |objects[n]|)
  {
  }

  /** An undo file that grows after its upload is therefore listed at its new size and served at its old one, for
      good. */
  lemma GrownFileStaysShort(sha: Sha, content: Content, s: Synced, run: seq<Cycle>, i: nat, f: DirFile)
    requires Inv(sha, content, s) && i < |run| && forall j :: 0 <= j < |run| ==> Fixed(content, run[j].dir)
    requires Finalized(run[i].dir, f) && f.name in s.objects && |f.data| != |s.objects[f.name]|
    ensures var (after, end) := After(sha, Run(sha, s, run[..i]), run[i]);
            end == Published ==>
              && after.manifest.Some?
              && Listed(f.name, |f.data|, Some(sha(f.data)), None) in Plain(after.manifest.value)
    ensures f.name in Run(sha, s, run).objects && |Run(sha, s, run).objects[f.name]| != |f.data|
  {
    hide After, Finalized, Inv, Fixed;
    assert HasSuffix(f.name, ".dat") by {
      IsDatFile(run[i].dir, f);
    }
    EveryPublishedManifest(sha, content, s, run, i);
    StoredFilesStay(sha, s, run, f.name);
    ScanFindsFinalized(run[i].dir, f);
    var files, m := Scan(run[i].dir), FromScratch(sha, run[i].dir);
    var k :| 0 <= k < |files| && files[k] == f;
    assert m[k] == Listed(f.name, |f.data|, Some(sha(f.data)), None);
  }

  lemma IsDatFile(dir: seq<DirFile>, f: DirFile)
    requires Finalized(dir, f)
    ensures HasSuffix(f.name, ".dat")
  {
  }

  // Blockmaps

  lemma KeysApart(a: string, b: string)
    ensures BlockmapKey(a) == BlockmapKey(b) <==> a == b
    ensures HasSuffix(b, ".dat") ==> BlockmapKey(a) != b
  {
    KeyIsNoBlockFile(a);
    if BlockmapKey(a) == BlockmapKey(b) {
      assert |a| == |b|;
      assert a == BlockmapKey(a)[..|a|] && b == BlockmapKey(b)[..|b|];
    }
  }

  /** Uploading files stores the blockmap of exactly those that go up together with one. */
  lemma {:induction false} UploadedMaps(objects: map<string, Buf>, c: Cycle, files: seq<DirFile>, n: string)
    requires forall f :: f in files ==> HasSuffix(f.name, ".dat")
    ensures BlockmapKey(n) in AllUploaded(objects, c, files)
            <==> || BlockmapKey(n) in objects
                 || (&& HasMap(c, n) && n !in c.uploadFails && n !in c.mapUploadFails
                     && exists f :: f in files && f.name == n)
    decreases |files|
  {
    hide HasMap;
    if files != [] {
      var front, last := files[..|files| - 1], files[|files| - 1];
      assert files == front + [last];
      UploadedMaps(objects, c, front, n);
      KeysApart(n, last.name);
    }
  }

  lemma UploadFailedIs(c: Cycle, f: DirFile)
    ensures UploadFailed(c, f) <==> f.name in c.uploadFails || (HasMap(c, f.name) && f.name in c.mapUploadFails)
  {
  }

  lemma {:induction false} UploadedNames(objects: map<string, Buf>, c: Cycle, files: seq<DirFile>, f: DirFile)
    ensures f.name in objects || (f in files && f.name !in c.uploadFails) ==> f.name in AllUploaded(objects, c, files)
    decreases |files|
  {
    hide HasMap;
    if files != [] {
      var front, last := files[..|files| - 1], files[|files| - 1];
      assert files == front + [last];
      UploadedNames(objects, c, front, f);
    }
  }

  lemma MissingAre(s: Synced, c: Cycle)
    ensures var missing := Missing(s.objects.Keys, Scan(c.dir));
            && (forall f :: f in missing <==> Finalized(c.dir, f) && f.name !in s.objects)
            && forall f :: f in missing ==> HasSuffix(f.name, ".dat")
  {
    hide Scan, Finalized, HasSuffix;
    var missing := Missing(s.objects.Keys, Scan(c.dir));
    forall f
      ensures f in missing <==> Finalized(c.dir, f) && f.name !in s.objects
      ensures f in missing ==> HasSuffix(f.name, ".dat")
    {
      SelectMembers(Scan(c.dir), (f: DirFile) => f.name !in s.objects.Keys, f);
      ScanFindsFinalized(c.dir, f);
      if f in missing {
        IsDatFile(c.dir, f);
      }
    }
  }

  /** A blockmap whose upload failed behind a good block file is never uploaded again. */
  lemma {:induction false} MissingMapStays(sha: Sha, s: Synced, run: seq<Cycle>, n: string)
    requires n in s.objects && HasSuffix(n, ".dat") && BlockmapKey(n) !in s.objects
    ensures BlockmapKey(n) !in Run(sha, s, run).objects
    decreases |run|
  {
    if run != [] {
      var front, c := run[..|run| - 1], run[|run| - 1];
      MissingMapStays(sha, s, front, n);
      StoredFilesStay(sha, s, front, n);
      var now := Run(sha, s, front);
      MissingAre(now, c);
      UploadedMaps(now.objects, c, Missing(now.objects.Keys, Scan(c.dir)), n);
      hide Scan, AllUploaded, Generated, GeneratingFails, Missing, HasSuffix, UploadFailed, Finalized;
    }
  }

  /** What a publishing cycle lists for a file that it had to hash: the blockmap, if it sees one. The bucket holds that
      blockmap, then and from then on, iff it did before or the file itself was new and is a blk file. */
  lemma ListedMapIsStoredIff(sha: Sha, s: Synced, c: Cycle, run: seq<Cycle>, f: DirFile)
    requires After(sha, s, c).1 == Published && Finalized(c.dir, f) && !Hit(CacheOf(s.last), f)
    ensures var s' := After(sha, s, c).0;
            && s'.manifest.Some?
            && Listed(f.name, |f.data|, Some(sha(f.data)),
                      if SeesMap(c, f.name) then Some(sha(c.maps.value[f.name])) else None) in s'.manifest.value
            && (BlockmapKey(f.name) in s'.objects
                <==> BlockmapKey(f.name) in s.objects || (f.name !in s.objects && HasMap(c, f.name)))
            && (BlockmapKey(f.name) !in s'.objects ==> BlockmapKey(f.name) !in Run(sha, s', run).objects)
  {
    hide Scan, UploadFailed, AllUploaded, HasMap, SeesMap, HasSuffix, Finalized;
    var s' := After(sha, s, c).0;
    var missing := Missing(s.objects.Keys, Scan(c.dir));
    MissingAre(s, c);
    assert HasSuffix(f.name, ".dat") by { IsDatFile(c.dir, f); }
    UploadedMaps(s.objects, c, missing, f.name);
    PublishesWhen(sha, s, c);
    assert f in Scan(c.dir) by { ScanFindsFinalized(c.dir, f); }
    var k :| 0 <= k < |Scan(c.dir)| && Scan(c.dir)[k] == f;
    assert Generated(sha, c, s.last)[k] == ListedFile(sha, c, CacheOf(s.last), f);
    UploadedNames(s.objects, c, missing, f);
    UploadFailedIs(c, f);
    if BlockmapKey(f.name) !in s'.objects {
      MissingMapStays(sha, s', run, f.name);
    }
  }

  lemma {:induction false} CacheAt(m: Manifest, k: nat)
    requires Startup.DistinctNames(m) && k < |m|
    ensures m[k].name in HashCache(m) && HashCache(m)[m[k].name] == m[k]
    decreases |m|
  {
    if k < |m| - 1 {
      CacheAt(m[..|m| - 1], k);
    }
  }

  /** The cache entry of this name has that size and these hashes. */
  predicate Remembers(s: Synced, n: string, size: nat, hash: Digest, blockmapSha: Option<Digest>) {
    && n in CacheOf(s.last) && CacheOf(s.last)[n].size == size && CacheOf(s.last)[n].sha == Some(hash)
    && CacheOf(s.last)[n].blockmapSha == blockmapSha
  }

  lemma CycleRemembers(sha: Sha, s: Synced, c: Cycle, f: DirFile, hash: Digest, blockmapSha: Option<Digest>)
    requires Remembers(s, f.name, |f.data|, hash, blockmapSha)
    requires Ascending(c.dir) && c.maps.Some? && Finalized(c.dir, f)
    ensures Remembers(After(sha, s, c).0, f.name, |f.data|, hash, blockmapSha)
    ensures After(sha, s, c).1 == Published ==>
              && After(sha, s, c).0.manifest.Some?
              && Listed(f.name, |f.data|, Some(hash), blockmapSha) in After(sha, s, c).0.manifest.value
  {
    var m := Generated(sha, c, s.last);
    GeneratedNamesDistinct(sha, c, s.last);
    assert f in Scan(c.dir) by { ScanFindsFinalized(c.dir, f); }
    hide Scan, UploadFailed, AllUploaded, Finalized, Missing, GeneratingFails, HashCache;
    var k :| 0 <= k < |Scan(c.dir)| && Scan(c.dir)[k] == f;
    assert m[k] == ListedFile(sha, c, CacheOf(s.last), f);
    CacheAt(m, k);
  }

  lemma GeneratedNamesDistinct(sha: Sha, c: Cycle, prev: Option<Manifest>)
    requires Ascending(c.dir)
    ensures Startup.DistinctNames(Generated(sha, c, prev))
  {
    hide Scan, Less, CacheOf;
    ScanAscending(c.dir);
    var files, m := Scan(c.dir), Generated(sha, c, prev);
    forall i, j | 0 <= i < j < |m|
      ensures m[i].name != m[j].name
    {
      LessIsStrict(files[i].name, files[j].name);
    }
  }

  /** As long as the syncer runs and a file keeps its size, the file is listed with the blockmap hash that it was first
      listed with, or with none, whatever becomes of the blockmap. */
  lemma {:induction false} MapHashRemembered(sha: Sha, s: Synced, run: seq<Cycle>, f: DirFile, hash: Digest,
                                             blockmapSha: Option<Digest>)
    requires Remembers(s, f.name, |f.data|, hash, blockmapSha)
    requires forall i :: 0 <= i < |run| ==> Ascending(run[i].dir) && run[i].maps.Some? && Finalized(run[i].dir, f)
    ensures Remembers(Run(sha, s, run), f.name, |f.data|, hash, blockmapSha)
    ensures run != [] ==>
              var (s', end) := After(sha, Run(sha, s, run[..|run| - 1]), run[|run| - 1]);
              end == Published ==> s'.manifest.Some?
                                   && Listed(f.name, |f.data|, Some(hash), blockmapSha) in s'.manifest.value
    decreases |run|
  {
    hide Remembers, After, Finalized, Ascending;
    if run != [] {
      MapHashRemembered(sha, s, run[..|run| - 1], f, hash, blockmapSha);
      CycleRemembers(sha, Run(sha, s, run[..|run| - 1]), run[|run| - 1], f, hash, blockmapSha);
    }
  }

  // Which bytes go up

  /** Each file that is uploaded is stored with its bytes, its blockmap with those of the blockmap, and nothing else
      changes. */
  lemma {:induction false} UploadedBytes(objects: map<string, Buf>, c: Cycle, files: seq<DirFile>, n: string)
    requires forall f :: f in files ==> HasSuffix(f.name, ".dat")
    requires forall f, g :: f in files && g in files && f.name == g.name ==> f == g
    ensures var objects' := AllUploaded(objects, c, files);
            && (forall f :: f in files && f.name !in c.uploadFails ==>
                  && f.name in objects' && objects'[f.name] == f.data
                  && (HasMap(c, f.name) && f.name !in c.mapUploadFails ==>
                        BlockmapKey(f.name) in objects' && objects'[BlockmapKey(f.name)] == c.maps.value[f.name]))
            && ((forall f :: f in files && f.name !in c.uploadFails ==>
                   n != f.name && !(n == BlockmapKey(f.name) && HasMap(c, f.name) && f.name !in c.mapUploadFails)) ==>
                  (n in objects' <==> n in objects) && (n in objects ==> objects'[n] == objects[n]))
    decreases |files|
  {
    hide HasMap;
    if files != [] {
      var front, last := files[..|files| - 1], files[|files| - 1];
      assert files == front + [last];
      UploadedBytes(objects, c, front, n);
      forall f | f in front
        ensures f.name == last.name ==> f == last
        ensures BlockmapKey(f.name) != last.name && BlockmapKey(last.name) != f.name
        ensures BlockmapKey(f.name) == BlockmapKey(last.name) ==> f == last
      {
        KeysApart(f.name, last.name);
        KeysApart(last.name, f.name);
      }
      KeysApart(last.name, last.name);
    }
  }

  /** One cycle, whatever fails: a new finalized file that goes up is stored with the bytes it has on disk, a blk file's
      blockmap with the bytes in the blockmap directory, and every other object stays as it is. */
  lemma CycleStores(sha: Sha, s: Synced, c: Cycle, n: string)
    requires Ascending(c.dir) && !c.scanFails && !c.listFails
    ensures var objects' := After(sha, s, c).0.objects;
            && (forall f :: Finalized(c.dir, f) && f.name !in s.objects && f.name !in c.uploadFails ==>
                  && f.name in objects' && objects'[f.name] == f.data
                  && (c.maps.Some? && "blk" <= f.name && f.name in c.maps.value && f.name !in c.mapUploadFails ==>
                        BlockmapKey(f.name) in objects' && objects'[BlockmapKey(f.name)] == c.maps.value[f.name]))
            && (n in s.objects && HasSuffix(n, ".dat") ==> n in objects' && objects'[n] == s.objects[n])
            && ((forall f :: Finalized(c.dir, f) && f.name !in s.objects ==>
                   n != f.name && n != BlockmapKey(f.name)) ==>
                  (n in objects' <==> n in s.objects) && (n in s.objects ==> objects'[n] == s.objects[n]))
  {
    hide Scan, Finalized, AllUploaded, Generated, GeneratingFails, UploadFailed, HasSuffix, Missing, Ascending, HasMap;
    var missing := Missing(s.objects.Keys, Scan(c.dir));
    MissingAre(s, c);
    forall f, g | f in missing && g in missing && f.name == g.name
      ensures f == g
    {
      OneFilePerName(c.dir, f, g);
    }
    UploadedBytes(s.objects, c, missing, n);
    forall f | f in missing
      ensures HasMap(c, f.name) <==> c.maps.Some? && "blk" <= f.name && f.name in c.maps.value
      ensures HasSuffix(n, ".dat") ==> BlockmapKey(f.name) != n
    {
      HasMapIff(c, f.name);
      KeysApart(f.name, n);
    }
  }

  lemma HasMapIff(c: Cycle, n: string)
    ensures HasSuffix(n, ".dat") ==> (HasMap(c, n) <==> c.maps.Some? && "blk" <= n && n in c.maps.value)
  {
    if HasSuffix(n, ".dat") && "blk" <= n {
      assert n[|n| - 4..][0] == '.' && n[0] == 'b' && n[1] == 'l' && n[2] == 'k';
    }
  }

  lemma OneFilePerName(dir: seq<DirFile>, f: DirFile, g: DirFile)
    requires Ascending(dir) && Finalized(dir, f) && Finalized(dir, g) && f.name == g.name
    ensures f == g
  {
    hide Less;
    assert f in dir && g in dir by {
      ScanFindsFinalized(dir, f);
      ScanFindsFinalized(dir, g);
    }
    var i :| 0 <= i < |dir| && dir[i] == f;
    var j :| 0 <= j < |dir| && dir[j] == g;
    LessIsStrict(f.name, g.name);
  }
}

/** When reads succeed and what they leave, in terms of handle, row, caches and what fails. */
module Answers {
  import opened Bytes
  import opened Store
  import opened Blockmap
  import opened BlockScan
  import opened BlockRead
  import opened World
  import BlockmapCodec
  import Lifecycle
  import Serving
  import FP = FetchPolicy

  /** What a local read answers: the slice, as far as the disk delivers it; nothing without the file, or when the disk
      fails at once. */
  predicate ReadFrom(dir: map<string, Buf>, n: string, off: nat, len: nat, stop: Option<nat>, reply: Reply) {
    if n !in dir then reply == Fail(ENOENT)
    else if stop == Some(0) then reply == Fail(EIO)
    else
      var slice := Clip(dir[n], off, len);
      && reply.Data? && reply.bytes <= slice
      && |reply.bytes| == if stop.Some? then Min(stop.value, |slice|) else |slice|
  }

  lemma PreadReadsFrom(dir: map<string, Buf>, n: string, off: nat, len: nat, stop: Option<nat>)
    ensures ReadFrom(dir, n, off, len, stop, Pread(dir, n, off, len, stop))
  {
    hide Clip;
  }

  // Local files, cached handles, handles that discard writes

  /** A handle that was opened on a local file reads the local file; one that was opened on a cached file, or whose file
      was downloaded since, reads the cached copy and records the access; a write handle reads the local file, and
      nothing where that fails. */
  lemma HandleDecides(m: Mount, w: World, id: int, off: nat, dest: Buf, env: ReadEnv)
    requires id in w.handles
    ensures var (reply, w') := Read(m, w, id, off, dest, env);
            var h := w.handles[id];
            && (h.Reader? && IsLocal(h.state) ==>
                  ReadFrom(w.local, h.name, off, |dest|, env.localStop, reply) && w' == w)
            && (h.Reader? && h.state == Cached ==>
                  && ReadFrom(w.cache, h.name, off, |dest|, env.cacheStop, reply)
                  && w' == w.(rows := w'.rows) && Accessed(w, w', h.name, reply.Data? && !env.touchFails, env.now))
            && (h.Writer? ==>
                  && (exists r :: ReadFrom(w.local, h.name, off, |dest|, env.localStop, r)
                                  && reply == if r.Data? then r else Data([]))
                  && w' == w)
  {
    hide Clip, ReadRemote, ReadNull, Pread, ReadFrom;
    var h := w.handles[id];
    PreadReadsFrom(w.local, h.name, off, |dest|, env.localStop);
    PreadReadsFrom(w.cache, h.name, off, |dest|, env.cacheStop);
  }

  /** Of the rows only this one changes, and of this one the access time, if it is recorded. */
  predicate Accessed(w: World, w': World, n: string, recorded: bool, now: int) {
    w'.rows == if n in w.rows && recorded then w.rows[n := w.rows[n].(access := now)] else w.rows
  }

  /** A handle that discards writes reads the local copy where the row is local or not found, then the cached copy, then
      the server; it fails iff all of these do, and changes nothing. */
  lemma DiscardingHandleReads(m: Mount, w: World, id: int, off: nat, dest: Buf, env: ReadEnv)
    requires id in w.handles && w.handles[id].NullWriter? && dest != []
    ensures var (reply, w') := Read(m, w, id, off, dest, env);
            var n := w.handles[id].name;
            var onDisk := (n !in w.rows || env.lookupFails || IsLocal(w.rows[n].state)) && n in w.local
                          && env.localStop != Some(0);
            var cached := n in w.cache && env.cacheStop != Some(0);
            var served := n in m.server && !env.firstRangeFails;
            && w' == w
            && (onDisk ==> ReadFrom(w.local, n, off, |dest|, env.localStop, reply))
            && (!onDisk && cached ==> ReadFrom(w.cache, n, off, |dest|, env.cacheStop, reply))
            && (!onDisk && !cached && served ==> reply == Data(Clip(m.server[n], off, |dest|)))
            && (!onDisk && !cached && !served ==> reply == Fail(EIO))
  {
    hide Clip, ReadRemote, Pread, ReadFrom;
    var n := w.handles[id].name;
    PreadReadsFrom(w.local, n, off, |dest|, env.localStop);
    PreadReadsFrom(w.cache, n, off, |dest|, env.cacheStop);
    ReadFromSucceeds(w.local, n, off, |dest|, env.localStop, Pread(w.local, n, off, |dest|, env.localStop));
    ReadFromSucceeds(w.cache, n, off, |dest|, env.cacheStop, Pread(w.cache, n, off, |dest|, env.cacheStop));
  }

  lemma ReadFromSucceeds(dir: map<string, Buf>, n: string, off: nat, len: nat, stop: Option<nat>, reply: Reply)
    requires ReadFrom(dir, n, off, len, stop, reply)
    ensures reply.Data? <==> n in dir && stop != Some(0)
  {
  }

  // Blockmaps

  /** The map of a file is at hand: in memory, or not known to be missing, listed, and delivered as it was published. */
  predicate MapAtHand(m: Mount, a: Serving.Archive, w: World, n: string, env: ReadEnv) {
    n in w.blockmaps
    || (n !in w.noBlockmap && n in m.manifest && m.manifest[n].blockmapSha.Some? && n in a.maps
        && env.blockmap == Fetched(BlockmapCodec.EncodeMap(a.maps[n])))
  }

  /** What makes the absence of a map a lasting one: no listing, a server that does not have it, the wrong hash, or
      bytes that do not parse. That the server cannot be reached does not. */
  predicate MapIsAbsent(m: Mount, n: string, env: ReadEnv) {
    || n !in m.manifest || m.manifest[n].blockmapSha.None?
    || env.blockmap.NotFound?
    || (env.blockmap.Fetched? && m.manifest[n].blockmapSha != Some(m.sha(env.blockmap.raw)))
    || (env.blockmap.Fetched? && BlockmapCodec.DecodeMap(env.blockmap.raw).Err?)
  }

  /** A name is remembered to have no map exactly then, and a map is remembered exactly when a fetched one has the
      listed hash and parses; in memory nothing changes once something is known. */
  lemma MapLoading(m: Mount, w: World, n: string, env: ReadEnv)
    ensures var (es, w') := LoadBlockmap(m, w, n, env);
            var known := n in w.blockmaps || n in w.noBlockmap;
            && w' == w.(blockmaps := w'.blockmaps, noBlockmap := w'.noBlockmap)
            && w'.noBlockmap == (if !known && MapIsAbsent(m, n, env) then w.noBlockmap + {n} else w.noBlockmap)
            && (es.Some? <==> n in w'.blockmaps && (n in w.noBlockmap ==> n in w.blockmaps))
            && (es.Some? ==> w'.blockmaps[n] == es.value)
            && (known ==> w'.blockmaps == w.blockmaps)
            && (!known && (MapIsAbsent(m, n, env) || env.blockmap.Unreachable?) ==> w'.blockmaps == w.blockmaps)
            && (!known && !MapIsAbsent(m, n, env) && env.blockmap.Fetched? ==>
                  w'.blockmaps == w.blockmaps[n := BlockmapCodec.DecodeMap(env.blockmap.raw).value])
  {
    hide BlockmapCodec.DecodeMap, FetchMap, MapIsAbsent;
    MapFetching(m, n, env);
  }

  lemma MapFetching(m: Mount, n: string, env: ReadEnv)
    ensures var absent := MapIsAbsent(m, n, env);
            && (absent <==> FetchMap(m, n, env).Absent?)
            && (!absent && env.blockmap.Unreachable? <==> FetchMap(m, n, env).TryAgain?)
            && (!absent && env.blockmap.Fetched? ==>
                  && BlockmapCodec.DecodeMap(env.blockmap.raw).Ok?
                  && FetchMap(m, n, env) == Usable(BlockmapCodec.DecodeMap(env.blockmap.raw).value))
  {
    hide BlockmapCodec.DecodeMap;
  }

  /** Against a faithful archive the map is there iff it is at hand, and then it is the published one. */
  lemma LoadedIffAtHand(m: Mount, a: Serving.Archive, w: World, n: string, env: ReadEnv)
    requires Serving.Faithful(m, a) && Serving.AllAgree(m, a, w) && Serving.NoCollision(m, a, n, env)
    ensures MapAtHand(m, a, w, n, env) ==> n in a.maps && n in m.server
    ensures LoadBlockmap(m, w, n, env).0 == if MapAtHand(m, a, w, n, env) then Some(a.maps[n]) else None
  {
    hide BlockmapCodec.DecodeMap, BlockmapCodec.EncodeMap, Serving.AllAgree, Serving.Faithful;
    Serving.LoadedMapIsPublished(m, a, w, n, env);
    Serving.FaithfulAt(m, a, n);
    if n in w.blockmaps {
      Serving.KnownMap(m, a, w, n);
    } else if n in a.maps {
      Serving.PublishedMapSurvives(m, a, n);
    }
    MapOkServes(m, a, n);
  }

  lemma MapOkServes(m: Mount, a: Serving.Archive, n: string)
    requires Serving.MapOk(m, a, n)
    ensures n in a.maps ==> n in m.server && Describes(Serving.ServedFile(m, a, n), a.maps[n])
  {
  }

  /** The map decides about this read: there is one, the range stays within int64, and some block overlaps it. */
  ghost predicate ByBlocks(m: Mount, a: Serving.Archive, w: World, n: string, off: nat, len: nat, env: ReadEnv) {
    && m.blockCache && HasPrefix(n, "blk") && MapAtHand(m, a, w, n, env)
    && n in a.maps && off + len < TWO63 && exists e :: e in a.maps[n] && Overlaps(e, off, len)
  }

  /** For a nonempty range that means: it starts inside the file. */
  lemma ByBlocksInside(m: Mount, a: Serving.Archive, w: World, n: string, off: nat, len: nat, env: ReadEnv)
    requires Serving.Faithful(m, a) && 0 < len && n in a.maps
    ensures n in m.server
    ensures ByBlocks(m, a, w, n, off, len, env)
            <==> m.blockCache && HasPrefix(n, "blk") && MapAtHand(m, a, w, n, env)
                 && off < |m.server[n]| && off + len < TWO63
  {
    hide Serving.Faithful, MapAtHand, Overlaps, TilesFrom, AllBlocks;
    Serving.FaithfulAt(m, a, n);
    MapOkServes(m, a, n);
    var es, hi := a.maps[n], |m.server[n]|;
    if len < TWO63 {
      OverlapIffInside(es, off, len, hi);
      SomeOverlaps(es, off, len, hi);
    }
  }

  /** Blocks are found for a range within int64 iff some block overlaps it. */
  lemma SomeOverlaps(es: seq<Entry>, off: nat, len: nat, hi: nat)
    requires TilesFrom(es, 0, hi) && hi < TWO63 && len < TWO63
    ensures off + len < TWO63 ==> (Overlapping(es, off, len) == [] <==> !exists e :: e in es && Overlaps(e, off, len))
  {
    hide TilesFrom, Overlaps, Overlapping;
    TilingSorted(es, 0, hi);
    if off + len < TWO63 {
      forall e
        ensures e in Overlapping(es, off, len) <==> e in es && Overlaps(e, off, len)
      {
        OverlappingIff(es, off, len, e);
      }
      if Overlapping(es, off, len) != [] {
        assert Overlapping(es, off, len)[0] in Overlapping(es, off, len);
      }
    }
  }

  /** Every block that the range overlaps is in the cache or can be fetched and stored there, and can be read. */
  ghost predicate BlocksObtainable(m: Mount, a: Serving.Archive, w: World, n: string, off: nat, len: nat, env: ReadEnv)
    requires n in a.maps
  {
    forall e :: e in a.maps[n] && Overlaps(e, off, len) ==>
      e.offset !in env.readFails
      && (|| ((n, e.offset) in w.blocks && e.offset !in env.statFails)
          || (e.offset !in env.fetchFails && e.offset !in env.storeFails))
  }

  lemma BlockmapReply(m: Mount, a: Serving.Archive, w: World, n: string, off: nat, dest: Buf, env: ReadEnv)
    requires Serving.Faithful(m, a) && Serving.AllAgree(m, a, w) && Serving.NoCollision(m, a, n, env)
    requires |dest| < TWO63 && m.blockCache && HasPrefix(n, "blk")
    ensures ByBlocks(m, a, w, n, off, |dest|, env) ==> n in a.maps && n in m.server
    ensures BlockmapMode(m, w, n, off, dest, env).0
            == if !ByBlocks(m, a, w, n, off, |dest|, env) then Fail(ENODATA)
               else if BlocksObtainable(m, a, w, n, off, |dest|, env) then Data(Clip(m.server[n], off, |dest|))
               else Fail(EIO)
  {
    hide Serving.Faithful, Serving.AllAgree, Serving.NoCollision, LoadBlockmap, ViaBlockmap, Describes, CacheAgrees,
        Overlaps, Obtainable, MapAtHand;
    LoadedIffAtHand(m, a, w, n, env);
    Serving.LoadedMapIsPublished(m, a, w, n, env);
    if MapAtHand(m, a, w, n, env) {
      var w1 := LoadBlockmap(m, w, n, env).1;
      var f, e := Serving.ServedFile(m, a, n), BlockEnv(m, n, env);
      Serving.FaithfulAt(m, a, n);
      MapOkServes(m, a, n);
      assert CacheAgrees(w1.blocks, n, f, a.maps[n]) by { CachedBlocksAgree(m, a, w1, n); }
      MapReply(w1.blocks, n, a.maps[n], dest, off, e, f);
      ObtainableAll(m, a, w, n, off, |dest|, env);
    }
  }

  lemma CachedBlocksAgree(m: Mount, a: Serving.Archive, w: World, n: string)
    requires Serving.AllAgree(m, a, w) && n in a.maps && n in m.server
    ensures CacheAgrees(w.blocks, n, Serving.ServedFile(m, a, n), a.maps[n])
  {
    hide CacheAgrees;
    Serving.AgreesAt(m, a, w, n);
  }

  lemma ObtainableAll(m: Mount, a: Serving.Archive, w: World, n: string, off: nat, len: nat, env: ReadEnv)
    requires n in a.maps
    ensures BlocksObtainable(m, a, w, n, off, len, env) <==>
            forall e :: e in a.maps[n] && Overlaps(e, off, len) ==> Obtainable(w.blocks, n, BlockEnv(m, n, env), e)
  {
    hide Overlaps;
  }

  /** A read through a described file's map, said about its blocks. */
  lemma MapReply(blocks: BlockMap, n: string, es: seq<Entry>, dest: Buf, off: nat, env: Env, f: BlkFile)
    requires Serves(env, f) && Describes(f, es) && CacheAgrees(blocks, n, f, es) && |dest| < TWO63
    ensures ViaBlockmap(blocks, n, es, dest, off, env).0
            == if off + |dest| >= TWO63 || !exists e :: e in es && Overlaps(e, off, |dest|) then Fail(ENODATA)
               else if forall e :: e in es && Overlaps(e, off, |dest|) ==> Obtainable(blocks, n, env, e)
                    then Data(Clip(f.data, off, |dest|))
               else Fail(EIO)
  {
    hide CacheAgrees, ViaBlockmap, TilesFrom, AllBlocks, Obtainable, Overlapping, Overlaps;
    ViaBlockmapIsPread(blocks, n, es, dest, off, env, f);
    TilingSorted(es, 0, |f.data|);
    NothingWantedBehindInt64(es, off, |dest|, f);
    SomeOverlaps(es, off, |dest|, |f.data|);
    if off + |dest| < TWO63 {
      forall e
        ensures e in Overlapping(es, off, |dest|) <==> e in es && Overlaps(e, off, |dest|)
      {
        OverlappingIff(es, off, |dest|, e);
      }
    }
  }

  // Remote files

  /** The row says that a copy is there already. */
  predicate CopyKept(w: World, n: string, env: ReadEnv) {
    n in w.rows && !env.lookupFails && w.rows[n].state in {Cached, LocalFinalized}
  }

  /** A copy can be had: the row is found, the download is the bytes with the recorded or listed hash, and it is stored
      and recorded. */
  predicate CopyArrives(m: Mount, w: World, n: string, env: ReadEnv) {
    && n in w.rows && !env.relookupFails && env.download.Some? && env.cacheStore == Stored
    && ((w.rows[n].sha.Some? && w.rows[n].sha.value == m.sha(env.download.value))
        || (w.rows[n].sha.None? && n in m.manifest && m.manifest[n].sha == Some(m.sha(env.download.value))))
  }

  lemma ArrivesIsGood(m: Mount, w: World, n: string, env: ReadEnv)
    ensures CopyArrives(m, w, n, env) <==> GoodDownload(m, w, n, env) && env.cacheStore == Stored
    ensures GoodDownload(m, w, n, env) ==> env.download.Some?
  {
  }

  /** What a whole-file read answers: from the copy that is kept or arrives; or, when none can be had, one more range
      request. */
  predicate WholeFileAnswer(m: Mount, w: World, n: string, off: nat, len: nat, env: ReadEnv, reply: Reply) {
    if CopyKept(w, n, env) then ReadFrom(w.cache, n, off, len, env.cacheStop, reply)
    else if CopyArrives(m, w, n, env) then
      ReadFrom(w.cache[n := env.download.value], n, off, len, env.cacheStop, reply)
    else
      reply == if n in m.server && len > 0 && !env.secondRangeFails then Data(Clip(m.server[n], off, len))
               else Fail(EIO)
  }

  lemma WholeFileReply(m: Mount, w: World, id: int, off: nat, len: nat, env: ReadEnv)
    requires id in w.handles && w.handles[id].Reader?
    ensures WholeFileAnswer(m, w, w.handles[id].name, off, len, env, FileMode(m, w, id, off, len, env).0)
  {
    hide Clip, ReadFrom, Pread, Observed, FetchAndCache, CopyKept, GoodDownload, RowsFetched;
    var n := w.handles[id].name;
    FetchLeaves(m, w, n, env);
    ArrivesIsGood(m, w, n, env);
    PreadReadsFrom(w.cache, n, off, len, env.cacheStop);
    if env.download.Some? {
      PreadReadsFrom(w.cache[n := env.download.value], n, off, len, env.cacheStop);
    }
  }

  /** The answer of a read through a handle on a remote file, completely. Unless the policy wants the whole file: where
      the blockmap decides, the slice iff every block of it can be had; else the slice from a range request that works.
      Then the whole file, and behind a failed download another range request. */
  ghost predicate RemoteAnswer(m: Mount, a: Serving.Archive, w: World, n: string, off: nat, len: nat, env: ReadEnv,
                               reply: Reply) {
    var whole := FP.Answer(m.policy, w.hints, n, env.now) == FP.File;
    if !whole && n in m.server && ByBlocks(m, a, w, n, off, len, env) then
      reply == if BlocksObtainable(m, a, w, n, off, len, env) then Data(Clip(m.server[n], off, len)) else Fail(EIO)
    else if !whole && n in m.server && len > 0 && !env.firstRangeFails then
      reply == Data(Clip(m.server[n], off, len))
    else
      WholeFileAnswer(m, w, n, off, len, env, reply)
  }

  lemma RemoteReadAnswers(m: Mount, a: Serving.Archive, w: World, id: int, off: nat, dest: Buf, env: ReadEnv)
    requires Serving.Faithful(m, a) && Serving.AllAgree(m, a, w) && |dest| < TWO63
    requires id in w.handles && w.handles[id].Reader? && w.handles[id].state == Remote
    requires Serving.NoCollision(m, a, w.handles[id].name, env)
    ensures RemoteAnswer(m, a, w, w.handles[id].name, off, |dest|, env, Read(m, w, id, off, dest, env).0)
  {
    hide Serving.Faithful, Serving.AllAgree, Serving.NoCollision, FileMode, BlockmapMode, Observed, MaybePromote, Clip,
        WholeFileAnswer, ByBlocks, BlocksObtainable, FP.Answer, FP.AfterQuery, HasPrefix;
    var n := w.handles[id].name;
    var w1 := w.(hints := FP.AfterQuery(m.policy, w.hints, n, env.now));
    Serving.StillAgree(m, a, w, w1);
    WholeFileReply(m, w1, id, off, |dest|, env);
    WholeFileSame(m, w, w1, n, off, |dest|, env, FileMode(m, w1, id, off, |dest|, env).0);
    if m.blockCache && HasPrefix(n, "blk") {
      BlockmapReply(m, a, w1, n, off, dest, env);
      BlocksSame(m, a, w, w1, n, off, |dest|, env);
      var w2 := BlockmapMode(m, w1, n, off, dest, env).1;
      BlockmapModeKeeps(m, w1, n, off, dest, env);
      WholeFileReply(m, w2, id, off, |dest|, env);
      WholeFileSame(m, w, w2, n, off, |dest|, env, FileMode(m, w2, id, off, |dest|, env).0);
      MapsAreServed(m, a, n);
    } else {
      NotByBlocks(m, a, w, n, off, |dest|, env);
    }
  }

  lemma MapsAreServed(m: Mount, a: Serving.Archive, n: string)
    requires Serving.Faithful(m, a)
    ensures n in a.maps ==> n in m.server
  {
    hide Describes;
    Serving.FaithfulAt(m, a, n);
  }

  lemma NotByBlocks(m: Mount, a: Serving.Archive, w: World, n: string, off: nat, len: nat, env: ReadEnv)
    requires !(m.blockCache && HasPrefix(n, "blk"))
    ensures !ByBlocks(m, a, w, n, off, len, env)
  {
  }

  lemma BlockmapModeKeeps(m: Mount, w: World, n: string, off: nat, dest: Buf, env: ReadEnv)
    ensures BlockmapMode(m, w, n, off, dest, env).1.hints == w.hints
  {
    hide ViaBlockmap, LoadBlockmap, MapIsAbsent;
    MapLoading(m, w, n, env);
  }

  /** The answer depends on rows and cached files only. */
  lemma WholeFileSame(m: Mount, w: World, w': World, n: string, off: nat, len: nat, env: ReadEnv, reply: Reply)
    requires w'.rows == w.rows && w'.cache == w.cache
    ensures WholeFileAnswer(m, w', n, off, len, env, reply) <==> WholeFileAnswer(m, w, n, off, len, env, reply)
  {
    hide ReadFrom, Clip;
  }

  lemma BlocksSame(m: Mount, a: Serving.Archive, w: World, w': World, n: string, off: nat, len: nat, env: ReadEnv)
    requires w'.blocks == w.blocks && w'.blockmaps == w.blockmaps && w'.noBlockmap == w.noBlockmap
    ensures ByBlocks(m, a, w', n, off, len, env) <==> ByBlocks(m, a, w, n, off, len, env)
    ensures n in a.maps ==>
              (BlocksObtainable(m, a, w', n, off, len, env) <==> BlocksObtainable(m, a, w, n, off, len, env))
  {
    hide Overlaps;
  }

  /** So a read of a nonempty range of an archived file succeeds exactly when one of the sources that it turns to can
      deliver. */
  lemma RemoteReadSucceedsIff(m: Mount, a: Serving.Archive, w: World, id: int, off: nat, dest: Buf, env: ReadEnv)
    requires Serving.Faithful(m, a) && Serving.AllAgree(m, a, w) && 0 < |dest| < TWO63
    requires id in w.handles && w.handles[id].Reader? && w.handles[id].state == Remote
    requires Serving.NoCollision(m, a, w.handles[id].name, env) && Lifecycle.Archived(w, w.handles[id].name)
    ensures var n := w.handles[id].name;
            var whole := FP.Answer(m.policy, w.hints, n, env.now) == FP.File;
            Read(m, w, id, off, dest, env).0.Data?
            <==> if !whole && ByBlocks(m, a, w, n, off, |dest|, env)
                 then BlocksObtainable(m, a, w, n, off, |dest|, env)
                 else || (!whole && !env.firstRangeFails)
                      || (CopyKept(w, n, env) && n in w.cache && env.cacheStop != Some(0))
                      || (!CopyKept(w, n, env) && CopyArrives(m, w, n, env) && env.cacheStop != Some(0))
                      || (!CopyKept(w, n, env) && !CopyArrives(m, w, n, env) && !env.secondRangeFails)
  {
    hide Serving.Faithful, Serving.AllAgree, Serving.NoCollision, Read, Clip, ByBlocks, BlocksObtainable, FP.Answer,
        ReadFrom, CopyKept, CopyArrives, IsBlockOrUndo, CacheAgrees;
    var n, reply := w.handles[id].name, Read(m, w, id, off, dest, env).0;
    RemoteReadAnswers(m, a, w, id, off, dest, env);
    ArchivedIsServed(m, a, w, n);
    MapsAreServed(m, a, n);
    if ReadFrom(w.cache, n, off, |dest|, env.cacheStop, reply) {
      ReadFromSucceeds(w.cache, n, off, |dest|, env.cacheStop, reply);
    }
    if env.download.Some? {
      if ReadFrom(w.cache[n := env.download.value], n, off, |dest|, env.cacheStop, reply) {
        ReadFromSucceeds(w.cache[n := env.download.value], n, off, |dest|, env.cacheStop, reply);
      }
    }
    NoDownloadNoCopy(m, w, n, env);
    ByBlocksHasMap(m, a, w, n, off, |dest|, env);
  }

  lemma NoDownloadNoCopy(m: Mount, w: World, n: string, env: ReadEnv)
    ensures CopyArrives(m, w, n, env) ==> env.download.Some?
  {
  }

  lemma ByBlocksHasMap(m: Mount, a: Serving.Archive, w: World, n: string, off: nat, len: nat, env: ReadEnv)
    ensures ByBlocks(m, a, w, n, off, len, env) ==> n in a.maps
  {
  }

  lemma ArchivedIsServed(m: Mount, a: Serving.Archive, w: World, n: string)
    requires Serving.AllAgree(m, a, w) && Lifecycle.Archived(w, n)
    ensures n in m.server
  {
    hide CacheAgrees, IsBlockOrUndo;
    Serving.AgreesAt(m, a, w, n);
  }

  // What a remote read leaves behind

  /** What counts as read is counted, and a file that is now due is hinted. */
  predicate Counted(m: Mount, h: Handle, hints: FP.Hints, w': World, id: int, off: nat, n: nat, now: int)
    requires h.Reader?
  {
    var t := FP.Observe(m.policy, h.tracker, off, n);
    && id in w'.handles && w'.handles[id] == h.(tracker := t)
    && w'.hints == if FP.Promotes(m.policy, hints, h.name, t, now) then FP.AfterSuccess(m.policy, hints, h.name, now)
                   else hints
  }

  /** The download brought the right bytes. */
  predicate GoodDownload(m: Mount, w: World, n: string, env: ReadEnv) {
    && n in w.rows && !env.relookupFails && env.download.Some?
    && ((w.rows[n].sha.Some? && w.rows[n].sha.value == m.sha(env.download.value))
        || (w.rows[n].sha.None? && n in m.manifest && m.manifest[n].sha == Some(m.sha(env.download.value))))
  }

  /** The row of a file that was downloaded at this time. */
  predicate CachedRow(m: Mount, row: Row, data: Buf, now: int) {
    && row.state == Cached && row.source == Server && row.size == |data| && row.sha == Some(m.sha(data))
    && row.access == now
  }

  /** The rows behind a whole-file read: those of other files stay; the file's own is new when a good download was
      recorded, and otherwise differs in the access time at most. */
  ghost predicate RowsLeft(m: Mount, w: World, w': World, n: string, env: ReadEnv) {
    var recorded := !CopyKept(w, n, env) && GoodDownload(m, w, n, env) && env.cacheStore in {Stored, UpdateFails};
    && (forall k :: k != n ==> (k in w'.rows <==> k in w.rows) && (k in w.rows ==> w'.rows[k] == w.rows[k]))
    && (n in w'.rows <==> n in w.rows)
    && (recorded ==> CachedRow(m, w'.rows[n], env.download.value, env.now))
    && (n in w.rows && !recorded ==> w'.rows[n] == w.rows[n].(access := w'.rows[n].access))
  }

  /** A whole-file read turns the handle to the copy that is kept or arrives, and hints the file; if none can be had the
      file cools down, and what the last range request brought is counted. The cached file changes exactly when a good
      download reaches the disk. */
  ghost predicate WholeFileLeft(m: Mount, w: World, id: int, off: nat, len: nat, env: ReadEnv, w': World)
    requires id in w.handles && w.handles[id].Reader?
  {
    var h := w.handles[id];
    var n := h.name;
    var fetched := !CopyKept(w, n, env) && GoodDownload(m, w, n, env);
    var last := n in m.server && len > 0 && !env.secondRangeFails;
    && w'.local == w.local && w'.writers == w.writers && w'.handles.Keys == w.handles.Keys
    && w'.cache == (if fetched && env.cacheStore != DiskFails then w.cache[n := env.download.value] else w.cache)
    && RowsLeft(m, w, w', n, env)
    && (if CopyKept(w, n, env) || CopyArrives(m, w, n, env) then
          && w'.handles == w.handles[id := h.(state := Cached)]
          && w'.hints == FP.AfterSuccess(m.policy, w.hints, n, env.now)
        else
          && w'.handles == (if last then w.handles[id := h.(tracker :=
                              FP.Observe(m.policy, h.tracker, off, |Clip(m.server[n], off, len)|))] else w.handles)
          && w'.hints == FP.AfterFailure(m.policy, w.hints, n, env.now))
  }

  lemma WholeFileLeaves(m: Mount, w: World, id: int, off: nat, len: nat, env: ReadEnv)
    requires id in w.handles && w.handles[id].Reader?
    ensures WholeFileLeft(m, w, id, off, len, env, FileMode(m, w, id, off, len, env).1)
  {
    hide FileMode, FetchAndCache, WholeFileLeft, CopyKept, CopyArrives, GoodDownload, RowsFetched;
    FetchLeaves(m, w, w.handles[id].name, env);
    if FetchAndCache(m, w, w.handles[id].name, env).0 {
      CopyLeaves(m, w, id, off, len, env);
    } else {
      NoCopyLeaves(m, w, id, off, len, env);
    }
  }

  lemma CopyLeaves(m: Mount, w: World, id: int, off: nat, len: nat, env: ReadEnv)
    requires id in w.handles && w.handles[id].Reader?
    requires FetchAndCache(m, w, w.handles[id].name, env).0
    ensures WholeFileLeft(m, w, id, off, len, env, FileMode(m, w, id, off, len, env).1)
  {
    hide Clip, Pread, FP.Observe, FP.AfterSuccess, FP.AfterFailure, FetchAndCache, CopyKept, CopyArrives, GoodDownload,
        Touch, RowsLeft, RowsFetched;
    var h := w.handles[id];
    FetchLeaves(m, w, h.name, env);
    var w1, w' := FetchAndCache(m, w, h.name, env).1, FileMode(m, w, id, off, len, env).1;
    var turned := w1.(handles := w1.handles[id := h.(state := Cached)],
                      hints := FP.AfterSuccess(m.policy, w1.hints, h.name, env.now));
    SameKeys(w.handles, id, h.(state := Cached));
    TouchLeaves(turned, h.name, env);
    RowsFrom(m, w, w1, w', h.name, env);
  }

  lemma NoCopyLeaves(m: Mount, w: World, id: int, off: nat, len: nat, env: ReadEnv)
    requires id in w.handles && w.handles[id].Reader?
    requires !FetchAndCache(m, w, w.handles[id].name, env).0
    ensures WholeFileLeft(m, w, id, off, len, env, FileMode(m, w, id, off, len, env).1)
  {
    hide Clip, Pread, FP.Observe, FP.AfterSuccess, FP.AfterFailure, FetchAndCache, CopyKept, CopyArrives, GoodDownload,
        Touch, RowsLeft, RowsFetched;
    var h := w.handles[id];
    FetchLeaves(m, w, h.name, env);
    var w1, w' := FetchAndCache(m, w, h.name, env).1, FileMode(m, w, id, off, len, env).1;
    var n := |if h.name in m.server then Clip(m.server[h.name], off, len) else []|;
    var t := FP.Observe(m.policy, h.tracker, off, n);
    var counted := w1.(hints := FP.AfterFailure(m.policy, w1.hints, h.name, env.now),
                       handles := w1.handles[id := h.(tracker := t)]);
    SameKeys(w.handles, id, h.(tracker := t));
    TouchLeaves(counted, h.name, env);
    RowsFrom(m, w, w1, w', h.name, env);
  }

  /** An access recorded behind the download makes no difference but for the access time. */
  lemma RowsFrom(m: Mount, w: World, w1: World, w': World, n: string, env: ReadEnv)
    requires RowsFetched(m, w, w1, n, env)
    requires w'.rows == w1.rows || Accessed(w1, w', n, !env.touchFails, env.now)
    ensures RowsLeft(m, w, w', n, env)
  {
    hide CopyKept, GoodDownload;
  }

  /** The rows behind the download alone. */
  predicate RowsFetched(m: Mount, w: World, w1: World, n: string, env: ReadEnv) {
    if !CopyKept(w, n, env) && GoodDownload(m, w, n, env) && env.cacheStore in {Stored, UpdateFails} then
      && n in w.rows && n in w1.rows && CachedRow(m, w1.rows[n], env.download.value, env.now)
      && w1.rows == w.rows[n := w1.rows[n]]
    else w1.rows == w.rows
  }

  lemma SameKeys(handles: map<int, Handle>, id: int, h: Handle)
    requires id in handles
    ensures handles[id := h].Keys == handles.Keys
  {
  }

  lemma TouchLeaves(w: World, n: string, env: ReadEnv)
    ensures var w' := Touch(w, n, env);
            && w' == w.(rows := w'.rows) && Accessed(w, w', n, !env.touchFails, env.now)
  {
  }

  lemma FetchLeaves(m: Mount, w: World, n: string, env: ReadEnv)
    ensures var (ok, w1) := FetchAndCache(m, w, n, env);
            var fetched := !CopyKept(w, n, env) && GoodDownload(m, w, n, env);
            && ok == (CopyKept(w, n, env) || CopyArrives(m, w, n, env))
            && w1 == w.(cache := w1.cache, rows := w1.rows)
            && w1.cache == (if fetched && env.cacheStore != DiskFails then w.cache[n := env.download.value]
                            else w.cache)
            && RowsFetched(m, w, w1, n, env)
  {
  }

  /** A read through a handle on a remote file, behind the question to the policy. */
  ghost predicate RemoteLeft(m: Mount, a: Serving.Archive, w: World, id: int, off: nat, len: nat, env: ReadEnv,
                             w': World)
    requires id in w.handles && w.handles[id].Reader?
  {
    var h := w.handles[id];
    var n, asked := h.name, w.(hints := FP.AfterQuery(m.policy, w.hints, h.name, env.now));
    var whole := FP.Answer(m.policy, w.hints, n, env.now) == FP.File;
    if !whole && n in m.server && ByBlocks(m, a, w, n, off, len, env) then
      && w'.cache == w.cache && w'.local == w.local && w'.writers == w.writers && w'.handles.Keys == w.handles.Keys
      && (BlocksObtainable(m, a, w, n, off, len, env) ==>
            Accessed(w, w', n, !env.touchFails, env.now) && Counted(m, h, asked.hints, w', id, off, len, env.now))
      && (!BlocksObtainable(m, a, w, n, off, len, env) ==>
            w'.rows == w.rows && w'.handles == w.handles && w'.hints == asked.hints)
    else if !whole && n in m.server && len > 0 && !env.firstRangeFails then
      && w'.cache == w.cache && w'.local == w.local && w'.writers == w.writers && w'.handles.Keys == w.handles.Keys
      && Accessed(w, w', n, !env.touchFails, env.now)
      && Counted(m, h, asked.hints, w', id, off, |Clip(m.server[n], off, len)|, env.now)
    else WholeFileLeft(m, asked, id, off, len, env, w')
  }

  lemma RemoteReadLeaves(m: Mount, a: Serving.Archive, w: World, id: int, off: nat, dest: Buf, env: ReadEnv)
    requires Serving.Faithful(m, a) && Serving.AllAgree(m, a, w) && |dest| < TWO63
    requires id in w.handles && w.handles[id].Reader? && w.handles[id].state == Remote
    requires Serving.NoCollision(m, a, w.handles[id].name, env)
    ensures RemoteLeft(m, a, w, id, off, |dest|, env, Read(m, w, id, off, dest, env).1)
  {
    hide Serving.Faithful, Serving.AllAgree, Serving.NoCollision, RangeMode, FileMode, BlockmapMode, Clip,
        WholeFileLeft, ByBlocks, BlocksObtainable, FP.Answer, FP.AfterQuery, HasPrefix, MaybePromote, Observed, Counted,
        Accessed, RemoteLeft;
    var n := w.handles[id].name;
    var w1 := w.(hints := FP.AfterQuery(m.policy, w.hints, n, env.now));
    if FP.Answer(m.policy, w.hints, n, env.now) == FP.File {
      WholeFileLeaves(m, w1, id, off, |dest|, env);
      LeftWhole(m, a, w, id, off, |dest|, env, FileMode(m, w1, id, off, |dest|, env).1);
    } else if m.blockCache && HasPrefix(n, "blk") {
      Serving.StillAgree(m, a, w, w1);
      BlockmapReply(m, a, w1, n, off, dest, env);
      BlocksSame(m, a, w, w1, n, off, |dest|, env);
      var (reply, w2) := BlockmapMode(m, w1, n, off, dest, env);
      BlockmapModeKeeps(m, w1, n, off, dest, env);
      if reply == Fail(ENODATA) {
        RangeLeaves(m, w2, id, off, |dest|, env);
        LeftRange(m, a, w, w2, id, off, |dest|, env, RangeMode(m, w2, id, off, |dest|, env).1);
      } else {
        ObservedLeaves(m, w2, id, off, |dest|, env);
        LeftBlocks(m, a, w, w2, id, off, |dest|, env, Read(m, w, id, off, dest, env).1);
      }
    } else {
      NotByBlocks(m, a, w, n, off, |dest|, env);
      RangeLeaves(m, w1, id, off, |dest|, env);
      LeftRange(m, a, w, w1, id, off, |dest|, env, RangeMode(m, w1, id, off, |dest|, env).1);
    }
  }

  /** A read that is counted changes the access time, the tracker and the hints. */
  lemma ObservedLeaves(m: Mount, w: World, id: int, off: nat, n: nat, env: ReadEnv)
    requires id in w.handles && w.handles[id].Reader?
    ensures var w' := MaybePromote(m, Observed(m, w, id, off, n, env), id, env.now);
            CountedRead(m, w, id, off, n, env, w')
  {
    hide FP.Observe, FP.Promotes, FP.AfterSuccess, Touch;
    var h := w.handles[id];
    var t := FP.Observe(m.policy, h.tracker, off, n);
    TouchLeaves(w.(handles := w.handles[id := h.(tracker := t)]), h.name, env);
    SameKeys(w.handles, id, h.(tracker := t));
  }

  predicate CountedRead(m: Mount, w: World, id: int, off: nat, n: nat, env: ReadEnv, w': World)
    requires id in w.handles && w.handles[id].Reader?
  {
    && w'.cache == w.cache && w'.local == w.local && w'.writers == w.writers && w'.handles.Keys == w.handles.Keys
    && Accessed(w, w', w.handles[id].name, !env.touchFails, env.now)
    && Counted(m, w.handles[id], w.hints, w', id, off, n, env.now)
  }

  /** A range request that works is a counted read; behind one that fails comes the whole file. */
  ghost predicate RangeLeft(m: Mount, w: World, id: int, off: nat, len: nat, env: ReadEnv, w': World)
    requires id in w.handles && w.handles[id].Reader?
  {
    var n := w.handles[id].name;
    if n in m.server && len > 0 && !env.firstRangeFails
    then CountedRead(m, w, id, off, |Clip(m.server[n], off, len)|, env, w')
    else WholeFileLeft(m, w, id, off, len, env, w')
  }

  lemma RangeLeaves(m: Mount, w: World, id: int, off: nat, len: nat, env: ReadEnv)
    requires id in w.handles && w.handles[id].Reader?
    ensures RangeLeft(m, w, id, off, len, env, RangeMode(m, w, id, off, len, env).1)
  {
    hide Clip, FileMode, WholeFileLeft, CountedRead, Observed, MaybePromote;
    var n := w.handles[id].name;
    if n in m.server && len > 0 && !env.firstRangeFails {
      ObservedLeaves(m, w, id, off, |Clip(m.server[n], off, len)|, env);
    } else {
      WholeFileLeaves(m, w, id, off, len, env);
    }
  }

  lemma LeftWhole(m: Mount, a: Serving.Archive, w: World, id: int, off: nat, len: nat, env: ReadEnv, w': World)
    requires id in w.handles && w.handles[id].Reader?
    requires FP.Answer(m.policy, w.hints, w.handles[id].name, env.now) == FP.File
    requires var n := w.handles[id].name;
             WholeFileLeft(m, w.(hints := FP.AfterQuery(m.policy, w.hints, n, env.now)), id, off, len, env, w')
    ensures RemoteLeft(m, a, w, id, off, len, env, w')
  {
    hide WholeFileLeft, FP.AfterQuery, FP.Answer, ByBlocks;
  }

  lemma LeftRange(m: Mount, a: Serving.Archive, w: World, w2: World, id: int, off: nat, len: nat, env: ReadEnv,
                  w': World)
    requires id in w.handles && w.handles[id].Reader?
    requires FP.Answer(m.policy, w.hints, w.handles[id].name, env.now) != FP.File
    requires !ByBlocks(m, a, w, w.handles[id].name, off, len, env)
    requires w2.rows == w.rows && w2.cache == w.cache && w2.handles == w.handles && w2.local == w.local
    requires w2.writers == w.writers && w2.hints == FP.AfterQuery(m.policy, w.hints, w.handles[id].name, env.now)
    requires RangeLeft(m, w2, id, off, len, env, w')
    ensures RemoteLeft(m, a, w, id, off, len, env, w')
  {
    hide WholeFileLeft, FP.AfterQuery, FP.Answer, ByBlocks, Counted, Clip;
    LeftSame(m, w.(hints := w2.hints), w2, id, off, len, env, w');
  }

  lemma LeftBlocks(m: Mount, a: Serving.Archive, w: World, w2: World, id: int, off: nat, len: nat, env: ReadEnv,
                   w': World)
    requires id in w.handles && w.handles[id].Reader?
    requires FP.Answer(m.policy, w.hints, w.handles[id].name, env.now) != FP.File
    requires ByBlocks(m, a, w, w.handles[id].name, off, len, env)
    requires w2.rows == w.rows && w2.cache == w.cache && w2.handles == w.handles && w2.local == w.local
    requires w2.writers == w.writers && w2.hints == FP.AfterQuery(m.policy, w.hints, w.handles[id].name, env.now)
    requires w.handles[id].name in m.server && w.handles[id].name in a.maps
    requires if BlocksObtainable(m, a, w, w.handles[id].name, off, len, env)
             then CountedRead(m, w2, id, off, len, env, w') else w' == w2
    ensures RemoteLeft(m, a, w, id, off, len, env, w')
  {
    hide WholeFileLeft, FP.AfterQuery, FP.Answer, ByBlocks, Counted, Clip, BlocksObtainable;
  }

  lemma LeftSame(m: Mount, w: World, w': World, id: int, off: nat, len: nat, env: ReadEnv, after: World)
    requires w'.rows == w.rows && w'.cache == w.cache && w'.handles == w.handles && w'.hints == w.hints
    requires w'.local == w.local && w'.writers == w.writers && id in w.handles && w.handles[id].Reader?
    ensures WholeFileLeft(m, w', id, off, len, env, after) <==> WholeFileLeft(m, w, id, off, len, env, after)
  {
    hide Clip, FP.Observe, FP.AfterSuccess, FP.AfterFailure, CachedRow;
  }
}

/** What readers get: on an archived file every successful read, by whatever path, is a read of the server's file. */
module Serving {
  import opened Bytes
  import opened Store
  import opened Blockmap
  import opened BlockScan
  import opened BlockRead
  import opened World
  import BlockmapCodec
  import Lifecycle
  import FP = FetchPolicy

  /** The maps that the archive publishes for its blk files, and the network they belong to. */
  datatype Archive = Archive(magic: uint32, maps: map<string, seq<Entry>>)

  function ServedFile(m: Mount, a: Archive, n: string): BlkFile
    requires n in m.server
  {
    BlkFile(m.server[n], a.magic, m.sha)
  }

  /** The published map describes the served file and can be written and read back. */
  ghost predicate MapOk(m: Mount, a: Archive, n: string) {
    n in a.maps ==>
      n in m.server && Describes(ServedFile(m, a, n), a.maps[n]) && |a.maps[n]| < BlockmapCodec.ENTRY_LIMIT
  }

  /** The manifest lists the hashes of what the server stores. */
  ghost predicate ListingOk(m: Mount, a: Archive, n: string) {
    n in m.manifest ==>
      && (m.manifest[n].sha.Some? ==> n in m.server && m.manifest[n].sha == Some(m.sha(m.server[n])))
      && (m.manifest[n].blockmapSha.Some? ==>
            n in a.maps && m.manifest[n].blockmapSha == Some(m.sha(BlockmapCodec.EncodeMap(a.maps[n]))))
  }

  ghost predicate Faithful(m: Mount, a: Archive) {
    forall n :: MapOk(m, a, n) && ListingOk(m, a, n)
  }

  /** The names whose cached copies matter: those that are archived, and block files, which may become archived.
      Anything else in the cache directory, like the manifest and the state of compaction, is of no concern. */
  predicate Archivable(w: World, n: string) { Lifecycle.Archived(w, n) || IsBlockOrUndo(n) }

  /** What is known locally about one name agrees with the server: the recorded hash, the cached copy, the map and the
      cached blocks. Only block files are ever finalized. */
  ghost predicate Agrees(m: Mount, a: Archive, w: World, n: string) {
    && (Lifecycle.Archived(w, n) ==>
          n in m.server && (w.rows[n].sha.Some? ==> w.rows[n].sha == Some(m.sha(m.server[n]))))
    && (n in w.rows && w.rows[n].state == LocalFinalized ==> IsBlockOrUndo(n))
    && (n in w.cache && Archivable(w, n) ==> n in m.server && w.cache[n] == m.server[n])
    && (n in w.blockmaps ==> n in a.maps && w.blockmaps[n] == a.maps[n])
    && (n in a.maps && n in m.server ==> CacheAgrees(w.blocks, n, ServedFile(m, a, n), a.maps[n]))
  }

  ghost predicate AllAgree(m: Mount, a: Archive, w: World) {
    forall n :: Agrees(m, a, w, n)
  }

  /** Downloads during a read of `n` do not collide: bytes with the expected hash are the expected bytes. */
  ghost predicate NoCollision(m: Mount, a: Archive, n: string, env: ReadEnv) {
    && (env.download.Some? && n in m.server && m.sha(env.download.value) == m.sha(m.server[n]) ==>
          env.download.value == m.server[n])
    && (env.blockmap.Fetched? && n in a.maps && m.sha(env.blockmap.raw) == m.sha(BlockmapCodec.EncodeMap(a.maps[n])) ==>
          env.blockmap.raw == BlockmapCodec.EncodeMap(a.maps[n]))
  }

  /** The outside world is honest about a step: no hash collisions, and what is compacted is what the server has. */
  ghost predicate HonestStep(m: Mount, a: Archive, w: World, op: Op) {
    match op
    case OpRead(id, _, _, env) => id in w.handles ==> NoCollision(m, a, w.handles[id].name, env)
    case OpCompact(height, _, _) =>
      forall n :: n in w.rows && Covered(w.rows[n], height) ==>
          n in m.server && w.rows[n].sha == Some(m.sha(m.server[n]))
    case _ => true
  }

  // The pieces of a read

  lemma FetchedMapIsPublished(m: Mount, a: Archive, name: string, env: ReadEnv)
    requires Faithful(m, a) && NoCollision(m, a, name, env) && FetchMap(m, name, env).Usable?
    ensures name in a.maps && FetchMap(m, name, env).es == a.maps[name]
  {
    hide BlockmapCodec.DecodeMap, BlockmapCodec.EncodeMap;
    assert ListingOk(m, a, name) && MapOk(m, a, name);
    var es := a.maps[name];
    PublishedMapSurvives(m, a, name);
  }

  lemma PublishedMapSurvives(m: Mount, a: Archive, name: string)
    requires MapOk(m, a, name) && name in a.maps
    ensures BlockmapCodec.DecodeMap(BlockmapCodec.EncodeMap(a.maps[name])) == Ok(a.maps[name])
  {
    hide BlockmapCodec.DecodeMap, BlockmapCodec.EncodeMap, TilesFrom, AllBlocks;
    var es := a.maps[name];
    TilingSorted(es, 0, |m.server[name]|);
    BlockmapCodec.MapRoundTripIff(es, []);
    assert BlockmapCodec.EncodeMap(es) + [] == BlockmapCodec.EncodeMap(es);
  }

  lemma FaithfulAt(m: Mount, a: Archive, n: string)
    requires Faithful(m, a)
    ensures MapOk(m, a, n) && ListingOk(m, a, n)
  {
  }

  lemma OtherFileUntouched(blocks: BlockMap, blocks': BlockMap, n: string, f: BlkFile, es: seq<Entry>, name: string)
    requires CacheAgrees(blocks, n, f, es) && n != name
    requires forall k :: k in blocks' && k.0 != name ==> k in blocks && blocks'[k] == blocks[k]
    ensures CacheAgrees(blocks', n, f, es)
  {
  }

  lemma AgreesAt(m: Mount, a: Archive, w: World, n: string)
    requires AllAgree(m, a, w)
    ensures Agrees(m, a, w, n)
  {
  }

  /** Nothing is newly archived, and only block files are newly finalized. */
  predicate SameArchivedHash(w: World, w': World, n: string) {
    && (Lifecycle.Archived(w', n) ==> Lifecycle.Archived(w, n) && w'.rows[n].sha == w.rows[n].sha)
    && (n in w'.rows && w'.rows[n].state == LocalFinalized ==>
          IsBlockOrUndo(n) || (n in w.rows && w.rows[n].state == LocalFinalized))
  }

  /** Steps that leave the caches alone and archive nothing new keep the agreement. */
  lemma StillAgree(m: Mount, a: Archive, w: World, w': World)
    requires AllAgree(m, a, w) && w'.cache == w.cache && w'.blockmaps == w.blockmaps && w'.blocks == w.blocks
    requires forall n :: SameArchivedHash(w, w', n)
    ensures AllAgree(m, a, w')
  {
    hide CacheAgrees, IsBlockOrUndo;
    forall n
      ensures Agrees(m, a, w', n)
    {
      AgreesAt(m, a, w, n);
      assert SameArchivedHash(w, w', n);
    }
  }

  predicate SameKnowledge(w: World, w': World, n: string) {
    && (n in w'.cache ==> n in w.cache && w'.cache[n] == w.cache[n])
    && (n in w'.blockmaps ==> n in w.blockmaps && w'.blockmaps[n] == w.blockmaps[n])
    && SameArchivedHash(w, w', n)
  }

  /** A step that learns something about one name only. */
  lemma OneNameLearned(m: Mount, a: Archive, w: World, w': World, name: string)
    requires AllAgree(m, a, w) && Agrees(m, a, w', name) && w'.blocks == w.blocks
    requires forall n :: n != name ==> SameKnowledge(w, w', n)
    ensures AllAgree(m, a, w')
  {
    hide CacheAgrees, IsBlockOrUndo;
    forall n
      ensures Agrees(m, a, w', n)
    {
      if n != name {
        AgreesAt(m, a, w, n);
        assert SameKnowledge(w, w', n);
      }
    }
  }

  lemma LoadedMapIsPublished(m: Mount, a: Archive, w: World, name: string, env: ReadEnv)
    requires Faithful(m, a) && AllAgree(m, a, w) && NoCollision(m, a, name, env)
    ensures var (es, w') := LoadBlockmap(m, w, name, env);
            && (es.Some? ==> name in a.maps && es.value == a.maps[name])
            && AllAgree(m, a, w') && w'.blocks == w.blocks
  {
    hide FetchMap, Agrees, Faithful, AllAgree, NoCollision;
    if name in w.blockmaps {
      KnownMap(m, a, w, name);
    } else if name !in w.noBlockmap {
      var fetched := FetchMap(m, name, env);
      match fetched
      case Usable(es) =>
        FetchedMapIsPublished(m, a, name, env);
        LearnedMap(m, a, w, name);
      case Absent =>
        StillAgree(m, a, w, w.(noBlockmap := w.noBlockmap + {name}));
      case TryAgain =>
    }
  }

  lemma KnownMap(m: Mount, a: Archive, w: World, name: string)
    requires AllAgree(m, a, w) && name in w.blockmaps
    ensures name in a.maps && w.blockmaps[name] == a.maps[name]
  {
    AgreesAt(m, a, w, name);
  }

  lemma LearnedMap(m: Mount, a: Archive, w: World, name: string)
    requires AllAgree(m, a, w) && name in a.maps
    ensures AllAgree(m, a, w.(blockmaps := w.blockmaps[name := a.maps[name]]))
  {
    hide CacheAgrees, AllAgree, IsBlockOrUndo;
    AgreesAt(m, a, w, name);
    OneNameLearned(m, a, w, w.(blockmaps := w.blockmaps[name := a.maps[name]]), name);
  }

  lemma NewBlocksAgree(m: Mount, a: Archive, w: World, w': World, name: string)
    requires AllAgree(m, a, w) && name in m.server && name in a.maps
    requires w' == w.(blocks := w'.blocks) && CacheAgrees(w'.blocks, name, ServedFile(m, a, name), a.maps[name])
    requires forall k :: k in w'.blocks && k.0 != name ==> k in w.blocks && w'.blocks[k] == w.blocks[k]
    ensures AllAgree(m, a, w')
  {
    hide CacheAgrees, IsBlockOrUndo;
    forall n
      ensures Agrees(m, a, w', n)
    {
      AgreesAt(m, a, w, n);
      if n != name && n in a.maps && n in m.server {
        OtherFileUntouched(w.blocks, w'.blocks, n, ServedFile(m, a, n), a.maps[n], name);
      }
    }
  }

  /** The bytes read are those of the slice, all of them unless the disk failed behind that many. */
  predicate IsSlice(bytes: Buf, slice: Buf, stop: Option<nat>) {
    bytes <= slice && (|bytes| < |slice| ==> stop == Some(|bytes|) && bytes != [])
  }

  /** What a read of `name` may answer, and the agreement it keeps. */
  ghost predicate Answered(m: Mount, a: Archive, name: string, off: nat, len: nat, env: ReadEnv, reply: Reply,
        w': World) {
    && AllAgree(m, a, w')
    && (reply.Data? ==> name in m.server && IsSlice(reply.bytes, Clip(m.server[name], off, len), env.cacheStop))
    && !reply.Crash?
  }

  /** A local read of a file gives a prefix of the slice: all of it iff the disk does not fail within, and none iff it
      fails at once. */
  lemma PreadIsPrefix(dir: map<string, Buf>, name: string, off: nat, len: nat, stop: Option<nat>)
    requires name in dir
    ensures var reply, slice := Pread(dir, name, off, len, stop), Clip(dir[name], off, len);
            && (reply.Data? <==> stop != Some(0))
            && (reply.Data? ==> IsSlice(reply.bytes, slice, stop)
                                && (reply.bytes == slice <==> stop.None? || stop.value >= |slice|))
  {
    hide Clip;
    if stop.Some? && stop.value > 0 {
      var slice := Clip(dir[name], off, len);
      assert slice[..Min(stop.value, |slice|)] <= slice;
    }
  }

  lemma BlockmapModeServes(m: Mount, a: Archive, w: World, name: string, off: nat, dest: Buf, env: ReadEnv)
    requires Faithful(m, a) && AllAgree(m, a, w) && NoCollision(m, a, name, env) && |dest| < TWO63
    ensures var (reply, w') := BlockmapMode(m, w, name, off, dest, env);
            Answered(m, a, name, off, |dest|, env, reply, w')
  {
    hide LoadBlockmap, ViaBlockmap, Describes, CacheAgrees, Faithful, AllAgree, NoCollision, Overlapping, Available;
    LoadedMapIsPublished(m, a, w, name, env);
    var (es, w1) := LoadBlockmap(m, w, name, env);
    if es.Some? {
      FaithfulAt(m, a, name);
      assert CacheAgrees(w1.blocks, name, ServedFile(m, a, name), a.maps[name]) by { AgreesAt(m, a, w1, name); }
      ViaBlockmapIsPread(w1.blocks, name, es.value, dest, off, BlockEnv(m, name, env), ServedFile(m, a, name));
      var (reply, blocks') := ViaBlockmap(w1.blocks, name, es.value, dest, off, BlockEnv(m, name, env));
      NewBlocksAgree(m, a, w1, w1.(blocks := blocks'), name);
    }
  }

  /** Putting the server's file into the cache, with or without recording it. */
  lemma CachedServerFile(m: Mount, a: Archive, w: World, name: string, row: Row)
    requires AllAgree(m, a, w) && name in m.server && Lifecycle.Archived(w, name)
    requires row.state == Cached && row.sha == Some(m.sha(m.server[name]))
    ensures AllAgree(m, a, w.(cache := w.cache[name := m.server[name]]))
    ensures AllAgree(m, a, w.(cache := w.cache[name := m.server[name]], rows := w.rows[name := row]))
  {
    hide CacheAgrees, AllAgree, IsBlockOrUndo;
    AgreesAt(m, a, w, name);
    var w1 := w.(cache := w.cache[name := m.server[name]]);
    OneNameLearned(m, a, w, w1, name);
    OneNameLearned(m, a, w, w1.(rows := w.rows[name := row]), name);
  }

  /** The hash that a download has to have is the server's, wherever it is recorded. */
  lemma ExpectedHashIsServers(m: Mount, a: Archive, w: World, name: string)
    requires Faithful(m, a) && AllAgree(m, a, w) && Lifecycle.Archived(w, name)
    ensures name in m.server
    ensures ExpectedHash(m, w.rows[name], name).Some? ==>
        ExpectedHash(m, w.rows[name], name) == Some(m.sha(m.server[name]))
  {
    hide CacheAgrees, Faithful, AllAgree, IsBlockOrUndo;
    AgreesAt(m, a, w, name);
    FaithfulAt(m, a, name);
  }

  /** A download that is stored is the server's file. */
  lemma FetchAndCacheServes(m: Mount, a: Archive, w: World, name: string, env: ReadEnv)
    requires Faithful(m, a) && AllAgree(m, a, w) && NoCollision(m, a, name, env) && Lifecycle.Archived(w, name)
    ensures AllAgree(m, a, FetchAndCache(m, w, name, env).1)
  {
    hide Faithful, AllAgree, ExpectedHash;
    ExpectedHashIsServers(m, a, w, name);
    var expected := ExpectedHash(m, w.rows[name], name);
    if env.download.Some? && expected == Some(m.sha(env.download.value)) {
      assert env.download.value == m.server[name];
      CachedServerFile(m, a, w, name, Row(Cached, Server, |env.download.value|, expected, env.now, env.now, 0, 0));
    }
  }

  lemma ObservedAgrees(m: Mount, a: Archive, w: World, id: int, off: nat, n: nat, env: ReadEnv)
    requires AllAgree(m, a, w) && id in w.handles && w.handles[id].Reader?
    ensures AllAgree(m, a, Observed(m, w, id, off, n, env))
    ensures AllAgree(m, a, MaybePromote(m, Observed(m, w, id, off, n, env), id, env.now))
  {
    hide AllAgree, FP.Observe, FP.Promotes, FP.AfterSuccess;
    var w1 := Observed(m, w, id, off, n, env);
    StillAgree(m, a, w, w1);
    StillAgree(m, a, w1, MaybePromote(m, w1, id, env.now));
  }

  lemma ReadFromCache(m: Mount, a: Archive, w: World, name: string, off: nat, len: nat, env: ReadEnv)
    requires AllAgree(m, a, w) && Lifecycle.Archived(w, name)
    ensures var reply := Pread(w.cache, name, off, len, env.cacheStop);
            && (reply.Data? ==> name in m.server && IsSlice(reply.bytes, Clip(m.server[name], off, len), env.cacheStop))
            && !reply.Crash?
  {
    hide AllAgree, CacheAgrees, IsBlockOrUndo, Clip, IsSlice;
    AgreesAt(m, a, w, name);
    if name in w.cache {
      PreadIsPrefix(w.cache, name, off, len, env.cacheStop);
    }
  }

  lemma FileModeServes(m: Mount, a: Archive, w: World, id: int, off: nat, len: nat, env: ReadEnv)
    requires Faithful(m, a) && AllAgree(m, a, w) && id in w.handles && w.handles[id].Reader?
    requires NoCollision(m, a, w.handles[id].name, env) && Lifecycle.Archived(w, w.handles[id].name)
    ensures var (reply, w') := FileMode(m, w, id, off, len, env);
            Answered(m, a, w.handles[id].name, off, len, env, reply, w')
  {
    hide FetchAndCache, AllAgree, Faithful, NoCollision, FP.AfterSuccess, FP.AfterFailure, Observed, MaybePromote, Clip;
    var name := w.handles[id].name;
    FetchAndCacheServes(m, a, w, name, env);
    Lifecycle.FetchAndCacheFrame(m, w, name, env);
    var (ok, w1) := FetchAndCache(m, w, name, env);
    if ok {
      var w2 := w1.(handles := w1.handles[id := w.handles[id].(state := Cached)],
                    hints := FP.AfterSuccess(m.policy, w1.hints, name, env.now));
      StillAgree(m, a, w1, w2);
      AgreesAt(m, a, w2, name);
      ReadFromCache(m, a, w2, name, off, len, env);
      StillAgree(m, a, w2, TouchIfOk(w2, name, env, Pread(w2.cache, name, off, len, env.cacheStop)));
    } else {
      var w2 := w1.(hints := FP.AfterFailure(m.policy, w1.hints, name, env.now));
      StillAgree(m, a, w1, w2);
      var data := ServerRange(m, name, off, len, env.secondRangeFails);
      if data.Some? {
        ObservedAgrees(m, a, w2, id, off, |data.value|, env);
      }
    }
  }

  lemma RangeModeServes(m: Mount, a: Archive, w: World, id: int, off: nat, len: nat, env: ReadEnv)
    requires Faithful(m, a) && AllAgree(m, a, w) && id in w.handles && w.handles[id].Reader?
    requires NoCollision(m, a, w.handles[id].name, env) && Lifecycle.Archived(w, w.handles[id].name)
    ensures var (reply, w') := RangeMode(m, w, id, off, len, env);
            Answered(m, a, w.handles[id].name, off, len, env, reply, w')
  {
    hide FileMode, AllAgree, Faithful, NoCollision, Observed, MaybePromote, Clip;
    var data := ServerRange(m, w.handles[id].name, off, len, env.firstRangeFails);
    if data.Some? {
      ObservedAgrees(m, a, w, id, off, |data.value|, env);
    } else {
      FileModeServes(m, a, w, id, off, len, env);
    }
  }

  lemma ReadRemoteServes(m: Mount, a: Archive, w: World, id: int, off: nat, dest: Buf, env: ReadEnv)
    requires Faithful(m, a) && AllAgree(m, a, w) && id in w.handles && w.handles[id].Reader?
    requires NoCollision(m, a, w.handles[id].name, env) && Lifecycle.Archived(w, w.handles[id].name) && |dest| < TWO63
    ensures var (reply, w') := ReadRemote(m, w, id, off, dest, env);
            Answered(m, a, w.handles[id].name, off, |dest|, env, reply, w')
  {
    hide FileMode, RangeMode, BlockmapMode, AllAgree, Faithful, NoCollision, Observed, MaybePromote, Clip,
         FP.Answer, FP.AfterQuery, HasPrefix;
    var name := w.handles[id].name;
    var w1 := w.(hints := FP.AfterQuery(m.policy, w.hints, name, env.now));
    StillAgree(m, a, w, w1);
    if FP.Answer(m.policy, w.hints, name, env.now) == FP.File {
      FileModeServes(m, a, w1, id, off, |dest|, env);
    } else if m.blockCache && HasPrefix(name, "blk") {
      BlockmapModeServes(m, a, w1, name, off, dest, env);
      var (reply, w2) := BlockmapMode(m, w1, name, off, dest, env);
      if reply == Fail(ENODATA) {
        RangeModeServes(m, a, w2, id, off, |dest|, env);
      } else if reply.Data? {
        ObservedAgrees(m, a, w2, id, off, |dest|, env);
      }
    } else {
      RangeModeServes(m, a, w1, id, off, |dest|, env);
    }
  }

  /** FileHandle.Read and NullWriteHandle.Read on an archived file, whichever path they take. */
  lemma ArchivedReadServes(m: Mount, a: Archive, w: World, id: int, off: nat, dest: Buf, env: ReadEnv)
    requires Faithful(m, a) && AllAgree(m, a, w) && Lifecycle.Inv(m, w)
    requires id in w.handles && NoCollision(m, a, w.handles[id].name, env) && |dest| < TWO63
    requires w.handles[id].Reader? ==> !IsLocal(w.handles[id].state)
    requires w.handles[id].NullWriter? ==> Lifecycle.Archived(w, w.handles[id].name)
    requires !w.handles[id].Writer?
    ensures var (reply, w') := Read(m, w, id, off, dest, env);
            Answered(m, a, w.handles[id].name, off, |dest|, env, reply, w')
  {
    hide ReadRemote, AllAgree, Faithful, NoCollision, Clip;
    var name := w.handles[id].name;
    assert Lifecycle.HandleOk(w, w.handles[id]);
    AgreesAt(m, a, w, name);
    if w.handles[id].Reader? {
      if w.handles[id].state == Remote {
        ReadRemoteServes(m, a, w, id, off, dest, env);
      } else {
        ReadFromCache(m, a, w, name, off, |dest|, env);
        StillAgree(m, a, w, TouchIfOk(w, name, env, Pread(w.cache, name, off, |dest|, env.cacheStop)));
      }
    } else if |dest| == 0 {
      EmptyClip(m.server[name], off);
    } else {
      NoLocalCopy(m, w, name);
      ReadFromCache(m, a, w, name, off, |dest|, env);
    }
  }

  lemma EmptyClip(file: Buf, off: nat)
    ensures Clip(file, off, 0) == []
  {
  }

  // Every step and every run

  lemma SameRowsAgree(m: Mount, a: Archive, w: World, w': World)
    requires AllAgree(m, a, w) && w'.rows == w.rows
    requires w'.cache == w.cache && w'.blockmaps == w.blockmaps && w'.blocks == w.blocks
    ensures AllAgree(m, a, w')
  {
    hide AllAgree;
    StillAgree(m, a, w, w');
  }

  lemma LocalRowAgrees(m: Mount, a: Archive, w: World, w': World, name: string)
    requires AllAgree(m, a, w) && name in w'.rows && IsLocal(w'.rows[name].state)
        && w'.rows == w.rows[name := w'.rows[name]]
    requires w'.rows[name].state == LocalFinalized ==> IsBlockOrUndo(name)
    requires w'.cache == w.cache && w'.blockmaps == w.blockmaps && w'.blocks == w.blocks
    ensures AllAgree(m, a, w')
  {
    hide AllAgree;
    StillAgree(m, a, w, w');
  }

  lemma OpenAgrees(m: Mount, a: Archive, w: World, id: int, name: string, write: bool, lookupFails: bool, fails: bool)
    requires AllAgree(m, a, w)
    ensures AllAgree(m, a, Open(w, id, name, write, lookupFails, fails))
  {
    hide AllAgree, CountOpened;
    SameRowsAgree(m, a, w, Open(w, id, name, write, lookupFails, fails));
  }

  lemma CreateAgrees(
      m: Mount, a: Archive, w: World, id: int, name: string, truncate: bool, now: int,
      lookupFails: bool, openFails: bool, upsertFails: bool)
    requires AllAgree(m, a, w)
    ensures AllAgree(m, a, Create(w, id, name, truncate, now, lookupFails, openFails, upsertFails))
  {
    hide AllAgree, CountOpened;
    var w' := Create(w, id, name, truncate, now, lookupFails, openFails, upsertFails);
    if (name in w.rows && !lookupFails && w.rows[name].state != Active) || openFails || upsertFails {
      SameRowsAgree(m, a, w, w');
    } else {
      LocalRowAgrees(m, a, w, w', name);
    }
  }

  lemma ReleaseAgrees(m: Mount, a: Archive, w: World, id: int, now: int, fails: bool)
    requires AllAgree(m, a, w)
    ensures AllAgree(m, a, Release(m, w, id, now, fails))
  {
    hide AllAgree, CountClosed, IsBlockOrUndo, ShouldFinalize;
    var w' := Release(m, w, id, now, fails);
    if w'.rows == w.rows {
      SameRowsAgree(m, a, w, w');
    } else {
      LocalRowAgrees(m, a, w, w', w.handles[id].name);
    }
  }

  lemma WriteAgrees(m: Mount, a: Archive, w: World, id: int, off: nat, data: Buf, lookupFails: bool, written: nat)
    requires AllAgree(m, a, w) && written <= |data|
    ensures AllAgree(m, a, Write(w, id, off, data, lookupFails, written))
  {
    hide AllAgree, WriteAt;
    SameRowsAgree(m, a, w, Write(w, id, off, data, lookupFails, written));
  }

  lemma AllocateAgrees(m: Mount, a: Archive, w: World, id: int, off: nat, size: nat, supported: bool)
    requires AllAgree(m, a, w)
    ensures AllAgree(m, a, Allocate(w, id, off, size, supported))
  {
    hide AllAgree, Zeros;
    SameRowsAgree(m, a, w, Allocate(w, id, off, size, supported));
  }

  lemma {:induction false} EvictShrinksCache(w: World, victims: seq<string>, removeFails: set<string>,
        updateFails: set<string>)
    ensures forall n :: n in EvictAll(w, victims, removeFails, updateFails).cache ==>
              n in w.cache && EvictAll(w, victims, removeFails, updateFails).cache[n] == w.cache[n]
    decreases |victims|
  {
    if victims != [] {
      EvictShrinksCache(RemoveCached(w, victims[0], removeFails, updateFails), victims[1..], removeFails, updateFails);
    }
  }

  lemma EvictAgrees(
      m: Mount, a: Archive, w: World, limit: nat, victims: seq<string>,
      removeFails: set<string>, updateFails: set<string>)
    requires AllAgree(m, a, w) && LruPrefix(w.rows, victims, limit)
    ensures AllAgree(m, a, EvictAll(w, victims, removeFails, updateFails))
  {
    hide EvictAll, CacheAgrees, AllAgree;
    EvictShrinksCache(w, victims, removeFails, updateFails);
    Lifecycle.EvictAllRows(w, victims, removeFails, updateFails);
    var w' := EvictAll(w, victims, removeFails, updateFails);
    forall n
      ensures Agrees(m, a, w', n)
    {
      AgreesAt(m, a, w, n);
    }
    EveryNameAgrees(m, a, w');
  }

  lemma EveryNameAgrees(m: Mount, a: Archive, w: World)
    requires forall n :: Agrees(m, a, w, n)
    ensures AllAgree(m, a, w)
  {
  }

  lemma CompactAgrees(m: Mount, a: Archive, w: World, height: int, removeFails: set<string>, updateFails: set<string>)
    requires AllAgree(m, a, w)
    requires forall n :: n in w.rows && Covered(w.rows[n], height) ==>
        n in m.server && w.rows[n].sha == Some(m.sha(m.server[n]))
    ensures AllAgree(m, a, Compacted(w, height, removeFails, updateFails))
  {
    hide CacheAgrees, AllAgree, IsBlockOrUndo;
    var w' := Compacted(w, height, removeFails, updateFails);
    forall n
      ensures Agrees(m, a, w', n)
    {
      AgreesAt(m, a, w, n);
    }
    EveryNameAgrees(m, a, w');
  }

  lemma NextAgrees(m: Mount, a: Archive, w: World, op: Op)
    requires Faithful(m, a) && AllAgree(m, a, w) && Lifecycle.Inv(m, w) && Enabled(w, op) && HonestStep(m, a, w, op)
    ensures AllAgree(m, a, Next(m, w, op))
  {
    hide AllAgree, Faithful, NoCollision, Lifecycle.Inv, Read, EvictAll, Compacted, LruPrefix,
         Open, Create, Write, Allocate, Release;
    match op
    case OpRead(id, off, dest, env) =>
      if id in w.handles && w.handles[id].Reader? && !IsLocal(w.handles[id].state) {
        ArchivedReadServes(m, a, w, id, off, dest, env);
      } else {
        PassiveRead(m, w, id, off, dest, env);
      }
    case OpEvict(limit, victims, removeFails, updateFails) =>
      EvictAgrees(m, a, w, limit, victims, removeFails, updateFails);
    case OpCompact(height, removeFails, updateFails) => CompactAgrees(m, a, w, height, removeFails, updateFails);
    case OpOpen(id, name, write, lookupFails, fails) => OpenAgrees(m, a, w, id, name, write, lookupFails, fails);
    case OpCreate(id, name, truncate, now, lookupFails, openFails, upsertFails) =>
      CreateAgrees(m, a, w, id, name, truncate, now, lookupFails, openFails, upsertFails);
    case OpWrite(id, off, data, lookupFails, written) => WriteAgrees(m, a, w, id, off, data, lookupFails, written);
    case OpAllocate(id, off, size, supported) => AllocateAgrees(m, a, w, id, off, size, supported);
    case OpRelease(id, now, fails) => ReleaseAgrees(m, a, w, id, now, fails);
  }

  /** Reads through other handles change nothing. */
  lemma PassiveRead(m: Mount, w: World, id: int, off: nat, dest: Buf, env: ReadEnv)
    requires !(id in w.handles && w.handles[id].Reader? && !IsLocal(w.handles[id].state))
    ensures Read(m, w, id, off, dest, env).1 == w
  {
    hide ReadRemote, ReadNull, ReadWriter;
  }

  lemma {:induction false} RunAgrees(m: Mount, a: Archive, worlds: seq<World>, ops: seq<Op>, i: nat)
    requires Lifecycle.IsRun(m, worlds, ops) && Lifecycle.AllSafe(worlds, ops) && Lifecycle.Initial(worlds[0])
        && AllAgree(m, a, worlds[0]) && Faithful(m, a)
    requires forall k :: 0 <= k < |ops| ==> HonestStep(m, a, worlds[k], ops[k])
    requires i < |worlds|
    ensures AllAgree(m, a, worlds[i]) && Lifecycle.Inv(m, worlds[i])
  {
    hide Faithful, Lifecycle.Inv, Lifecycle.Initial, HonestStep, Next, Enabled, Lifecycle.StepAllowed;
    Lifecycle.RunKeeps(m, worlds, ops, i);
    if i > 0 {
      RunAgrees(m, a, worlds, ops, i - 1);
      assert worlds[(i - 1) + 1] == Next(m, worlds[i - 1], ops[i - 1]);
      assert HonestStep(m, a, worlds[i - 1], ops[i - 1]);
      NextAgrees(m, a, worlds[i - 1], ops[i - 1]);
    }
  }

  /** In every run against a faithful archive, any cached copy of an archived file is the server's file, and every
      successful read of an archived file through a FileHandle or a NullWriteHandle, by download, range request,
      blockmap or cache, returns the server's bytes clipped at the end of the file, or as many of them as were read
      from the cached copy before the disk failed; none crashes. */
  lemma EveryReadIsARangeOfTheServedFile(m: Mount, a: Archive, worlds: seq<World>, ops: seq<Op>, i: nat)
    requires Lifecycle.IsRun(m, worlds, ops) && Lifecycle.AllSafe(worlds, ops) && Lifecycle.Initial(worlds[0])
    requires AllAgree(m, a, worlds[0]) && Faithful(m, a)
    requires forall k :: 0 <= k < |ops| ==> HonestStep(m, a, worlds[k], ops[k])
    requires i < |ops|
    ensures forall n :: n in worlds[i].cache && Archivable(worlds[i], n) ==>
        n in m.server && worlds[i].cache[n] == m.server[n]
    ensures var w, op := worlds[i], ops[i];
            op.OpRead? && op.id in w.handles && !w.handles[op.id].Writer?
            && Lifecycle.Archived(w, w.handles[op.id].name) ==>
              var n, reply := w.handles[op.id].name, Read(m, w, op.id, op.off, op.dest, op.env).0;
              && (reply.Data? ==>
                  n in m.server && IsSlice(reply.bytes, Clip(m.server[n], op.off, |op.dest|), op.env.cacheStop))
              && !reply.Crash?
  {
    hide Faithful, Lifecycle.Inv, Lifecycle.Initial, Lifecycle.AllSafe, AllAgree, Next, LruPrefix, ReadRemote,
        ReadNull, ReadWriter, NoCollision, Clip, IsBlockOrUndo, IsSlice;
    var w, op := worlds[i], ops[i];
    RunAgrees(m, a, worlds, ops, i);
    forall n | n in w.cache && Archivable(w, n)
      ensures n in m.server && w.cache[n] == m.server[n]
    {
      AgreesAt(m, a, w, n);
    }
    assert HonestStep(m, a, w, op);
    if op.OpRead? && op.id in w.handles && !w.handles[op.id].Writer? && Lifecycle.Archived(w, w.handles[op.id].name) {
      var h := w.handles[op.id];
      if h.Reader? && IsLocal(h.state) {
        NoLocalCopy(m, w, h.name);
      } else {
        ArchivedReadServes(m, a, w, op.id, op.off, op.dest, op.env);
      }
    }
  }

  lemma NoLocalCopy(m: Mount, w: World, n: string)
    requires Lifecycle.Inv(m, w) && Lifecycle.Archived(w, n)
    ensures n !in w.local
  {
    assert Lifecycle.RowOk(m, w, n);
  }
}

/** The file system as a transition system: metadata, directories, caches and open handles, a function per step. */
module World {
  import opened Bytes
  import opened Store
  import opened Blockmap
  import opened BlockRead
  import BlockmapCodec
  import FP = FetchPolicy

  /** What the manifest says about one file. */
  datatype Listing = Listing(sha: Option<Digest>, blockmapSha: Option<Digest>)

  /** What stays fixed while the file system is mounted. */
  datatype Mount = Mount(
    sha: Sha, policy: FP.Config, server: map<string, Buf>, manifest: map<string, Listing>, blockCache: bool)

  datatype Handle =
    | Reader(name: string, state: FileState, tracker: FP.Tracker)
    | Writer(name: string)
    | NullWriter(name: string)

  datatype World = World(
    rows: Rows, local: map<string, Buf>, cache: map<string, Buf>,
    blocks: BlockMap, blockmaps: map<string, seq<Entry>>, noBlockmap: set<string>,
    hints: FP.Hints, writers: Counts, handles: map<int, Handle>)

  // Opening and creating

  function AddHandle(w: World, id: int, h: Handle): World { w.(handles := w.handles[id := h]) }

  type Counts = map<string, nat>

  function CountOf(counts: Counts, name: string): nat { if name in counts then counts[name] else 0 }

  function CountOpened(counts: Counts, name: string): Counts { counts[name := CountOf(counts, name) + 1] }

  function CountClosed(counts: Counts, name: string): Counts {
    if CountOf(counts, name) <= 1 then counts - {name} else counts[name := CountOf(counts, name) - 1]
  }

  /** A write handle and its entry in the count. */
  function AddWriter(w: World, id: int, name: string): World {
    w.(handles := w.handles[id := Writer(name)], writers := CountOpened(w.writers, name))
  }

  /** FileNode.Open; looking the row up may fail, and so may opening the local file. */
  function Open(w: World, id: int, name: string, write: bool, lookupFails: bool, fails: bool): World {
    if name !in w.rows || lookupFails then w
    else
      var state := w.rows[name].state;
      if !write then AddHandle(w, id, Reader(name, state, FP.FRESH))
      else if state != Active then AddHandle(w, id, NullWriter(name))
      else if fails then w
      else
        var w' := w.(local := if name in w.local then w.local else w.local[name := []]);
        AddWriter(w', id, name)
  }

  /** RootNode.Create. A failed lookup passes for a missing row; the local file may fail to open, and the row may fail
      to be stored behind it. */
  function Create(w: World, id: int, name: string, truncate: bool, now: int,
                  lookupFails: bool, openFails: bool, upsertFails: bool): World {
    if name in w.rows && !lookupFails && w.rows[name].state != Active then AddHandle(w, id, NullWriter(name))
    else if openFails then w
    else
      var w' := w.(local := if name in w.local && !truncate then w.local else w.local[name := []]);
      if upsertFails then w'
      else
        var row := Row(Active, Local, 0, None, now, now, 0, 0);
        AddWriter(w'.(rows := w.rows[name := row]), id, name)
  }

  // Writing

  function Zeros(n: nat): (z: Buf)
    ensures |z| == n
  {
    seq(n, _ => 0)
  }

  /** A positional write, filling a gap behind the end of the file with zeros. */
  function WriteAt(file: Buf, off: nat, data: Buf): Buf {
    if data == [] then file
    else
      var grown := if |file| < off then file + Zeros(off - |file|) else file;
      grown[..off] + data + (if off + |data| < |grown| then grown[off + |data|..] else [])
  }

  /** WriteHandle.Write; `written` bytes reach the disk, all of them unless the write fails. */
  function Write(w: World, id: int, off: nat, data: Buf, lookupFails: bool, written: nat): World
    requires written <= |data|
  {
    if id !in w.handles || !w.handles[id].Writer? || lookupFails then w
    else
      var name := w.handles[id].name;
      if name !in w.rows || !IsWritable(w.rows[name].state) || name !in w.local then w
      else w.(local := w.local[name := WriteAt(w.local[name], off, data[..written])])
  }

  /** WriteHandle.Allocate: extends the file without looking at its row; does nothing where unsupported. */
  function Allocate(w: World, id: int, off: nat, size: nat, supported: bool): World {
    if id !in w.handles || !w.handles[id].Writer? || w.handles[id].name !in w.local || !supported || size == 0 then w
    else
      var file := w.local[w.handles[id].name];
      var grown := if |file| < off + size then file + Zeros(off + size - |file|) else file;
      w.(local := w.local[w.handles[id].name := grown])
  }

  /** Only a blk file whose successor exists locally is finalized on release. */
  predicate ShouldFinalize(w: World, name: string) {
    var n := ParseBlockFileNumber(name, "blk");
    n.Some? && NextBlkName(n.value) in w.local
  }

  function Finalized(m: Mount, row: Row, file: Buf, now: int): Row {
    row.(state := LocalFinalized, sha := Some(m.sha(file)), size := |file|, access := now)
  }

  /** WriteHandle.Release; looking the row up, hashing the file or storing the row may fail, leaving it active. */
  function Release(m: Mount, w: World, id: int, now: int, fails: bool): World {
    if id !in w.handles then w
    else
      var h := w.handles[id];
      var w1 := w.(handles := w.handles - {id});
      if !h.Writer? then w1
      else
        var name := h.name;
        var w2 := w1.(writers := CountClosed(w.writers, name));
        if CountOf(w2.writers, name) > 0 || name !in w.rows || w.rows[name].state != Active
           || !IsBlockOrUndo(name) || !ShouldFinalize(w, name) || fails || name !in w.local then w2
        else w2.(rows := w.rows[name := Finalized(m, w.rows[name], w.local[name], now)])
  }

  // Reading

  /** How the outside world answers during one read. */
  datatype ReadEnv = ReadEnv(
    now: int,
    lookupFails: bool,             // the first lookup of the row
    relookupFails: bool,           // the second one, before a download
    touchFails: bool,              // recording the access
    localStop: Option<nat>,        // a disk error in the local file, behind that many bytes of the read
    cacheStop: Option<nat>,        // the same in the cached file
    download: Option<Buf>,         // what a whole-file download delivers
    cacheStore: StoreOutcome,      // how storing the download ends
    firstRangeFails: bool,         // the direct range request
    secondRangeFails: bool,        // the range request behind a failed download
    blockmap: BlockmapOutcome,     // what fetching the blockmap delivers
    fetchFails: set<int>, storeFails: set<int>,  // block offsets that cannot be fetched, or stored in the cache,
    statFails: set<int>, readFails: set<int>)    // or seen there, or read from there

  datatype StoreOutcome = Stored | DiskFails | UpsertFails | UpdateFails
  datatype BlockmapOutcome = Fetched(raw: Buf) | NotFound | Unreachable

  /** preadLocal: a disk error behind the first byte is returned as a short read. */
  function Pread(dir: map<string, Buf>, name: string, off: nat, len: nat, stop: Option<nat>): Reply {
    if name !in dir then Fail(ENOENT)
    else if stop == Some(0) then Fail(EIO)
    else
      var data := Clip(dir[name], off, len);
      Data(if stop.Some? then data[..Min(stop.value, |data|)] else data)
  }

  function Touch(w: World, name: string, env: ReadEnv): World {
    if name in w.rows && !env.touchFails then w.(rows := w.rows[name := w.rows[name].(access := env.now)]) else w
  }

  function TouchIfOk(w: World, name: string, env: ReadEnv, reply: Reply): World {
    if reply.Data? then Touch(w, name, env) else w
  }

  function ServerRange(m: Mount, name: string, off: nat, len: nat, fails: bool): Option<Buf> {
    if fails || len == 0 || name !in m.server then None else Some(Clip(m.server[name], off, len))
  }

  /** ObserveRangeRead and UpdateLastAccess after a successful range read. */
  function Observed(m: Mount, w: World, id: int, off: nat, n: nat, env: ReadEnv): (w': World)
    requires id in w.handles && w.handles[id].Reader?
    ensures id in w'.handles && w'.handles[id].Reader?
  {
    var h := w.handles[id];
    Touch(w.(handles := w.handles[id := h.(tracker := FP.Observe(m.policy, h.tracker, off, n))]), h.name, env)
  }

  /** MarkPromotionSuccess when the tracker now asks for it. */
  function MaybePromote(m: Mount, w: World, id: int, now: int): World
    requires id in w.handles && w.handles[id].Reader?
  {
    var h := w.handles[id];
    if FP.Promotes(m.policy, w.hints, h.name, h.tracker, now)
    then w.(hints := FP.AfterSuccess(m.policy, w.hints, h.name, now)) else w
  }

  function ExpectedHash(m: Mount, row: Row, name: string): Option<Digest> {
    if row.sha.Some? then row.sha else if name in m.manifest then m.manifest[name].sha else None
  }

  /** fetchAndCache: download, verify, rename into the cache and record the row. */
  function FetchAndCache(m: Mount, w: World, name: string, env: ReadEnv): (bool, World) {
    if name in w.rows && !env.lookupFails && (w.rows[name].state == Cached || w.rows[name].state == LocalFinalized)
    then (true, w)
    else if name !in w.rows || env.relookupFails then (false, w)
    else if env.download.None? then (false, w)
    else
      var buf := env.download.value;
      var expected := ExpectedHash(m, w.rows[name], name);
      if expected != Some(m.sha(buf)) || env.cacheStore == DiskFails then (false, w)
      else
        var w1 := w.(cache := w.cache[name := buf]);
        if env.cacheStore == UpsertFails then (false, w1)
        else
          var row := Row(Cached, Server, |buf|, expected, env.now, env.now, 0, 0);
          (env.cacheStore == Stored, w1.(rows := w.rows[name := row]))
  }

  /** readRemoteFileMode: whole-file download with a range request to fall back on. */
  function FileMode(m: Mount, w: World, id: int, off: nat, len: nat, env: ReadEnv): (Reply, World)
    requires id in w.handles && w.handles[id].Reader?
  {
    var h := w.handles[id];
    var (ok, w1) := FetchAndCache(m, w, h.name, env);
    if ok then
      var w2 := w1.(handles := w1.handles[id := h.(state := Cached)],
                    hints := FP.AfterSuccess(m.policy, w1.hints, h.name, env.now));
      var reply := Pread(w2.cache, h.name, off, len, env.cacheStop);
      (reply, TouchIfOk(w2, h.name, env, reply))
    else
      var w2 := w1.(hints := FP.AfterFailure(m.policy, w1.hints, h.name, env.now));
      var data := ServerRange(m, h.name, off, len, env.secondRangeFails);
      if data.Some? then (Data(data.value), Observed(m, w2, id, off, |data.value|, env)) else (Fail(EIO), w2)
  }

  /** The outcome of looking for a blockmap on the server: a verified map, a lasting or a passing absence. */
  datatype MapFetch = Usable(es: seq<Entry>) | Absent | TryAgain

  function FetchMap(m: Mount, name: string, env: ReadEnv): MapFetch {
    if name !in m.manifest || m.manifest[name].blockmapSha.None? then Absent
    else match env.blockmap
      case Unreachable => TryAgain
      case NotFound => Absent
      case Fetched(raw) =>
        if m.manifest[name].blockmapSha != Some(m.sha(raw)) || BlockmapCodec.DecodeMap(raw).Err? then Absent
        else Usable(BlockmapCodec.DecodeMap(raw).value)
  }

  /** getOrLoadBlockmap: the map in memory, or a fetched one that matches its hash and parses. */
  function LoadBlockmap(m: Mount, w: World, name: string, env: ReadEnv): (r: (Option<seq<Entry>>, World))
    ensures r.1.handles == w.handles && r.1.rows == w.rows && r.1.local == w.local && r.1.writers == w.writers
    ensures r.1.cache == w.cache
  {
    hide FetchMap;
    if name in w.blockmaps then (Some(w.blockmaps[name]), w)
    else if name in w.noBlockmap then (None, w)
    else match FetchMap(m, name, env)
      case Usable(es) => (Some(es), w.(blockmaps := w.blockmaps[name := es]))
      case Absent => (None, w.(noBlockmap := w.noBlockmap + {name}))
      case TryAgain => (None, w)
  }

  function BlockEnv(m: Mount, name: string, env: ReadEnv): Env {
    Env(if name in m.server then m.server[name] else [], m.sha,
        env.fetchFails, env.storeFails, env.statFails, env.readFails)
  }

  /** readViaBlockmap, with ENODATA where there is no usable map. */
  function BlockmapMode(m: Mount, w: World, name: string, off: nat, dest: Buf, env: ReadEnv): (r: (Reply, World))
    ensures r.1.handles == w.handles && r.1.rows == w.rows && r.1.local == w.local && r.1.writers == w.writers
    ensures r.1.cache == w.cache
  {
    var (es, w1) := LoadBlockmap(m, w, name, env);
    if es.None? then (Fail(ENODATA), w1)
    else
      var (reply, blocks) := ViaBlockmap(w1.blocks, name, es.value, dest, off, BlockEnv(m, name, env));
      (reply, w1.(blocks := blocks))
  }

  /** The direct range request, then the whole-file path. */
  function RangeMode(m: Mount, w: World, id: int, off: nat, len: nat, env: ReadEnv): (Reply, World)
    requires id in w.handles && w.handles[id].Reader?
  {
    var h := w.handles[id];
    var data := ServerRange(m, h.name, off, len, env.firstRangeFails);
    if data.Some?
    then (Data(data.value), MaybePromote(m, Observed(m, w, id, off, |data.value|, env), id, env.now))
    else FileMode(m, w, id, off, len, env)
  }

  function ReadRemote(m: Mount, w: World, id: int, off: nat, dest: Buf, env: ReadEnv): (Reply, World)
    requires id in w.handles && w.handles[id].Reader?
  {
    var h := w.handles[id];
    var mode := FP.Answer(m.policy, w.hints, h.name, env.now);
    var w1 := w.(hints := FP.AfterQuery(m.policy, w.hints, h.name, env.now));
    if mode == FP.File then FileMode(m, w1, id, off, |dest|, env)
    else if m.blockCache && HasPrefix(h.name, "blk") then
      var (reply, w2) := BlockmapMode(m, w1, h.name, off, dest, env);
      if reply == Fail(ENODATA) then RangeMode(m, w2, id, off, |dest|, env)
      else if reply.Data? then (reply, MaybePromote(m, Observed(m, w2, id, off, |dest|, env), id, env.now))
      else (reply, w2)
    else RangeMode(m, w1, id, off, |dest|, env)
  }

  /** FileHandle.Read: the handle's own idea of the state decides. */
  function ReadReader(m: Mount, w: World, id: int, off: nat, dest: Buf, env: ReadEnv): (Reply, World)
    requires id in w.handles && w.handles[id].Reader?
  {
    var h := w.handles[id];
    match h.state
    case Active => (Pread(w.local, h.name, off, |dest|, env.localStop), w)
    case LocalFinalized => (Pread(w.local, h.name, off, |dest|, env.localStop), w)
    case Cached =>
      var reply := Pread(w.cache, h.name, off, |dest|, env.cacheStop);
      (reply, TouchIfOk(w, h.name, env, reply))
    case Remote => ReadRemote(m, w, id, off, dest, env)
  }

  /** NullWriteHandle.Read: local copy where the row says so, cached copy, then the server. */
  function ReadNull(m: Mount, w: World, name: string, off: nat, len: nat, env: ReadEnv): Reply {
    if len == 0 then Data([])
    else
      var onDisk := Pread(w.local, name, off, len, env.localStop);
      var cached := Pread(w.cache, name, off, len, env.cacheStop);
      var remote := ServerRange(m, name, off, len, env.firstRangeFails);
      if (name !in w.rows || env.lookupFails || IsLocal(w.rows[name].state)) && onDisk.Data? then onDisk
      else if cached.Data? then cached
      else if remote.Some? then Data(remote.value)
      else Fail(EIO)
  }

  /** WriteHandle.Read: the open local file; a failing read looks empty. */
  function ReadWriter(w: World, name: string, off: nat, len: nat, env: ReadEnv): Reply {
    var reply := Pread(w.local, name, off, len, env.localStop);
    if reply.Data? then reply else Data([])
  }

  function Read(m: Mount, w: World, id: int, off: nat, dest: Buf, env: ReadEnv): (Reply, World) {
    if id !in w.handles then (Fail(EIO), w)
    else match w.handles[id]
      case Reader(_, _, _) => ReadReader(m, w, id, off, dest, env)
      case Writer(name) => (ReadWriter(w, name, off, |dest|, env), w)
      case NullWriter(name) => (ReadNull(m, w, name, off, |dest|, env), w)
  }

  // The daemon

  /** ListCachedByLRU(limit): distinct cached names, as many as the limit allows, none more recent than one left out. */
  ghost predicate LruPrefix(rows: Rows, victims: seq<string>, limit: nat) {
    && (forall i :: 0 <= i < |victims| ==> victims[i] in rows && rows[victims[i]].state == Cached)
    && (forall i, j :: 0 <= i < j < |victims| ==> victims[i] != victims[j])
    && |victims| <= limit
    && (forall n :: n in rows && rows[n].state == Cached && n !in victims ==>
          |victims| == limit && forall i :: 0 <= i < |victims| ==> rows[victims[i]].access <= rows[n].access)
  }

  function RemoveCached(w: World, name: string, removeFails: set<string>, updateFails: set<string>): World {
    if name in removeFails then w
    else
      var w1 := w.(cache := w.cache - {name});
      if name in updateFails || name !in w.rows then w1
      else w1.(rows := w.rows[name := w.rows[name].(state := Remote)])
  }

  /** ForceEvict over the listed victims. */
  function EvictAll(w: World, victims: seq<string>, removeFails: set<string>, updateFails: set<string>): World
    decreases |victims|
  {
    if victims == [] then w
    else EvictAll(RemoveCached(w, victims[0], removeFails, updateFails), victims[1..], removeFails, updateFails)
  }

  predicate Covered(row: Row, height: int) {
    height != 0 && row.state == LocalFinalized && 0 < row.heightLast <= height
  }

  /** Files that cannot be deleted: one that is not there counts as deleted. */
  predicate Blocked(local: map<string, Buf>, removeFails: set<string>, n: string) { n in removeFails && n in local }

  /** Compact as one step. Files that cannot be deleted stay as they are; a file whose row cannot be stored is deleted
      all the same. */
  function Compacted(w: World, height: int, removeFails: set<string>, updateFails: set<string>): World {
    var gone := set n | n in w.rows && Covered(w.rows[n], height) && !Blocked(w.local, removeFails, n);
    w.(local := w.local - gone,
       rows := map n | n in w.rows ::
         if n in gone && n !in updateFails then w.rows[n].(state := Remote, source := Server) else w.rows[n])
  }

  // Steps

  datatype Op =
    | OpOpen(id: int, name: string, write: bool, lookupFails: bool, fails: bool)
    | OpCreate(id: int, name: string, truncate: bool, now: int, lookupFails: bool, openFails: bool, upsertFails: bool)
    | OpWrite(id: int, off: nat, data: Buf, lookupFails: bool, written: nat)
    | OpAllocate(id: int, off: nat, size: nat, supported: bool)
    | OpRelease(id: int, now: int, fails: bool)
    | OpRead(id: int, off: nat, dest: Buf, env: ReadEnv)
    | OpEvict(limit: nat, victims: seq<string>, removeFails: set<string>, updateFails: set<string>)
    | OpCompact(height: int, removeFails: set<string>, updateFails: set<string>)

  /** When a step can happen at all: new handles get new ids, and evictions follow the LRU list. */
  ghost predicate Enabled(w: World, op: Op) {
    match op
    case OpOpen(id, _, _, _, _) => id !in w.handles
    case OpCreate(id, _, _, _, _, _, _) => id !in w.handles
    case OpWrite(_, _, data, _, written) => written <= |data|
    case OpRead(_, _, dest, _) => |dest| < TWO63
    case OpEvict(limit, victims, _, _) => LruPrefix(w.rows, victims, limit)
    case _ => true
  }

  ghost function Next(m: Mount, w: World, op: Op): World
    requires Enabled(w, op)
  {
    match op
    case OpOpen(id, name, write, lookupFails, fails) => Open(w, id, name, write, lookupFails, fails)
    case OpCreate(id, name, truncate, now, lookupFails, openFails, upsertFails) =>
      Create(w, id, name, truncate, now, lookupFails, openFails, upsertFails)
    case OpWrite(id, off, data, lookupFails, written) => Write(w, id, off, data, lookupFails, written)
    case OpAllocate(id, off, size, supported) => Allocate(w, id, off, size, supported)
    case OpRelease(id, now, fails) => Release(m, w, id, now, fails)
    case OpRead(id, off, dest, env) => Read(m, w, id, off, dest, env).1
    case OpEvict(_, victims, removeFails, updateFails) => EvictAll(w, victims, removeFails, updateFails)
    case OpCompact(height, removeFails, updateFails) => Compacted(w, height, removeFails, updateFails)
  }
}

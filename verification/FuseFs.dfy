/** The file system object: each FUSE or daemon operation updates the fields in place and refines its step function. */
module FuseFs {
  import opened Bytes
  import opened Store
  import opened Blockmap
  import opened BlockRead
  import W = World
  import BlockmapCodec
  import Streams
  import FP = FetchPolicy

  class FS {
    const m: W.Mount
    const policy: FP.Policy
    const bc: DiskBlockCache
    var rows: Rows
    var local: map<string, Buf>
    var cache: map<string, Buf>
    var blockmaps: map<string, seq<Entry>>
    var noBlockmap: set<string>
    var activeWriteHandles: map<string, nat>
    var handles: map<int, W.Handle>

    ghost predicate Valid() { policy.config == m.policy }

    ghost function State(): W.World
      reads this, policy, bc
    {
      W.World(rows, local, cache, bc.blocks, blockmaps, noBlockmap, policy.State(), activeWriteHandles, handles)
    }

    constructor (m: W.Mount, rows: Rows, local: map<string, Buf>, cache: map<string, Buf>)
      ensures Valid() && fresh(policy) && fresh(bc) && this.m == m
      ensures State() == W.World(rows, local, cache, map[], map[], {}, FP.NO_HINTS, map[], map[])
    {
      this.m := m;
      policy := new FP.Policy(m.policy);
      bc := new DiskBlockCache();
      this.rows, this.local, this.cache := rows, local, cache;
      blockmaps, noBlockmap, activeWriteHandles, handles := map[], {}, map[], map[];
    }

    method MarkOpened(name: string)
      modifies this
      ensures State() == old(State()).(writers := W.CountOpened(old(activeWriteHandles), name))
    {
      var n := if name in activeWriteHandles then activeWriteHandles[name] else 0;
      activeWriteHandles := activeWriteHandles[name := n + 1];
    }

    method MarkClosed(name: string) returns (remaining: nat)
      modifies this
      ensures State() == old(State()).(writers := W.CountClosed(old(activeWriteHandles), name))
      ensures remaining == W.CountOf(activeWriteHandles, name)
    {
      var n := if name in activeWriteHandles then activeWriteHandles[name] else 0;
      if n <= 1 {
        activeWriteHandles := activeWriteHandles - {name};
        return 0;
      }
      n := n - 1;
      activeWriteHandles := activeWriteHandles[name := n];
      return n;
    }

    method Open(id: int, name: string, write: bool, lookupFails: bool, fails: bool) returns (errno: Option<Errno>)
      modifies this
      ensures State() == W.Open(old(State()), id, name, write, lookupFails, fails)
      ensures errno == if name !in old(rows) || lookupFails then Some(ENOENT)
                       else if write && old(rows)[name].state == Active && fails then Some(EIO) else None
    {
      if lookupFails || name !in rows {
        return Some(ENOENT);
      }
      var state := rows[name].state;
      match state {
        case Active =>
          if !write {
            handles := handles[id := W.Reader(name, state, FP.FRESH)];
            return None;
          }
          if fails {
            return Some(EIO);
          }
          if name !in local {
            local := local[name := []];
          }
          handles := handles[id := W.Writer(name)];
          MarkOpened(name);
          return None;
        case _ =>
          handles := handles[id := if write then W.NullWriter(name) else W.Reader(name, state, FP.FRESH)];
          return None;
      }
    }

    method Create(id: int, name: string, truncate: bool, now: int, lookupFails: bool, openFails: bool,
          upsertFails: bool)
      returns (errno: Option<Errno>)
      modifies this
      ensures State() == W.Create(old(State()), id, name, truncate, now, lookupFails, openFails, upsertFails)
      ensures errno.Some? <==>
              (name in old(rows) && !lookupFails ==> old(rows)[name].state == Active) && (openFails || upsertFails)
    {
      if !lookupFails && name in rows && rows[name].state != Active {
        handles := handles[id := W.NullWriter(name)];
        return None;
      }
      if openFails {
        return Some(EIO);
      }
      if name !in local || truncate {
        local := local[name := []];
      }
      if upsertFails {
        return Some(EIO);
      }
      rows := rows[name := Row(Active, Local, 0, None, now, now, 0, 0)];
      handles := handles[id := W.Writer(name)];
      MarkOpened(name);
      return None;
    }

    method Write(id: int, off: nat, data: Buf, lookupFails: bool, written: nat) returns (errno: Option<Errno>)
      requires id in handles && handles[id].Writer? && written <= |data|
      modifies this
      ensures State() == W.Write(old(State()), id, off, data, lookupFails, written)
      ensures var name := old(handles)[id].name;
              errno == if name !in old(rows) || lookupFails then Some(ENOENT)
                       else if old(rows)[name].state != Active then Some(EACCES)
                       else if written < |data| || name !in old(local) then Some(EIO) else None
    {
      var name := handles[id].name;
      if lookupFails || name !in rows {
        return Some(ENOENT);
      }
      if !IsWritable(rows[name].state) {
        return Some(EACCES);
      }
      if name !in local {
        return Some(EIO);
      }
      local := local[name := W.WriteAt(local[name], off, data[..written])];
      if written < |data| {
        return Some(EIO);
      }
      return None;
    }

    method Allocate(id: int, off: nat, size: nat, supported: bool)
      requires id in handles && handles[id].Writer?
      modifies this
      ensures State() == W.Allocate(old(State()), id, off, size, supported)
    {
      var name := handles[id].name;
      if supported && size > 0 && name in local {
        var file := local[name];
        if |file| < off + size {
          local := local[name := file + W.Zeros(off + size - |file|)];
        } else {
          assert local[name := file] == local;
        }
      }
    }

    predicate ShouldFinalizeOnRelease(name: string)
      reads this
    {
      var n := ParseBlockFileNumber(name, "blk");
      n.Some? && NextBlkName(n.value) in local
    }

    method Finalize(name: string, now: int, fails: bool)
      requires name in rows
      modifies this
      ensures State() == if fails || name !in old(local) then old(State())
                         else old(State())
                              .(rows := old(rows)[name := W.Finalized(m, old(rows)[name], old(local)[name], now)])
    {
      if fails || name !in local {
        return;
      }
      var sha := m.sha(local[name]);
      var entry := rows[name].(state := LocalFinalized, sha := Some(sha), size := |local[name]|, access := now);
      rows := rows[name := entry];
    }

    method Release(id: int, now: int, fails: bool)
      requires id in handles
      modifies this
      ensures State() == W.Release(m, old(State()), id, now, fails)
    {
      hide ParseBlockFileNumber, NextBlkName, W.CountClosed;
      var h := handles[id];
      handles := handles - {id};
      if !h.Writer? {
        return;
      }
      var name := h.name;
      var remaining := MarkClosed(name);
      if remaining > 0 {
        return;
      }
      if name !in rows {
        return;
      }
      if rows[name].state != Active {
        return;
      }
      if ParseBlockFileNumber(name, "blk").None? {
        if ParseBlockFileNumber(name, "rev").None? {
          return;
        }
      }
      if !ShouldFinalizeOnRelease(name) {
        return;
      }
      Finalize(name, now, fails);
    }

    // Reading

    method PreadLocal(dir: map<string, Buf>, name: string, dest: array<byte>, off: nat, stop: Option<nat>)
      returns (reply: Reply)
      modifies dest
      ensures reply == W.Pread(dir, name, off, dest.Length, stop)
    {
      if name !in dir {
        return Fail(ENOENT);
      }
      var data := Clip(dir[name], off, dest.Length);
      var n := if stop.Some? then Min(stop.value, |data|) else |data|;
      forall i | 0 <= i < n {
        dest[i] := data[i];
      }
      if stop.Some? && stop.value == 0 {
        return Fail(EIO);
      }
      assert dest[..n] == data[..n];
      return Data(dest[..n]);
    }

    method UpdateLastAccess(name: string, env: W.ReadEnv)
      modifies this
      ensures State() == W.Touch(old(State()), name, env)
    {
      if !env.touchFails && name in rows {
        rows := rows[name := rows[name].(access := env.now)];
      }
    }

    method FetchRange(name: string, off: nat, len: nat, fails: bool) returns (data: Option<Buf>)
      ensures data == W.ServerRange(m, name, off, len, fails)
    {
      if len == 0 || fails || name !in m.server {
        return None;
      }
      return Some(Clip(m.server[name], off, len));
    }

    method ObserveRangeRead(id: int, off: nat, n: nat, env: W.ReadEnv)
      requires id in handles && handles[id].Reader?
      modifies this
      ensures State() == W.Observed(m, old(State()), id, off, n, env)
    {
      hide FP.Observe;
      var h := handles[id];
      handles := handles[id := h.(tracker := FP.Observe(m.policy, h.tracker, off, n))];
      UpdateLastAccess(h.name, env);
    }

    method PromoteIfDue(id: int, now: int)
      requires Valid() && id in handles && handles[id].Reader?
      modifies policy
      ensures State() == W.MaybePromote(m, old(State()), id, now)
    {
      hide FP.MeetsThresholds;
      var h := handles[id];
      if FP.Promotes(m.policy, policy.State(), h.name, h.tracker, now) {
        policy.MarkPromotionSuccess(h.name, now);
      }
    }

    method StoreInCache(name: string, buf: Buf, expected: Option<Digest>, env: W.ReadEnv) returns (ok: bool)
      requires name in rows
      modifies this
      ensures var w := old(State());
              if expected != Some(m.sha(buf)) || env.cacheStore == W.DiskFails then !ok && State() == w
              else
                var w1 := w.(cache := w.cache[name := buf]);
                if env.cacheStore == W.UpsertFails then !ok && State() == w1
                else
                  var row := Row(Cached, Server, |buf|, expected, env.now, env.now, 0, 0);
                  ok && State() == w1.(rows := w.rows[name := row])
    {
      var computed := m.sha(buf);
      if expected != Some(computed) || env.cacheStore == W.DiskFails {
        return false;
      }
      cache := cache[name := buf];
      if env.cacheStore == W.UpsertFails {
        return false;
      }
      rows := rows[name := Row(Cached, Server, |buf|, expected, env.now, env.now, 0, 0)];
      return true;
    }

    method FetchAndCache(name: string, env: W.ReadEnv) returns (ok: bool)
      modifies this
      ensures (ok, State()) == W.FetchAndCache(m, old(State()), name, env)
    {
      if !env.lookupFails && name in rows && (rows[name].state == Cached || rows[name].state == LocalFinalized) {
        return true;
      }
      if env.relookupFails || name !in rows {
        return false;
      }
      if env.download.None? {
        return false;
      }
      var expected := rows[name].sha;
      if expected == None && name in m.manifest {
        expected := m.manifest[name].sha;
      }
      var stored := StoreInCache(name, env.download.value, expected, env);
      if !stored {
        return false;
      }
      assert rows[name := rows[name].(state := Cached)] == rows;
      return env.cacheStore == W.Stored;
    }

    method ReadRemoteFileMode(id: int, dest: array<byte>, off: nat, env: W.ReadEnv) returns (reply: Reply)
      requires Valid() && id in handles && handles[id].Reader?
      modifies this, policy, dest
      ensures (reply, State()) == W.FileMode(m, old(State()), id, off, dest.Length, env)
    {
      hide W.FetchAndCache, W.Observed, W.Pread, Clip;
      var h := handles[id];
      ghost var w1 := W.FetchAndCache(m, State(), h.name, env).1;
      assert w1.handles == handles by { FetchKeepsHandles(m, State(), h.name, env); }
      var ok := FetchAndCache(h.name, env);
      if !ok {
        policy.MarkPromotionFailure(h.name, env.now);
        if dest.Length > 0 {
          var data := FetchRange(h.name, off, dest.Length, env.secondRangeFails);
          if data.Some? {
            ObserveRangeRead(id, off, |data.value|, env);
            return Data(data.value);
          }
        }
        return Fail(EIO);
      }
      handles := handles[id := h.(state := Cached)];
      policy.MarkPromotionSuccess(h.name, env.now);
      reply := PreadLocal(cache, h.name, dest, off, env.cacheStop);
      if reply.Data? {
        UpdateLastAccess(h.name, env);
      }
    }

    method GetOrLoadBlockmap(name: string, env: W.ReadEnv) returns (es: Option<seq<Entry>>)
      modifies this
      ensures (es, State()) == W.LoadBlockmap(m, old(State()), name, env)
    {
      hide BlockmapCodec.DecodeMap;
      if name in blockmaps {
        return Some(blockmaps[name]);
      }
      if name in noBlockmap {
        return None;
      }
      if name !in m.manifest || m.manifest[name].blockmapSha == None {
        noBlockmap := noBlockmap + {name};
        return None;
      }
      match env.blockmap {
        case Unreachable =>
          return None;
        case NotFound =>
          noBlockmap := noBlockmap + {name};
          return None;
        case Fetched(raw) =>
          if Some(m.sha(raw)) != m.manifest[name].blockmapSha {
            noBlockmap := noBlockmap + {name};
            return None;
          }
          var reader := new Streams.Reader(raw);
          var parsed := BlockmapCodec.ReadMap(reader);
          if parsed.Err? {
            noBlockmap := noBlockmap + {name};
            return None;
          }
          blockmaps := blockmaps[name := parsed.value];
          return Some(parsed.value);
      }
    }

    method ReadByBlockmap(name: string, dest: array<byte>, off: nat, env: W.ReadEnv) returns (reply: Reply)
      modifies this, bc, dest
      ensures (reply, State()) == W.BlockmapMode(m, old(State()), name, off, old(dest[..]), env)
    {
      hide W.LoadBlockmap, ViaBlockmap;
      var es := GetOrLoadBlockmap(name, env);
      if es.None? {
        return Fail(ENODATA);
      }
      reply := ReadViaBlockmap(bc, name, es.value, dest, off, W.BlockEnv(m, name, env));
    }

    method ReadRange(id: int, dest: array<byte>, off: nat, env: W.ReadEnv) returns (reply: Reply)
      requires Valid() && id in handles && handles[id].Reader?
      modifies this, policy, dest
      ensures (reply, State()) == W.RangeMode(m, old(State()), id, off, dest.Length, env)
    {
      hide W.FileMode, W.Observed, W.MaybePromote, Clip;
      if dest.Length > 0 {
        var data := FetchRange(handles[id].name, off, dest.Length, env.firstRangeFails);
        if data.Some? {
          ObserveRangeRead(id, off, |data.value|, env);
          PromoteIfDue(id, env.now);
          return Data(data.value);
        }
      }
      reply := ReadRemoteFileMode(id, dest, off, env);
    }

    method ReadRemote(id: int, dest: array<byte>, off: nat, env: W.ReadEnv) returns (reply: Reply)
      requires Valid() && id in handles && handles[id].Reader?
      modifies this, policy, bc, dest
      ensures (reply, State()) == W.ReadRemote(m, old(State()), id, off, old(dest[..]), env)
    {
      hide W.FileMode, W.RangeMode, W.BlockmapMode, W.Observed, W.MaybePromote, FP.Answer, FP.AfterQuery, HasPrefix;
      var h := handles[id];
      var mode := policy.ResolveMode(h.name, env.now);
      if mode == FP.File {
        reply := ReadRemoteFileMode(id, dest, off, env);
        return;
      }
      if m.blockCache && HasPrefix(h.name, "blk") {
        reply := ReadByBlockmap(h.name, dest, off, env);
        if reply != Fail(ENODATA) {
          if reply.Data? {
            ObserveRangeRead(id, off, dest.Length, env);
            PromoteIfDue(id, env.now);
          }
          return;
        }
      }
      reply := ReadRange(id, dest, off, env);
    }

    /** The Read of whichever handle type `id` is. */
    method Read(id: int, dest: array<byte>, off: nat, env: W.ReadEnv) returns (reply: Reply)
      requires Valid() && id in handles
      modifies this, policy, bc, dest
      ensures (reply, State()) == W.Read(m, old(State()), id, off, old(dest[..]), env)
    {
      hide W.ReadRemote, W.Pread, Clip;
      match handles[id]
      case Reader(name, state, _) =>
        match state {
          case Active => reply := PreadLocal(local, name, dest, off, env.localStop);
          case LocalFinalized => reply := PreadLocal(local, name, dest, off, env.localStop);
          case Cached =>
            reply := PreadLocal(cache, name, dest, off, env.cacheStop);
            if reply.Data? {
              UpdateLastAccess(name, env);
            }
          case Remote => reply := ReadRemote(id, dest, off, env);
        }
      case Writer(name) =>
        reply := PreadLocal(local, name, dest, off, env.localStop);
        if !reply.Data? {
          reply := Data([]);
        }
      case NullWriter(name) => reply := ReadNull(name, dest, off, env);
    }

    method ReadNull(name: string, dest: array<byte>, off: nat, env: W.ReadEnv) returns (reply: Reply)
      modifies dest
      ensures reply == W.ReadNull(m, State(), name, off, dest.Length, env)
    {
      hide W.Pread, Clip;
      if dest.Length == 0 {
        return Data([]);
      }
      if env.lookupFails || name !in rows || IsLocal(rows[name].state) {
        reply := PreadLocal(local, name, dest, off, env.localStop);
        if reply.Data? {
          return;
        }
      }
      reply := PreadLocal(cache, name, dest, off, env.cacheStop);
      if reply.Data? {
        return;
      }
      var data := FetchRange(name, off, dest.Length, env.firstRangeFails);
      if data.None? {
        return Fail(EIO);
      }
      return Data(data.value);
    }

    // The daemon

    method OldestCached(candidates: set<string>) returns (n: string)
      requires candidates != {} && candidates <= rows.Keys
      ensures n in candidates && forall k :: k in candidates ==> rows[n].access <= rows[k].access
    {
      n :| n in candidates;
      var todo := candidates - {n};
      while todo != {}
        invariant todo <= candidates && n in candidates
        invariant forall k :: k in candidates && k !in todo ==> rows[n].access <= rows[k].access
        decreases |todo|
      {
        var k :| k in todo;
        todo := todo - {k};
        if rows[k].access < rows[n].access {
          n := k;
        }
      }
    }

    method ListCachedByLRU(limit: nat) returns (listed: seq<string>)
      ensures W.LruPrefix(rows, listed, limit)
    {
      var cached := set n | n in rows && rows[n].state == Cached;
      var rest := cached;
      listed := [];
      while rest != {} && |listed| < limit
        invariant rest <= cached && |listed| <= limit
        invariant forall n :: n in cached <==> n in rest || n in listed
        invariant forall i :: 0 <= i < |listed| ==> listed[i] in cached && listed[i] !in rest
        invariant forall i, j :: 0 <= i < j < |listed| ==> listed[i] != listed[j]
        invariant forall i, n :: 0 <= i < |listed| && n in rest ==> rows[listed[i]].access <= rows[n].access
        decreases |rest|
      {
        var n := OldestCached(rest);
        listed := listed + [n];
        rest := rest - {n};
      }
    }

    method RemoveFromCache(name: string, removeFails: set<string>, updateFails: set<string>) returns (ok: bool)
      modifies this
      ensures State() == W.RemoveCached(old(State()), name, removeFails, updateFails)
      ensures ok <==> name !in removeFails && name !in updateFails
    {
      if name in removeFails {
        return false;
      }
      cache := cache - {name};
      if name in updateFails {
        return false;
      }
      if name in rows {
        rows := rows[name := rows[name].(state := Remote)];
      }
      return true;
    }

    method ForceEvict(count: nat, removeFails: set<string>, updateFails: set<string>)
      returns (victims: seq<string>, evicted: seq<string>)
      modifies this
      ensures W.LruPrefix(old(rows), victims, count)
      ensures State() == W.EvictAll(old(State()), victims, removeFails, updateFails)
      ensures forall n :: n in evicted <==> n in victims && n !in removeFails && n !in updateFails
    {
      hide W.RemoveCached;
      victims := ListCachedByLRU(count);
      evicted := [];
      for i := 0 to |victims|
        invariant W.EvictAll(State(), victims[i..], removeFails, updateFails)
               == W.EvictAll(old(State()), victims, removeFails, updateFails)
        invariant forall n :: n in evicted <==> n in victims[..i] && n !in removeFails && n !in updateFails
      {
        assert victims[i..][1..] == victims[i + 1..];
        assert victims[..i + 1] == victims[..i] + [victims[i]];
        var ok := RemoveFromCache(victims[i], removeFails, updateFails);
        if ok {
          evicted := evicted + [victims[i]];
        }
      }
    }
  }

  lemma FetchKeepsHandles(m: W.Mount, w: W.World, name: string, env: W.ReadEnv)
    ensures W.FetchAndCache(m, w, name, env).1.handles == w.handles
  {
  }
}

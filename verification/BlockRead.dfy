/** Serving a read from individually fetched and cached blocks. */
module BlockRead {
  import opened Bytes
  import opened Blockmap
  import opened BlockScan
  import BlockmapCodec

  datatype Errno = EIO | ENODATA | ENOENT | EACCES

  /** What the kernel gets back; Crash stands for a Go slice-bounds panic. */
  datatype Reply = Data(bytes: Buf) | Fail(errno: Errno) | Crash

  type BlockKey = (string, int)
  type BlockMap = map<BlockKey, Buf>

  /** The directory of cached blocks, keyed by blk file and preamble offset. */
  class DiskBlockCache {
    var blocks: BlockMap

    constructor ()
      ensures blocks == map[]
    {
      blocks := map[];
    }

    /** What GetBlock answers for a key. */
    function Lookup(name: string, off: int): Option<Buf>
      reads this
    {
      if (name, off) in blocks then Some(blocks[(name, off)]) else None
    }

    /** A stored block is what its key yields from then on; every other key yields what it did. */
    method StoreBlock(name: string, off: int, data: Buf)
      modifies this
      ensures forall n, o :: Lookup(n, o) == if n == name && o == off then Some(data) else old(Lookup(n, o))
    {
      blocks := blocks[(name, off) := data];
    }

    /** A block that is there may be unreadable. */
    method GetBlock(name: string, off: int, fails: bool) returns (r: Option<Buf>)
      ensures r == if fails then None else Lookup(name, off)
    {
      if (name, off) in blocks && !fails {
        return Some(blocks[(name, off)]);
      }
      return None;
    }

    /** A block whose stat fails passes for missing. */
    predicate HasBlock(name: string, off: int, fails: bool)
      reads this
    {
      (name, off) in blocks && !fails
    }

    /** A removed file has no blocks left; every other file keeps its own. */
    method RemoveFile(name: string)
      modifies this
      ensures forall n, o :: Lookup(n, o) == if n == name then None else old(Lookup(n, o))
    {
      blocks := map k | k in blocks && k.0 != name :: blocks[k];
    }

    /** The answers for all keys make up the cache. */
    lemma SameAnswers(blocks': BlockMap)
      requires forall n, o :: Lookup(n, o) == if (n, o) in blocks' then Some(blocks'[(n, o)]) else None
      ensures blocks == blocks'
    {
      assert forall k :: k in blocks <==> Lookup(k.0, k.1).Some?;
    }
  }

  /** The outside world during one read: what the server stores, and at which offsets fetching a block, storing it,
      looking for it in the cache, or reading it from there fails. */
  datatype Env = Env(remote: Buf, sha: Sha, fetchFails: set<int>, storeFails: set<int>, statFails: set<int>,
                     readFails: set<int>)

  /** The remote answers a range request with the bytes there, clipped at the end of the file, or not at all. */
  function FetchRange(env: Env, off: int, len: int): Option<Buf> {
    if len <= 0 || off < 0 || off in env.fetchFails then None else Some(Clip(env.remote, off, len))
  }

  /** The checks that a fetched block has to pass before it is cached. */
  predicate Acceptable(env: Env, e: Entry, data: Buf) {
    |data| >= 8 + e.size && |data| >= 88 && Sha256d(env.sha, data[8..88]) == e.hash
  }

  function FetchOne(blocks: BlockMap, name: string, e: Entry, env: Env): (bool, BlockMap) {
    if (name, e.offset) in blocks && e.offset !in env.statFails then (true, blocks)
    else
      var data := FetchRange(env, e.offset, 8 + e.size);
      if data.None? || !Acceptable(env, e, data.value) || e.offset in env.storeFails then (false, blocks)
      else (true, blocks[(name, e.offset) := data.value])
  }

  function FetchAll(blocks: BlockMap, name: string, es: seq<Entry>, env: Env): (bool, BlockMap)
    decreases |es|
  {
    if es == [] then (true, blocks)
    else
      var (ok, blocks') := FetchOne(blocks, name, es[0], env);
      if !ok then (false, blocks') else FetchAll(blocks', name, es[1..], env)
  }

  method FetchBlock(bc: DiskBlockCache, name: string, e: Entry, env: Env) returns (ok: bool)
    modifies bc
    ensures (ok, bc.blocks) == FetchOne(old(bc.blocks), name, e, env)
  {
    if bc.HasBlock(name, e.offset, e.offset in env.statFails) {
      return true;
    }
    var fetchLen := 8 + e.size;
    var data := FetchRange(env, e.offset, fetchLen);
    if data.None? {
      return false;
    }
    if |data.value| < fetchLen {
      return false;
    }
    if |data.value| < 88 {
      return false;
    }
    var blockHash := Sha256d(env.sha, data.value[8..88]);
    if blockHash != e.hash {
      return false;
    }
    if e.offset in env.storeFails {
      return false;
    }
    bc.StoreBlock(name, e.offset, data.value);
    bc.SameAnswers(old(bc.blocks)[(name, e.offset) := data.value]);
    return true;
  }

  // Assembling

  datatype Piece = Piece(start: int, data: Buf)

  /** Copies the part of a piece that lies in [off, off + |dest|) to its place in `dest`; counts the bytes. */
  function CopyPiece(dest: Buf, off: nat, p: Piece): (r: (Buf, nat))
    ensures |r.0| == |dest|
  {
    var from := Max(off, p.start);
    var to := Min(Sum64(off + |dest|), Sum64(p.start + |p.data|));
    if from >= to then (dest, 0)
    else (CopyRange(dest, off, p, from, to), to - from)
  }

  /** The file positions from `from` to `to`, which the piece covers, copied to their place. */
  function CopyRange(dest: Buf, off: nat, p: Piece, from: int, to: int): (r: Buf)
    requires off <= from < to <= off + |dest| && p.start <= from && to <= p.start + |p.data|
    ensures |r| == |dest|
  {
    Spliced(dest, from - off, p.data[from - p.start..to - p.start])
  }

  /** The bytes with those from `lo` on replaced. */
  function Spliced(dest: Buf, lo: nat, middle: Buf): (r: Buf)
    requires lo + |middle| <= |dest|
    ensures |r| == |dest|
  {
    dest[..lo] + middle + dest[lo + |middle|..]
  }

  /** Copies the cached blocks one by one behind `written` bytes already copied, unless one is missing or unreadable. */
  function AssembleFrom(dest: Buf, written: nat, off: nat, blocks: BlockMap, name: string, es: seq<Entry>,
                        readFails: set<int>): (r: Option<(Buf, nat)>)
    ensures r.Some? ==> |r.value.0| == |dest|
    decreases |es|
  {
    if es == [] then Some((dest, written))
    else if (name, es[0].offset) !in blocks || es[0].offset in readFails then None
    else
      var (d, n) := CopyPiece(dest, off, Piece(es[0].offset, blocks[(name, es[0].offset)]));
      AssembleFrom(d, written + n, off, blocks, name, es[1..], readFails)
  }

  /** A failure may come when blocks have been copied already. */
  method AssembleRead(bc: DiskBlockCache, name: string, dest: array<byte>, off: nat, es: seq<Entry>,
                      readFails: set<int>) returns (n: Option<nat>)
    modifies dest
    ensures var r := AssembleFrom(old(dest[..]), 0, off, bc.blocks, name, es, readFails);
            (n.Some? <==> r.Some?) && (n.Some? ==> r.value == (dest[..], n.value))
  {
    hide CopyPiece;
    var written := 0;
    var readEnd := Sum64(off + dest.Length);
    for i := 0 to |es|
      invariant AssembleFrom(dest[..], written, off, bc.blocks, name, es[i..], readFails)
             == AssembleFrom(old(dest[..]), 0, off, bc.blocks, name, es, readFails)
    {
      var block := bc.GetBlock(name, es[i].offset, es[i].offset in readFails);
      if block.None? {
        return None;
      }
      var count := CopyInto(dest, off, readEnd, es[i].offset, block.value);
      written := written + count;
      assert es[i..][1..] == es[i + 1..];
    }
    return Some(written);
  }

  lemma SumAtMost(x: int)
    ensures Sum64(x) <= x
  {
  }

  /** The body of the assembly loop: clip one block to the range and copy it. */
  method CopyInto(dest: array<byte>, off: nat, readEnd: int, blockStart: int, blockData: Buf) returns (n: nat)
    requires readEnd == Sum64(off + dest.Length)
    modifies dest
    ensures (dest[..], n) == CopyPiece(old(dest[..]), off, Piece(blockStart, blockData))
  {
    hide Sum64, Spliced;
    SumAtMost(off + dest.Length);
    SumAtMost(blockStart + |blockData|);
    var blockEnd := Sum64(blockStart + |blockData|);
    var copyStart := if off < blockStart then blockStart else off;
    var copyEnd := if readEnd > blockEnd then blockEnd else readEnd;
    if copyStart >= copyEnd {
      return 0;
    }
    var srcOffset := copyStart - blockStart;
    var dstOffset := copyStart - off;
    n := copyEnd - copyStart;
    Copy(dest, dstOffset, blockData[srcOffset..srcOffset + n]);
  }

  /** Go's copy, into the bytes from `at` on. */
  method Copy(dest: array<byte>, at: nat, source: Buf)
    requires at + |source| <= dest.Length
    modifies dest
    ensures dest[..] == Spliced(old(dest[..]), at, source)
  {
    forall k | 0 <= k < |source| {
      dest[at + k] := source[k];
    }
    assert dest[..] == old(dest[..])[..at] + source + old(dest[..])[at + |source|..];
  }

  // One read through the blockmap

  function ViaBlockmap(blocks: BlockMap, name: string, es: seq<Entry>, dest: Buf, off: nat, env: Env)
    : (Reply, BlockMap)
  {
    var wanted := Overlapping(es, off, |dest|);
    if wanted == [] then (Fail(ENODATA), blocks)
    else
      var (ok, blocks') := FetchAll(blocks, name, wanted, env);
      if !ok then (Fail(EIO), blocks')
      else
        var r := AssembleFrom(dest, 0, off, blocks', name, wanted, env.readFails);
        if r.None? then (Fail(EIO), blocks')
        else if r.value.1 > |dest| then (Crash, blocks')
        else (Data(r.value.0[..r.value.1]), blocks')
  }

  method ReadViaBlockmap(bc: DiskBlockCache, name: string, es: seq<Entry>, dest: array<byte>, off: nat, env: Env)
    returns (reply: Reply)
    modifies bc, dest
    ensures (reply, bc.blocks) == ViaBlockmap(old(bc.blocks), name, es, old(dest[..]), off, env)
  {
    hide Overlapping, FetchOne, AssembleFrom;
    var blocks := FindBlocks(es, off, dest.Length);
    if |blocks| == 0 {
      return Fail(ENODATA);
    }
    for i := 0 to |blocks|
      invariant FetchAll(bc.blocks, name, blocks[i..], env) == FetchAll(old(bc.blocks), name, blocks, env)
      invariant dest[..] == old(dest[..])
    {
      assert blocks[i..][1..] == blocks[i + 1..];
      var ok := FetchBlock(bc, name, blocks[i], env);
      if !ok {
        return Fail(EIO);
      }
    }
    var n := AssembleRead(bc, name, dest, off, blocks, env.readFails);
    if n.None? {
      return Fail(EIO);
    }
    if n.value > dest.Length {
      return Crash;
    }
    return Data(dest[..n.value]);
  }

  // A read through the blockmap is a read of the file

  /** Every cached block of this file holds the file's own bytes. */
  predicate CacheAgrees(blocks: BlockMap, name: string, f: BlkFile, es: seq<Entry>) {
    forall i :: 0 <= i < |es| && (name, es[i].offset) in blocks ==>
      0 <= es[i].offset && End(es[i]) <= |f.data| && blocks[(name, es[i].offset)] == f.data[es[i].offset..End(es[i])]
  }

  /** The remote serves this very file. */
  ghost predicate Serves(env: Env, f: BlkFile) { env.remote == f.data && env.sha == f.sha }

  predicate Reachable(env: Env, e: Entry) { e.offset !in env.fetchFails && e.offset !in env.storeFails }

  predicate SeenCached(blocks: BlockMap, name: string, env: Env, e: Entry) {
    (name, e.offset) in blocks && e.offset !in env.statFails
  }

  /** Fetching a block of the file succeeds exactly when it is seen to be cached or reachable, and caches its bytes. */
  lemma FetchOneExact(blocks: BlockMap, name: string, e: Entry, env: Env, f: BlkFile)
    requires Serves(env, f) && IsBlock(f, e)
    ensures var (ok, blocks') := FetchOne(blocks, name, e, env);
            ok == (SeenCached(blocks, name, env, e) || Reachable(env, e))
            && blocks' == if ok && !SeenCached(blocks, name, env, e)
                          then blocks[(name, e.offset) := f.data[e.offset..End(e)]] else blocks
  {
    hide Preamble;
    var data := Clip(f.data, e.offset, 8 + e.size);
    assert data == f.data[e.offset..End(e)];
    assert data[8..88] == f.data[e.offset + 8..e.offset + 88];
  }

  /** Fetching from a map that describes the file keeps the cached blocks in agreement with it. */
  lemma FetchOneAgrees(blocks: BlockMap, name: string, e: Entry, env: Env, f: BlkFile, es: seq<Entry>)
    requires Serves(env, f) && Describes(f, es) && e in es && CacheAgrees(blocks, name, f, es)
    ensures CacheAgrees(FetchOne(blocks, name, e, env).1, name, f, es)
  {
    hide FetchOne, IsBlock, TilesFrom;
    TilingSorted(es, 0, |f.data|);
    FetchOneExact(blocks, name, e, env, f);
    BlockBounds(f, e);
  }

  predicate Available(blocks: BlockMap, name: string, env: Env, e: Entry) {
    SeenCached(blocks, name, env, e) || Reachable(env, e)
  }

  predicate AllCached(blocks: BlockMap, name: string, es: seq<Entry>) {
    forall i :: 0 <= i < |es| ==> (name, es[i].offset) in blocks
  }

  /** Fetching the wanted entries succeeds exactly when each is available, and then all of them are cached. */
  lemma {:induction false} FetchAllExact(blocks: BlockMap, name: string, wanted: seq<Entry>, env: Env, f: BlkFile,
        es: seq<Entry>)
    requires Serves(env, f) && Describes(f, es) && CacheAgrees(blocks, name, f, es)
    requires forall i :: 0 <= i < |wanted| ==> wanted[i] in es
    ensures CacheAgrees(FetchAll(blocks, name, wanted, env).1, name, f, es)
    ensures FetchAll(blocks, name, wanted, env).0
        <==> forall i :: 0 <= i < |wanted| ==> Available(blocks, name, env, wanted[i])
    ensures FetchAll(blocks, name, wanted, env).0 ==> AllCached(FetchAll(blocks, name, wanted, env).1, name, wanted)
    ensures forall k :: k in blocks ==> k in FetchAll(blocks, name, wanted, env).1
    ensures forall k :: k in FetchAll(blocks, name, wanted, env).1 && k.0 != name ==>
              k in blocks && FetchAll(blocks, name, wanted, env).1[k] == blocks[k]
    decreases |wanted|
  {
    hide FetchOne, IsBlock, CacheAgrees, TilesFrom;
    if wanted != [] {
      var e := wanted[0];
      assert IsBlock(f, e);
      FetchOneExact(blocks, name, e, env, f);
      FetchOneAgrees(blocks, name, e, env, f, es);
      BlockBounds(f, e);
      var (ok, blocks1) := FetchOne(blocks, name, e, env);
      if ok {
        FetchAllExact(blocks1, name, wanted[1..], env, f, es);
        assert forall i :: 1 <= i < |wanted| ==> wanted[i] == wanted[1..][i - 1];
      } else {
        assert !Available(blocks, name, env, wanted[0]);
      }
    }
  }

  lemma BlockBounds(f: BlkFile, e: Entry)
    requires IsBlock(f, e)
    ensures 0 <= e.offset && e.offset + 88 <= End(e) <= |f.data|
  {
  }

  predicate Inside(data: Buf, es: seq<Entry>) {
    forall i :: 0 <= i < |es| ==> 0 <= es[i].offset && End(es[i]) <= |data|
  }

  function FilePiece(data: Buf, e: Entry): Piece
    requires 0 <= e.offset && End(e) <= |data|
  {
    Piece(e.offset, data[e.offset..End(e)])
  }

  /** Assembling straight from the file instead of from cached blocks. */
  function AssembleFile(dest: Buf, off: nat, data: Buf, es: seq<Entry>): (r: (Buf, nat))
    requires Inside(data, es)
    ensures |r.0| == |dest|
    decreases |es|
  {
    if es == [] then (dest, 0)
    else
      var (d, n) := CopyPiece(dest, off, FilePiece(data, es[0]));
      var (d', n') := AssembleFile(d, off, data, es[1..]);
      (d', n + n')
  }

  predicate AllReadable(es: seq<Entry>, readFails: set<int>) {
    forall i :: 0 <= i < |es| ==> es[i].offset !in readFails
  }

  lemma {:induction false} UnreadableBlock(dest: Buf, written: nat, off: nat, blocks: BlockMap, name: string,
                                           wanted: seq<Entry>, readFails: set<int>)
    requires !AllReadable(wanted, readFails)
    ensures AssembleFrom(dest, written, off, blocks, name, wanted, readFails).None?
    decreases |wanted|
  {
    hide CopyPiece;
    if (name, wanted[0].offset) in blocks && wanted[0].offset !in readFails {
      var (d, n) := CopyPiece(dest, off, Piece(wanted[0].offset, blocks[(name, wanted[0].offset)]));
      assert exists i :: 0 <= i < |wanted[1..]| && wanted[1..][i].offset in readFails by {
        var i :| 0 <= i < |wanted| && wanted[i].offset in readFails;
        assert wanted[1..][i - 1] == wanted[i];
      }
      UnreadableBlock(d, written + n, off, blocks, name, wanted[1..], readFails);
    }
  }

  lemma {:induction false} CachedBlocksAreTheFile(
      dest: Buf, written: nat, off: nat, blocks: BlockMap, name: string, wanted: seq<Entry>, readFails: set<int>,
      f: BlkFile, es: seq<Entry>)
    requires AllReadable(wanted, readFails)
    requires CacheAgrees(blocks, name, f, es) && AllCached(blocks, name, wanted)
    requires forall i :: 0 <= i < |wanted| ==> wanted[i] in es
    ensures Inside(f.data, wanted)
    ensures var (d, n) := AssembleFile(dest, off, f.data, wanted);
            AssembleFrom(dest, written, off, blocks, name, wanted, readFails) == Some((d, written + n))
    decreases |wanted|
  {
    hide CopyPiece;
    if wanted != [] {
      var (d, n) := CopyPiece(dest, off, FilePiece(f.data, wanted[0]));
      CachedBlocksAreTheFile(d, written + n, off, blocks, name, wanted[1..], readFails, f, es);
    }
  }

  lemma NoOverlapNoCopy(dest: Buf, off: nat, data: Buf, e: Entry)
    requires 0 <= e.offset && End(e) <= |data| < TWO63
    ensures !Overlaps64(e, off, |dest|) ==> CopyPiece(dest, off, FilePiece(data, e)) == (dest, 0)
  {
  }

  lemma InsideParts(data: Buf, e: Entry, es: seq<Entry>)
    ensures Inside(data, [e] + es) <==> 0 <= e.offset && End(e) <= |data| && Inside(data, es)
  {
    assert Inside(data, [e] + es) ==> ([e] + es)[0] == e && forall i :: 0 <= i < |es| ==> ([e] + es)[i + 1] == es[i];
  }

  lemma AssembleParts(dest: Buf, off: nat, data: Buf, e: Entry, es: seq<Entry>)
    requires Inside(data, es) && Inside(data, [e] + es) && 0 <= e.offset && End(e) <= |data|
    ensures var (d, n) := CopyPiece(dest, off, FilePiece(data, e));
            var (d', n') := AssembleFile(d, off, data, es);
            AssembleFile(dest, off, data, [e] + es) == (d', n + n')
  {
    hide CopyPiece, FilePiece, Inside;
    assert ([e] + es)[1..] == es;
  }

  /** Entries outside the range contribute nothing, so leaving them out changes nothing. */
  lemma {:induction false} SkippedEntries(dest: Buf, off: nat, data: Buf, es: seq<Entry>)
    requires Inside(data, es) && |data| < TWO63
    ensures Inside(data, Overlapping(es, off, |dest|))
    ensures AssembleFile(dest, off, data, Overlapping(es, off, |dest|)) == AssembleFile(dest, off, data, es)
    decreases |es|
  {
    hide CopyPiece, FilePiece, Inside, AssembleFile, Overlaps64;
    if es != [] {
      var e, tail := es[0], es[1..];
      var rest := Overlapping(tail, off, |dest|);
      assert es == [e] + tail;
      InsideParts(data, e, tail);
      var (d, n) := CopyPiece(dest, off, FilePiece(data, e));
      SkippedEntries(d, off, data, tail);
      AssembleParts(dest, off, data, e, tail);
      if Overlaps64(e, off, |dest|) {
        assert Overlapping(es, off, |dest|) == [e] + rest;
        InsideParts(data, e, rest);
        AssembleParts(dest, off, data, e, rest);
      } else {
        NoOverlapNoCopy(dest, off, data, e);
        assert Overlapping(es, off, |dest|) == rest;
      }
    }
  }

  /** The part of the destination below file position `lo` already holds the file's bytes. */
  predicate Filled(dest: Buf, off: nat, data: Buf, lo: nat)
    requires lo <= |data|
  {
    forall i :: 0 <= i < |dest| && off + i < lo ==> dest[i] == data[off + i]
  }

  /** How far the range [off, off + len) reaches below file position `lo`. */
  function Reach(off: nat, len: nat, lo: nat): nat {
    Max(off, Min(lo, off + len)) - off
  }

  lemma CopyRangeAt(dest: Buf, off: nat, p: Piece, from: int, to: int, i: nat)
    requires off <= from < to <= off + |dest| && p.start <= from && to <= p.start + |p.data| && i < |dest|
    ensures CopyRange(dest, off, p, from, to)[i]
            == if from <= off + i < to then p.data[off + i - p.start] else dest[i]
  {
    hide Spliced;
    SplicedAt(dest, from - off, p.data[from - p.start..to - p.start], i);
  }

  /** The copied piece, byte by byte. */
  lemma CopyPieceAt(dest: Buf, off: nat, p: Piece, i: nat)
    requires i < |dest| && off + |dest| < TWO63 && p.start + |p.data| < TWO63
    ensures CopyPiece(dest, off, p).0[i]
            == if p.start <= off + i < p.start + |p.data| then p.data[off + i - p.start] else dest[i]
  {
    hide CopyRange, Sum64;
    NoWrap(off, |dest|, p);
    var from, to := Max(off, p.start), Min(off + |dest|, p.start + |p.data|);
    if from < to {
      CopyRangeAt(dest, off, p, from, to, i);
    }
  }

  lemma NoWrap(off: nat, len: nat, p: Piece)
    requires off + len < TWO63 && p.start + |p.data| < TWO63
    ensures Sum64(off + len) == off + len && Sum64(p.start + |p.data|) == p.start + |p.data|
  {
  }

  lemma SplicedAt(dest: Buf, lo: nat, middle: Buf, i: nat)
    requires lo + |middle| <= |dest| && i < |dest|
    ensures Spliced(dest, lo, middle)[i]
            == if lo <= i < lo + |middle| then middle[i - lo] else dest[i]
  {
  }

  lemma CopyCount(dest: Buf, off: nat, p: Piece)
    requires 0 <= p.start && off + |dest| < TWO63 && p.start + |p.data| < TWO63
    ensures CopyPiece(dest, off, p).1 == Reach(off, |dest|, p.start + |p.data|) - Reach(off, |dest|, p.start)
  {
  }

  lemma CopyFills(dest: Buf, off: nat, data: Buf, e: Entry)
    requires 0 <= e.offset && End(e) <= |data| < TWO63 && off + |dest| < TWO63 && Filled(dest, off, data, e.offset)
    ensures var (d, n) := CopyPiece(dest, off, FilePiece(data, e));
            Filled(d, off, data, End(e)) && n == Reach(off, |dest|, End(e)) - Reach(off, |dest|, e.offset)
  {
    hide CopyPiece;
    var p := FilePiece(data, e);
    CopyCount(dest, off, p);
    assert p.start + |p.data| == End(e);
    forall i | 0 <= i < |dest| && off + i < End(e)
      ensures CopyPiece(dest, off, p).0[i] == data[off + i]
    {
      CopyPieceAt(dest, off, p, i);
    }
  }

  lemma {:induction false} AssembleTiling(dest: Buf, off: nat, data: Buf, es: seq<Entry>, lo: nat)
    requires TilesFrom(es, lo, |data|) && Inside(data, es) && lo <= |data| < TWO63 && Filled(dest, off, data, lo)
    requires off + |dest| < TWO63
    ensures var (d, n) := AssembleFile(dest, off, data, es);
            Filled(d, off, data, |data|) && n == Reach(off, |dest|, |data|) - Reach(off, |dest|, lo)
    decreases |es|
  {
    hide CopyPiece, Filled, Reach;
    if es != [] {
      CopyFills(dest, off, data, es[0]);
      var (d, n) := CopyPiece(dest, off, FilePiece(data, es[0]));
      AssembleTiling(d, off, data, es[1..], End(es[0]));
    }
  }

  /** Assembling over a whole tiling fills the destination with the clipped slice of the file. */
  lemma AssembleIsPread(dest: Buf, off: nat, data: Buf, es: seq<Entry>)
    requires TilesFrom(es, 0, |data|) && Inside(data, es) && |data| < TWO63 && off + |dest| < TWO63
    ensures var (d, n) := AssembleFile(dest, off, data, es);
            n <= |dest| && d[..n] == Clip(data, off, |dest|)
  {
    hide AssembleFile, TilesFrom, Inside;
    AssembleTiling(dest, off, data, es, 0);
  }

  /** Blocks are found for a nonempty range exactly when it starts inside the file and its end is within int64. */
  lemma OverlapIffInside(es: seq<Entry>, off: nat, len: nat, hi: nat)
    requires TilesFrom(es, 0, hi) && hi < TWO63 && 0 < len < TWO63
    ensures Overlapping(es, off, len) == [] <==> off >= hi || off + len >= TWO63
  {
    hide TilesFrom;
    TilingCovers(es, 0, hi, off);
    TilingSorted(es, 0, hi);
    if off + len >= TWO63 {
      forall i | 0 <= i < |es|
        ensures es[i].offset >= 0
      {
        TilingIndex(es, 0, hi, i);
      }
      WrappedRangeIsEmpty(es, off, len);
    } else if off < hi {
      var i :| 0 <= i < |es| && Covers(es[i], off);
      OverlappingMembers(es, off, len, es[i]);
    } else if Overlapping(es, off, len) != [] {
      var e := Overlapping(es, off, len)[0];
      OverlappingMembers(es, off, len, e);
      var i :| 0 <= i < |es| && es[i] == e;
      TilingIndex(es, 0, hi, i);
    }
  }

  lemma BlocksInside(f: BlkFile, es: seq<Entry>)
    requires AllBlocks(f, es)
    ensures Inside(f.data, es)
  {
    hide IsBlock;
    forall i | 0 <= i < |es|
      ensures 0 <= es[i].offset && End(es[i]) <= |f.data|
    {
      BlockBounds(f, es[i]);
    }
  }

  /** Once every wanted block is cached, the assembled reply is the clipped slice of the file. */
  lemma AssembledReply(blocks: BlockMap, name: string, dest: Buf, off: nat, readFails: set<int>, f: BlkFile,
                       es: seq<Entry>)
    requires Describes(f, es) && CacheAgrees(blocks, name, f, es) && off + |dest| < TWO63
    requires AllCached(blocks, name, Overlapping(es, off, |dest|))
    ensures var r := AssembleFrom(dest, 0, off, blocks, name, Overlapping(es, off, |dest|), readFails);
            && (r.Some? <==> AllReadable(Overlapping(es, off, |dest|), readFails))
            && (r.Some? ==> r.value.1 <= |dest| && r.value.0[..r.value.1] == Clip(f.data, off, |dest|))
  {
    hide TilesFrom, AllBlocks, CacheAgrees, AllCached, Overlapping, AssembleFrom, AssembleFile, Inside, AllReadable;
    var wanted := Overlapping(es, off, |dest|);
    WantedInMap(es, off, |dest|);
    BlocksInside(f, es);
    if AllReadable(wanted, readFails) {
      CachedBlocksAreTheFile(dest, 0, off, blocks, name, wanted, readFails, f, es);
      SkippedEntries(dest, off, f.data, es);
      AssembleIsPread(dest, off, f.data, es);
    } else {
      UnreadableBlock(dest, 0, off, blocks, name, wanted, readFails);
    }
  }

  lemma WantedInMap(es: seq<Entry>, off: nat, len: nat)
    ensures forall i :: 0 <= i < |Overlapping(es, off, len)| ==> Overlapping(es, off, len)[i] in es
  {
    forall i | 0 <= i < |Overlapping(es, off, len)|
      ensures Overlapping(es, off, len)[i] in es
    {
      OverlappingMembers(es, off, len, Overlapping(es, off, len)[i]);
    }
  }

  /** A wanted block is available and can be read from the cache. */
  predicate Obtainable(blocks: BlockMap, name: string, env: Env, e: Entry) {
    Available(blocks, name, env, e) && e.offset !in env.readFails
  }

  /** A read through a map describing the served file: the file's own bytes, an error exactly when a wanted block is
      unavailable or unreadable, or ENODATA exactly when no block of the map is wanted. The cache stays in agreement. */
  lemma ViaBlockmapIsPread(blocks: BlockMap, name: string, es: seq<Entry>, dest: Buf, off: nat, env: Env, f: BlkFile)
    requires Serves(env, f) && Describes(f, es) && CacheAgrees(blocks, name, f, es) && |dest| < TWO63
    ensures var (reply, blocks') := ViaBlockmap(blocks, name, es, dest, off, env);
            var wanted := Overlapping(es, off, |dest|);
            var missing := exists i :: 0 <= i < |wanted| && !Obtainable(blocks, name, env, wanted[i]);
            && CacheAgrees(blocks', name, f, es)
            && (forall k :: k in blocks' && k.0 != name ==> k in blocks && blocks'[k] == blocks[k])
            && reply == (if wanted == [] then Fail(ENODATA)
                         else if missing then Fail(EIO)
                         else Data(Clip(f.data, off, |dest|)))
  {
    hide Describes, CacheAgrees, FetchAll, AssembleFrom, Overlapping, AllCached, Available;
    var wanted := Overlapping(es, off, |dest|);
    WantedInMap(es, off, |dest|);
    FetchAllExact(blocks, name, wanted, env, f, es);
    var (ok, blocks') := FetchAll(blocks, name, wanted, env);
    NothingWantedBehindInt64(es, off, |dest|, f);
    if ok && wanted != [] {
      AssembledReply(blocks', name, dest, off, env.readFails, f, es);
    }
  }

  lemma NothingWantedBehindInt64(es: seq<Entry>, off: nat, len: nat, f: BlkFile)
    requires Describes(f, es) && len < TWO63
    ensures off + len >= TWO63 ==> Overlapping(es, off, len) == []
  {
    hide TilesFrom, IsBlock;
    BlocksInside(f, es);
    if off + len >= TWO63 {
      WrappedRangeIsEmpty(es, off, len);
    }
  }

  /** From the scanner to the reply: the map that is scanned, sorted, written and read back serves the plain file. */
  lemma ScanWriteReadServe(f: BlkFile, es: seq<Entry>, sorted: seq<Entry>,
                           blocks: BlockMap, name: string, dest: Buf, off: nat, env: Env)
    requires Storable(f) && ScanFrom([], f, 0) == Some(es) && |es| < BlockmapCodec.ENTRY_LIMIT
    requires SortedByOffset(sorted) && multiset(sorted) == multiset(es)
    requires Serves(env, f) && CacheAgrees(blocks, name, f, es) && 0 < |dest| < TWO63
    ensures BlockmapCodec.DecodeMap(BlockmapCodec.EncodeMap(sorted)) == Ok(es)
    ensures var (reply, blocks') := ViaBlockmap(blocks, name, es, dest, off, env);
            var missing := exists e :: e in es && Overlaps(e, off, |dest|) && !Obtainable(blocks, name, env, e);
            && CacheAgrees(blocks', name, f, es)
            && reply == (if off >= |f.data| || off + |dest| >= TWO63 then Fail(ENODATA)
                         else if missing then Fail(EIO)
                         else Data(Clip(f.data, off, |dest|)))
  {
    hide ScanFrom, SortedByOffset, CacheAgrees, ViaBlockmap, TilesFrom, AllBlocks, Obtainable, Overlapping, Overlaps;
    hide BlockmapCodec.DecodeMap, BlockmapCodec.EncodeMap;
    ScanIffDescribes(f, es);
    TilingSorted(es, 0, |f.data|);
    BlockmapCodec.SortedUnique(es, sorted);
    BlockmapCodec.MapRoundTripIff(sorted, []);
    assert BlockmapCodec.EncodeMap(sorted) + [] == BlockmapCodec.EncodeMap(sorted);
    OverlapIffInside(es, off, |dest|, |f.data|);
    ViaBlockmapIsPread(blocks, name, es, dest, off, env, f);
    var wanted := Overlapping(es, off, |dest|);
    if off + |dest| < TWO63 {
      forall e
        ensures e in wanted <==> e in es && Overlaps(e, off, |dest|)
      {
        OverlappingIff(es, off, |dest|, e);
      }
    }
  }

  // Whatever the server sends

  /** These bytes passed the check of this entry: complete, and with its header hash. */
  predicate Checked(sha: Sha, e: Entry, data: Buf) {
    |data| >= 88 && |data| >= 8 + e.size && sha(sha(data[8..88])) == e.hash
  }

  /** No server, however wrong, gets a block into the cache that does not have the header hash of an entry that was
      asked for; nothing is lost, and the blocks of other files stay. */
  lemma {:induction false} NewBlocksChecked(blocks: BlockMap, name: string, es: seq<Entry>, env: Env, k: BlockKey)
    ensures var blocks' := FetchAll(blocks, name, es, env).1;
            && (k in blocks ==> k in blocks')
            && (k in blocks' ==>
                  || (k in blocks && blocks'[k] == blocks[k])
                  || exists e :: e in es && k == (name, e.offset) && Checked(env.sha, e, blocks'[k]))
    decreases |es|
  {
    hide FetchOne, Checked;
    if es != [] {
      var (ok, blocks1) := FetchOne(blocks, name, es[0], env);
      NewBlockChecked(blocks, name, es[0], env, k);
      if ok {
        NewBlocksChecked(blocks1, name, es[1..], env, k);
        assert forall e :: e in es[1..] ==> e in es;
      }
    }
  }

  lemma NewBlockChecked(blocks: BlockMap, name: string, e: Entry, env: Env, k: BlockKey)
    ensures var blocks' := FetchOne(blocks, name, e, env).1;
            && (k in blocks ==> k in blocks')
            && (k in blocks' ==>
                  || (k in blocks && blocks'[k] == blocks[k])
                  || (k == (name, e.offset) && Checked(env.sha, e, blocks'[k])))
  {
    hide FetchRange;
  }

  /** The same for a whole read, through any map. */
  lemma ReadCachesCheckedBlocks(blocks: BlockMap, name: string, es: seq<Entry>, dest: Buf, off: nat, env: Env,
                                k: BlockKey)
    ensures var blocks' := ViaBlockmap(blocks, name, es, dest, off, env).1;
            && (k in blocks ==> k in blocks')
            && (k in blocks' ==>
                  || (k in blocks && blocks'[k] == blocks[k])
                  || exists e :: e in es && k == (name, e.offset) && Checked(env.sha, e, blocks'[k]))
  {
    hide FetchAll, AssembleFrom, Overlapping, Checked;
    var wanted := Overlapping(es, off, |dest|);
    NewBlocksChecked(blocks, name, wanted, env, k);
    forall e | e in wanted
      ensures e in es
    {
      OverlappingMembers(es, off, |dest|, e);
    }
  }
}

/** The cache manager: how much one tick evicts and why repeated ticks bring the cache below its limit. */
module Eviction {
  import opened Bytes
  import opened Store
  import opened BlockRead
  import W = World
  import Lifecycle
  import FuseFs

  type Files = map<string, Buf>

  /** The bytes in a directory. */
  ghost function Usage(files: Files): nat
    decreases |files|
  {
    if files == map[] then 0 else
      var n :| n in files;
      |files[n]| + Usage(files - {n})
  }

  lemma {:induction false} UsageWithout(files: Files, n: string)
    requires n in files
    ensures Usage(files) == |files[n]| + Usage(files - {n})
    decreases |files|
  {
    var k :| k in files && Usage(files) == |files[k]| + Usage(files - {k});
    if k != n {
      UsageWithout(files - {k}, n);
      UsageWithout(files - {n}, k);
      assert (files - {k}) - {n} == (files - {n}) - {k};
    }
  }

  class CacheManager {
    const fs: FuseFs.FS
    const maxBytes: nat

    constructor (fs: FuseFs.FS, maxBytes: nat)
      ensures this.fs == fs && this.maxBytes == maxBytes
    {
      this.fs := fs;
      this.maxBytes := maxBytes;
    }

    method CacheUsage() returns (used: nat)
      ensures used == Usage(fs.cache)
    {
      used := 0;
      var todo := fs.cache;
      while todo != map[]
        invariant used + Usage(todo) == Usage(fs.cache)
        decreases |todo|
      {
        var n :| n in todo;
        UsageWithout(todo, n);
        used := used + |todo[n]|;
        todo := todo - {n};
      }
    }

    /** One tick: nothing within the limit, else as many oldest files as the excess suggests. */
    method EvictIfNeeded(removeFails: set<string>, updateFails: set<string>) returns (ghost victims: seq<string>)
      modifies fs
      ensures Usage(old(fs.cache)) <= maxBytes ==> fs.State() == old(fs.State())
      ensures Usage(old(fs.cache)) > maxBytes ==>
              && W.LruPrefix(old(fs.rows), victims, EvictionCount(Usage(old(fs.cache)) - maxBytes))
              && fs.State() == W.EvictAll(old(fs.State()), victims, removeFails, updateFails)
    {
      victims := [];
      var used := CacheUsage();
      if used <= maxBytes {
        return;
      }
      var excess := used - maxBytes;
      var count := excess / MAX_BLOCK_FILE + 1;
      var listed, evicted := fs.ForceEvict(count, removeFails, updateFails);
      victims := listed;
    }
  }

  function EvictionCount(excess: int): (n: int)
    ensures excess >= 0 ==> n >= 1
  {
    excess / MAX_BLOCK_FILE + 1
  }

  function CachedNames(w: W.World): set<string> {
    set n | n in w.rows && w.rows[n].state == Cached
  }

  /** One tick without I/O failures. */
  ghost predicate Tick(w: W.World, w': W.World, maxBytes: nat) {
    if Usage(w.cache) <= maxBytes then w' == w
    else exists victims :: TickWith(w, w', maxBytes, victims)
  }

  ghost predicate TickWith(w: W.World, w': W.World, maxBytes: nat, victims: seq<string>)
    requires Usage(w.cache) > maxBytes
  {
    W.LruPrefix(w.rows, victims, EvictionCount(Usage(w.cache) - maxBytes)) && w' == W.EvictAll(w, victims, {}, {})
  }

  ghost function Names(victims: seq<string>): set<string> { set n | n in victims }

  lemma {:induction false} DistinctCount(victims: seq<string>)
    requires forall i, j :: 0 <= i < j < |victims| ==> victims[i] != victims[j]
    ensures |Names(victims)| == |victims|
    decreases |victims|
  {
    if victims != [] {
      DistinctCount(victims[1..]);
      assert victims == [victims[0]] + victims[1..];
      assert Names(victims) == {victims[0]} + Names(victims[1..]);
    }
  }

  /** An eviction takes its victims, and only them, out of the cached rows: as many as asked for, or all there are. */
  lemma EvictedRows(w: W.World, limit: nat, victims: seq<string>)
    requires W.LruPrefix(w.rows, victims, limit)
    ensures CachedNames(W.EvictAll(w, victims, {}, {})) == CachedNames(w) - Names(victims)
    ensures |CachedNames(W.EvictAll(w, victims, {}, {}))| == |CachedNames(w)| - |victims|
    ensures |victims| == Min(limit, |CachedNames(w)|)
  {
    hide W.EvictAll;
    Lifecycle.EvictAllRows(w, victims, {}, {});
    var w' := W.EvictAll(w, victims, {}, {});
    DistinctCount(victims);
    assert Names(victims) <= CachedNames(w);
    assert CachedNames(w') == CachedNames(w) - Names(victims);
    if |victims| < limit {
      assert CachedNames(w) <= Names(victims);
      assert CachedNames(w) == Names(victims);
    } else {
      SubsetSize(Names(victims), CachedNames(w));
    }
  }

  lemma SubsetSize(a: set<string>, b: set<string>)
    requires a <= b
    ensures |a| <= |b| && |b - a| == |b| - |a|
  {
    assert b == a + (b - a);
  }

  /** Every tick over the limit takes at least one file off the cached ones, as long as there is one. */
  lemma TickMakesProgress(w: W.World, w': W.World, maxBytes: nat)
    requires Tick(w, w', maxBytes) && Usage(w.cache) > maxBytes && CachedNames(w) != {}
    ensures |CachedNames(w')| < |CachedNames(w)|
  {
    var victims :| TickWith(w, w', maxBytes, victims);
    EvictedRows(w, EvictionCount(Usage(w.cache) - maxBytes), victims);
  }

  /** The bytes that the victims of an eviction take up. */
  function VictimBytes(files: Files, victims: seq<string>): nat
    decreases |victims|
  {
    if victims == [] then 0
    else (if victims[0] in files then |files[victims[0]]| else 0) + VictimBytes(files, victims[1..])
  }

  /** An eviction frees exactly the bytes of its victims. */
  lemma {:induction false} EvictionConserves(w: W.World, victims: seq<string>)
    requires forall i, j :: 0 <= i < j < |victims| ==> victims[i] != victims[j]
    ensures Usage(W.EvictAll(w, victims, {}, {}).cache) + VictimBytes(w.cache, victims) == Usage(w.cache)
    decreases |victims|
  {
    hide W.RemoveCached;
    if victims != [] {
      var w1 := W.RemoveCached(w, victims[0], {}, {});
      RemovedFile(w, victims[0], {}, {});
      if victims[0] in w.cache {
        UsageWithout(w.cache, victims[0]);
      } else {
        assert w.cache - {victims[0]} == w.cache;
      }
      EvictionConserves(w1, victims[1..]);
      assert forall i :: 0 <= i < |victims[1..]| ==> victims[1..][i] == victims[i + 1];
      SameBytes(w.cache, victims[0], victims[1..]);
    }
  }

  lemma {:induction false} SameBytes(files: Files, n: string, victims: seq<string>)
    requires n !in victims
    ensures VictimBytes(files - {n}, victims) == VictimBytes(files, victims)
    decreases |victims|
  {
    if victims != [] {
      SameBytes(files, n, victims[1..]);
    }
  }

  /** These names have files of at least that size. */
  predicate AtLeast(files: Files, names: seq<string>, size: nat) {
    forall i :: 0 <= i < |names| ==> names[i] in files && |files[names[i]]| >= size
  }

  lemma {:induction false} BytesAtLeast(files: Files, victims: seq<string>, size: nat)
    requires AtLeast(files, victims, size)
    ensures VictimBytes(files, victims) >= |victims| * size
    decreases |victims|
  {
    if victims != [] {
      BytesAtLeast(files, victims[1..], size);
      assert |victims| * size == (|victims| - 1) * size + size;
    }
  }

  /** A tick frees the bytes of its victims, and so at least their number times a size that each of them has. */
  lemma TickFrees(w: W.World, w': W.World, maxBytes: nat, victims: seq<string>, size: nat)
    requires Usage(w.cache) > maxBytes && TickWith(w, w', maxBytes, victims) && AtLeast(w.cache, victims, size)
    ensures Usage(w'.cache) + VictimBytes(w.cache, victims) == Usage(w.cache)
    ensures Usage(w'.cache) + |victims| * size <= Usage(w.cache)
  {
    hide W.EvictAll, Usage, AtLeast;
    EvictionConserves(w, victims);
    BytesAtLeast(w.cache, victims, size);
  }

  /** When the victims are full files, and as many as asked for, an excess of q times 128 MiB and a bit shrinks to less
      than (q + 1) times 4 MiB, whatever else is cached. */
  lemma TickShrinksExcess(w: W.World, w': W.World, maxBytes: nat, victims: seq<string>)
    requires Usage(w.cache) > maxBytes && TickWith(w, w', maxBytes, victims)
    requires AtLeast(w.cache, victims, FINALIZED_THRESHOLD)
    requires |victims| == EvictionCount(Usage(w.cache) - maxBytes)
    ensures Usage(w'.cache) - maxBytes < EvictionCount(Usage(w.cache) - maxBytes) * SLACK
  {
    hide TickWith, AtLeast, Usage;
    TickFrees(w, w', maxBytes, victims, FINALIZED_THRESHOLD);
  }

  /** A run of ticks. */
  ghost predicate Ticks(worlds: seq<W.World>, maxBytes: nat) {
    forall i :: 0 <= i < |worlds| - 1 ==> Tick(worlds[i], worlds[i + 1], maxBytes)
  }

  lemma {:induction false} TicksProgress(worlds: seq<W.World>, maxBytes: nat, k: nat)
    requires Ticks(worlds, maxBytes) && k < |worlds|
    ensures Usage(worlds[k].cache) <= maxBytes || CachedNames(worlds[k]) == {}
            || |CachedNames(worlds[k])| + k <= |CachedNames(worlds[0])|
  {
    hide Tick, Usage;
    if k > 0 {
      TicksProgress(worlds, maxBytes, k - 1);
      var w, w' := worlds[k - 1], worlds[k];
      assert Tick(worlds[k - 1], worlds[(k - 1) + 1], maxBytes);
      if Usage(w.cache) <= maxBytes {
        TickWithinLimit(w, w', maxBytes);
      } else if CachedNames(w) == {} {
        TickKeepsEmpty(w, w', maxBytes);
      } else {
        TickMakesProgress(w, w', maxBytes);
      }
    }
  }

  lemma TickWithinLimit(w: W.World, w': W.World, maxBytes: nat)
    requires Tick(w, w', maxBytes) && Usage(w.cache) <= maxBytes
    ensures w' == w
  {
  }

  lemma TickKeepsEmpty(w: W.World, w': W.World, maxBytes: nat)
    requires Tick(w, w', maxBytes) && CachedNames(w) == {}
    ensures CachedNames(w') == {}
  {
    if Usage(w.cache) > maxBytes {
      var victims :| TickWith(w, w', maxBytes, victims);
      EvictedRows(w, EvictionCount(Usage(w.cache) - maxBytes), victims);
    }
  }

  /** After as many ticks as there were cached files, the cache is within its limit or nothing evictable is left. */
  lemma TicksReachTheLimit(worlds: seq<W.World>, maxBytes: nat)
    requires Ticks(worlds, maxBytes) && worlds != [] && |worlds| > |CachedNames(worlds[0])|
    ensures Usage(worlds[|CachedNames(worlds[0])|].cache) <= maxBytes
            || CachedNames(worlds[|CachedNames(worlds[0])|]) == {}
  {
    hide Ticks, Usage;
    TicksProgress(worlds, maxBytes, |CachedNames(worlds[0])|);
  }

  // Everything in the cache directory that no cached row accounts for

  /** The manifest, the state of compaction, and whatever else lies in the cache directory. No tick touches it. */
  ghost function Others(w: W.World): Files { w.cache - CachedNames(w) }

  lemma {:induction false} UsagePart(files: Files, names: set<string>)
    ensures Usage(files - names) <= Usage(files)
    decreases |files|
  {
    hide Usage;
    if n :| n in files && n in names {
      UsageWithout(files, n);
      UsagePart(files - {n}, names);
      assert files - {n} - names == files - names;
    } else {
      assert files - names == files;
    }
  }

  lemma MinusBoth(files: Files, a: set<string>, b: set<string>)
    ensures files - a - b == files - (a + b)
  {
  }

  lemma MinusPart(files: Files, part: set<string>, names: set<string>)
    requires part <= names
    ensures files - part - (names - part) == files - names
  {
    MinusBoth(files, part, names - part);
    assert part + (names - part) == names;
  }

  lemma RemovedFile(w: W.World, name: string, removeFails: set<string>, updateFails: set<string>)
    requires name !in removeFails
    ensures W.RemoveCached(w, name, removeFails, updateFails).cache == w.cache - {name}
  {
    var w1 := w.(cache := w.cache - {name});
    assert w1.cache == w.cache - {name};
    if name in w.rows && name !in updateFails {
      assert w1.(rows := w.rows[name := w.rows[name].(state := Remote)]).cache == w1.cache;
    }
  }

  lemma {:induction false} EvictedFiles(w: W.World, victims: seq<string>)
    ensures W.EvictAll(w, victims, {}, {}).cache == w.cache - Names(victims)
    decreases |victims|
  {
    hide W.RemoveCached;
    if victims == [] {
      assert Names(victims) == {};
      assert w.cache - {} == w.cache;
    } else {
      RemovedFile(w, victims[0], {}, {});
      EvictedFiles(W.RemoveCached(w, victims[0], {}, {}), victims[1..]);
      assert victims == [victims[0]] + victims[1..];
      assert Names(victims) == {victims[0]} + Names(victims[1..]);
      MinusBoth(w.cache, {victims[0]}, Names(victims[1..]));
    }
  }

  lemma VictimsAreCached(w: W.World, victims: seq<string>, limit: nat)
    requires W.LruPrefix(w.rows, victims, limit)
    ensures Names(victims) <= CachedNames(w)
  {
  }

  lemma TickKeepsOthers(w: W.World, w': W.World, maxBytes: nat)
    requires Tick(w, w', maxBytes)
    ensures Others(w') == Others(w)
  {
    hide W.EvictAll, W.LruPrefix, Usage, EvictionCount, CachedNames, Names;
    if Usage(w.cache) > maxBytes {
      var victims :| TickWith(w, w', maxBytes, victims);
      EvictedRows(w, EvictionCount(Usage(w.cache) - maxBytes), victims);
      EvictedFiles(w, victims);
      VictimsAreCached(w, victims, EvictionCount(Usage(w.cache) - maxBytes));
      MinusPart(w.cache, Names(victims), CachedNames(w));
    }
  }

  lemma {:induction false} TicksKeepOthers(worlds: seq<W.World>, maxBytes: nat, k: nat)
    requires Ticks(worlds, maxBytes) && k < |worlds|
    ensures Others(worlds[k]) == Others(worlds[0])
  {
    hide Tick, Others;
    if k > 0 {
      TicksKeepOthers(worlds, maxBytes, k - 1);
      assert Tick(worlds[k - 1], worlds[(k - 1) + 1], maxBytes);
      TickKeepsOthers(worlds[k - 1], worlds[k], maxBytes);
    }
  }

  lemma NothingCached(w: W.World)
    requires CachedNames(w) == {}
    ensures Others(w) == w.cache
  {
    assert w.cache - {} == w.cache;
  }

  /** After as many ticks as there were cached files the cache is within its limit, iff the other files alone are. */
  lemma LimitReachedIff(worlds: seq<W.World>, maxBytes: nat)
    requires Ticks(worlds, maxBytes) && worlds != [] && |worlds| > |CachedNames(worlds[0])|
    ensures Usage(worlds[|CachedNames(worlds[0])|].cache) <= maxBytes <==> Usage(Others(worlds[0])) <= maxBytes
  {
    hide Ticks, Usage, Others;
    var k := |CachedNames(worlds[0])|;
    TicksReachTheLimit(worlds, maxBytes);
    TicksKeepOthers(worlds, maxBytes, k);
    OthersWithin(worlds[k]);
    if CachedNames(worlds[k]) == {} {
      NothingCached(worlds[k]);
    }
  }

  lemma OthersWithin(w: W.World)
    ensures Usage(Others(w)) <= Usage(w.cache)
  {
    hide Usage;
    UsagePart(w.cache, CachedNames(w));
  }

  /** Every cached row has a file of at least that size behind it. */
  predicate CachedAtLeast(w: W.World, size: nat) {
    forall n :: n in w.rows && w.rows[n].state == Cached ==> n in w.cache && |w.cache[n]| >= size
  }

  lemma {:induction false} EvictKeepsSizes(w: W.World, victims: seq<string>, size: nat)
    requires CachedAtLeast(w, size)
    ensures CachedAtLeast(W.EvictAll(w, victims, {}, {}), size)
    decreases |victims|
  {
    hide W.RemoveCached, CachedAtLeast;
    if victims != [] {
      RemoveKeepsSizes(w, victims[0], size);
      EvictKeepsSizes(W.RemoveCached(w, victims[0], {}, {}), victims[1..], size);
    }
  }

  lemma RemoveKeepsSizes(w: W.World, name: string, size: nat)
    requires CachedAtLeast(w, size)
    ensures CachedAtLeast(W.RemoveCached(w, name, {}, {}), size)
  {
  }

  lemma VictimsAtLeast(w: W.World, limit: nat, victims: seq<string>, size: nat)
    requires W.LruPrefix(w.rows, victims, limit) && CachedAtLeast(w, size)
    ensures AtLeast(w.cache, victims, size)
  {
  }

  /** Where the other files fit, a tick ends within the limit or frees the smallest size that a cached file has once for
      every file asked for. */
  lemma SizedTick(w: W.World, w': W.World, maxBytes: nat, size: nat)
    requires Tick(w, w', maxBytes) && CachedAtLeast(w, size) && Usage(Others(w)) <= maxBytes
    ensures CachedAtLeast(w', size) && Others(w') == Others(w)
    ensures Usage(w'.cache) <= maxBytes
            || Usage(w'.cache) + EvictionCount(Usage(w.cache) - maxBytes) * size <= Usage(w.cache)
  {
    hide W.EvictAll, W.LruPrefix, CachedAtLeast, Others, Usage, EvictionCount;
    TickKeepsOthers(w, w', maxBytes);
    if Usage(w.cache) <= maxBytes {
      TickWithinLimit(w, w', maxBytes);
    } else {
      var victims :| TickWith(w, w', maxBytes, victims);
      EvictKeepsSizes(w, victims, size);
      EvictedRows(w, EvictionCount(Usage(w.cache) - maxBytes), victims);
      if |CachedNames(w)| >= EvictionCount(Usage(w.cache) - maxBytes) {
        VictimsAtLeast(w, EvictionCount(Usage(w.cache) - maxBytes), victims, size);
        TickFrees(w, w', maxBytes, victims, size);
      } else {
        NothingCached(w');
      }
    }
  }

  function Pow(base: nat, k: nat): nat { if k == 0 then 1 else base * Pow(base, k - 1) }

  lemma ExcessScaled(excess: nat, count: nat, size: nat, left: int)
    requires excess < count * MAX_BLOCK_FILE && left + count * size <= excess
    ensures left * MAX_BLOCK_FILE <= excess * (MAX_BLOCK_FILE - size)
  {
    assert left * MAX_BLOCK_FILE <= (excess - count * size) * MAX_BLOCK_FILE;
    assert (count * MAX_BLOCK_FILE - excess) * size >= 0;
  }

  /** Each tick over the limit leaves at most (128 MiB - size) / 128 MiB of the excess. */
  lemma ExcessShrinks(w: W.World, w': W.World, maxBytes: nat, size: nat)
    requires Tick(w, w', maxBytes) && CachedAtLeast(w, size) && Usage(Others(w)) <= maxBytes
    ensures Usage(w'.cache) <= maxBytes
            || (Usage(w'.cache) - maxBytes) * MAX_BLOCK_FILE <= (Usage(w.cache) - maxBytes) * (MAX_BLOCK_FILE - size)
  {
    hide Usage, Tick, Others, CachedAtLeast;
    SizedTick(w, w', maxBytes, size);
    if Usage(w.cache) <= maxBytes {
      TickWithinLimit(w, w', maxBytes);
    } else if Usage(w'.cache) > maxBytes {
      var excess := Usage(w.cache) - maxBytes;
      ExcessScaled(excess, EvictionCount(excess), size, Usage(w'.cache) - maxBytes);
    }
  }

  lemma PowerStep(excess: int, left: int, size: nat, k: nat)
    requires k > 0 && size <= MAX_BLOCK_FILE && left * MAX_BLOCK_FILE <= excess * (MAX_BLOCK_FILE - size)
    requires excess * Pow(MAX_BLOCK_FILE - size, k) < Pow(MAX_BLOCK_FILE, k)
    ensures left * Pow(MAX_BLOCK_FILE - size, k - 1) < Pow(MAX_BLOCK_FILE, k - 1)
  {
    var p, q, rest := Pow(MAX_BLOCK_FILE - size, k - 1), Pow(MAX_BLOCK_FILE, k - 1), MAX_BLOCK_FILE - size;
    Scaled(left * MAX_BLOCK_FILE, excess * rest, p);
    assert left * MAX_BLOCK_FILE * p == MAX_BLOCK_FILE * (left * p);
    assert excess * rest * p == excess * (rest * p);
    if left * p >= q {
      Scaled(q, left * p, MAX_BLOCK_FILE);
    }
  }

  lemma Scaled(a: int, b: int, c: nat)
    requires a <= b
    ensures a * c <= b * c
  {
  }

  /** However small the cached files are, as long as none is smaller than `size`: k ticks bring the cache within its
      limit when the excess times ((128 MiB - size) / 128 MiB) ^ k is less than one byte. */
  lemma {:induction false} TicksSuffice(worlds: seq<W.World>, maxBytes: nat, size: nat, k: nat)
    requires Ticks(worlds, maxBytes) && |worlds| == k + 1 && size <= MAX_BLOCK_FILE
    requires CachedAtLeast(worlds[0], size) && Usage(Others(worlds[0])) <= maxBytes
    requires (Usage(worlds[0].cache) - maxBytes) * Pow(MAX_BLOCK_FILE - size, k) < Pow(MAX_BLOCK_FILE, k)
    ensures Usage(worlds[k].cache) <= maxBytes
    decreases k
  {
    hide Usage, Tick, Others, CachedAtLeast;
    if k > 0 {
      var excess, left := Usage(worlds[0].cache) - maxBytes, Usage(worlds[1].cache) - maxBytes;
      assert Tick(worlds[0], worlds[0 + 1], maxBytes);
      SizedTick(worlds[0], worlds[1], maxBytes, size);
      ExcessShrinks(worlds[0], worlds[1], maxBytes, size);
      TicksBehind(worlds, maxBytes);
      if left <= 0 {
        StaysWithin(worlds[1..], maxBytes, k - 1);
      } else {
        PowerStep(excess, left, size, k);
        TicksSuffice(worlds[1..], maxBytes, size, k - 1);
      }
    }
  }

  lemma {:induction false} StaysWithin(worlds: seq<W.World>, maxBytes: nat, k: nat)
    requires Ticks(worlds, maxBytes) && k < |worlds| && Usage(worlds[0].cache) <= maxBytes
    ensures worlds[k] == worlds[0]
  {
    hide Usage, Tick;
    if k > 0 {
      StaysWithin(worlds, maxBytes, k - 1);
      assert Tick(worlds[k - 1], worlds[(k - 1) + 1], maxBytes);
      TickWithinLimit(worlds[k - 1], worlds[k], maxBytes);
    }
  }

  function Pow32(j: nat): nat { if j == 0 then 1 else 32 * Pow32(j - 1) }

  /** An excess below m times 128 MiB falls below m times 4 MiB when all cached files are full. */
  lemma ExcessDivided(w: W.World, w': W.World, maxBytes: nat, m: nat)
    requires Tick(w, w', maxBytes) && CachedAtLeast(w, FINALIZED_THRESHOLD) && Usage(Others(w)) <= maxBytes
    requires Usage(w.cache) - maxBytes < m * MAX_BLOCK_FILE
    ensures Usage(w'.cache) <= maxBytes || Usage(w'.cache) - maxBytes < m * SLACK
  {
    hide Usage, Tick, Others, CachedAtLeast;
    SizedTick(w, w', maxBytes, FINALIZED_THRESHOLD);
    if Usage(w.cache) <= maxBytes {
      TickWithinLimit(w, w', maxBytes);
    } else {
      var excess := Usage(w.cache) - maxBytes;
      var count := EvictionCount(excess);
      assert count <= m;
      assert excess < count * MAX_BLOCK_FILE;
    }
  }

  /** On a cache of full files each tick divides the excess by 32: one below 32^j times 128 MiB is gone after j + 2
      ticks. */
  lemma {:induction false} FullFilesTicks(worlds: seq<W.World>, maxBytes: nat, j: nat)
    requires Ticks(worlds, maxBytes) && |worlds| == j + 3
    requires CachedAtLeast(worlds[0], FINALIZED_THRESHOLD) && Usage(Others(worlds[0])) <= maxBytes
    requires Usage(worlds[0].cache) - maxBytes < Pow32(j) * MAX_BLOCK_FILE
    ensures Usage(worlds[j + 2].cache) <= maxBytes
    decreases j
  {
    hide Usage, Tick, Others, CachedAtLeast;
    assert Tick(worlds[0], worlds[0 + 1], maxBytes);
    SizedTick(worlds[0], worlds[1], maxBytes, FINALIZED_THRESHOLD);
    ExcessDivided(worlds[0], worlds[1], maxBytes, Pow32(j));
    if j > 0 {
      var rest := worlds[1..];
      TicksBehind(worlds, maxBytes);
      assert Pow32(j) * SLACK == Pow32(j - 1) * MAX_BLOCK_FILE;
      PowPositive(j - 1);
      FullFilesTicks(rest, maxBytes, j - 1);
    } else {
      assert Tick(worlds[1], worlds[1 + 1], maxBytes);
      SizedTick(worlds[1], worlds[2], maxBytes, FINALIZED_THRESHOLD);
    }
  }

  lemma PowPositive(j: nat)
    ensures Pow32(j) >= 1
  {
  }

  lemma TicksBehind(worlds: seq<W.World>, maxBytes: nat)
    requires Ticks(worlds, maxBytes) && worlds != []
    ensures Ticks(worlds[1..], maxBytes)
  {
    hide Tick;
    forall i | 0 <= i < |worlds[1..]| - 1
      ensures Tick(worlds[1..][i], worlds[1..][i + 1], maxBytes)
    {
      assert Tick(worlds[i + 1], worlds[(i + 1) + 1], maxBytes);
    }
  }
}

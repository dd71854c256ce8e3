/** The tool that strips XOR obfuscation from block files in place and repairs interrupted runs. */
module XorStrip {
  import opened Bytes

  type Bits = seq<bv8>

  const CHUNK: nat := 8 * 1024 * 1024

  /** The eight key bytes. */
  type Key = k: Bits | |k| == 8 witness [0, 0, 0, 0, 0, 0, 0, 0]

  const RAW_MAGIC: Bits := [0xf9, 0xbe, 0xb4, 0xd9]

  /** The magics of mainnet, testnet3, signet, regtest and testnet4 as they stand in a file. */
  const NETWORK_MAGICS: set<Bits> :=
    {RAW_MAGIC, [0x0b, 0x11, 0x09, 0x07], [0x0a, 0x03, 0xcf, 0x40], [0xfa, 0xbf, 0xb5, 0xda], [0x1c, 0x16, 0x3f, 0x28]}

  predicate IsNetworkMagic(m: Bits) { m in NETWORK_MAGICS }

  datatype FileState = Raw | Obfuscated | Unknown

  /** XOR with the key, aligned to file positions, on positions lo <= i < hi. */
  function XorRange(s: Bits, key: Key, lo: int, hi: int): (r: Bits)
    ensures |r| == |s|
  {
    seq(|s|, i requires 0 <= i < |s| => if lo <= i < hi then s[i] ^ key[i % 8] else s[i])
  }

  lemma XorNext(s: Bits, key: Key, lo: int, mid: int, hi: int)
    requires lo <= mid <= hi
    ensures XorRange(XorRange(s, key, lo, mid), key, mid, hi) == XorRange(s, key, lo, hi)
  {
  }

  lemma XorClipped(s: Bits, key: Key, lo: int, hi: int)
    requires hi >= |s|
    ensures XorRange(s, key, lo, hi) == XorRange(s, key, lo, |s|)
  {
  }

  lemma XorNothing(s: Bits, key: Key, lo: int, hi: int)
    requires hi <= lo || lo >= |s|
    ensures XorRange(s, key, lo, hi) == s
  {
  }

  /** The whole file under the key: obfuscation, and its own inverse. */
  function Obfuscate(s: Bits, key: Key): (r: Bits)
    ensures |r| == |s|
  {
    XorRange(s, key, 0, |s|)
  }

  function Detect(s: Bits, key: Key): FileState {
    if |s| < 4 then Unknown
    else if IsNetworkMagic(s[..4]) then Raw
    else if IsNetworkMagic([s[0] ^ key[0], s[1] ^ key[1], s[2] ^ key[2], s[3] ^ key[3]]) then Obfuscated
    else Unknown
  }

  /** The chunk that starts at `off`, shorter at the end of the file. */
  function ChunkAt(s: Bits, off: nat): Bits
    requires off <= |s|
  {
    if off + CHUNK <= |s| then s[off..off + CHUNK] else s[off..]
  }

  predicate MagicAt(chunk: Bits, i: nat) { i + 4 <= |chunk| && chunk[i..i + 4] == RAW_MAGIC }

  predicate HasRawMagic(chunk: Bits) {
    exists i :: 0 <= i < |chunk| && MagicAt(chunk, i)
  }

  /** The first chunk at or behind `off` without the raw magic. */
  function Boundary(s: Bits, off: nat): (b: Option<nat>)
    ensures b.Some? ==> off <= b.value < |s|
    decreases |s| - off
  {
    if off >= |s| then None
    else if !HasRawMagic(ChunkAt(s, off)) then Some(off)
    else Boundary(s, off + CHUNK)
  }

  /** XORs a buffer that was read from file position `offset`. */
  method XorBuffer(buf: array<bv8>, key: Key, offset: nat)
    modifies buf
    ensures forall k :: 0 <= k < buf.Length ==> buf[k] == old(buf[k]) ^ key[(offset + k) % 8]
  {
    for i := 0 to buf.Length
      invariant forall k :: 0 <= k < i ==> buf[k] == old(buf[k]) ^ key[(offset + k) % 8]
      invariant forall k :: i <= k < buf.Length ==> buf[k] == old(buf[k])
    {
      buf[i] := buf[i] ^ key[(offset + i) % 8];
    }
  }

  /** Reads one chunk below `end`, XORs it in the buffer and writes it back. */
  method XorChunk(f: array<bv8>, key: Key, offset: nat, end: nat) returns (n: nat)
    requires end <= f.Length
    modifies f
    ensures n == if offset >= end then 0 else if offset + CHUNK <= end then CHUNK else end - offset
    ensures f[..] == XorRange(old(f[..]), key, offset, offset + n)
  {
    n := if offset >= end then 0 else if offset + CHUNK <= end then CHUNK else end - offset;
    var buf := new bv8[n](i requires 0 <= i < n reads f => f[offset + i]);
    XorBuffer(buf, key, offset);
    forall i | 0 <= i < n {
      f[offset + i] := buf[i];
    }
  }

  /** Strips from `start` on. The loop ends where reading does, at the end of the file or at an error, which it does not
      tell apart; and it can be killed after any number of chunk writes. */
  method XorFileFromOffset(f: array<bv8>, key: Key, start: nat, end: nat, writes: nat) returns (finished: bool)
    requires start <= end <= f.Length
    modifies f
    ensures f[..] == XorRange(old(f[..]), key, start, Min(start + writes * CHUNK, end))
    ensures finished <==> start + writes * CHUNK > end
  {
    hide XorRange;
    var offset := start;
    var done := 0;
    XorNothing(f[..], key, start, start);
    while done < writes
      invariant 0 <= done <= writes && offset == start + done * CHUNK <= end
      invariant f[..] == XorRange(old(f[..]), key, start, offset)
      decreases writes - done
    {
      var n := XorChunk(f, key, offset, end);
      XorNext(old(f[..]), key, start, offset, offset + n);
      if n < CHUNK {
        assert start + writes * CHUNK >= offset + CHUNK;
        return true;
      }
      offset := offset + CHUNK;
      done := done + 1;
    }
    return false;
  }

  method FindConversionBoundary(s: Bits) returns (b: Option<nat>)
    ensures b == Boundary(s, 0)
  {
    hide HasRawMagic;
    var offset := 0;
    while offset < |s|
      invariant 0 <= offset && Boundary(s, offset) == Boundary(s, 0)
    {
      var chunk := if offset + CHUNK <= |s| then s[offset..offset + CHUNK] else s[offset..];
      if !HasRawMagic(chunk) {
        return Some(offset);
      }
      offset := offset + CHUNK;
    }
    return None;
  }

  predicate IsBlk(name: string) { |name| >= 3 && name[..3] == "blk" }

  /** Where a run starts stripping a file: at 0 to convert it, at the boundary to repair it, or not at all. */
  function JobFor(name: string, s: Bits, key: Key, repair: bool): (job: Option<nat>)
    ensures job.Some? ==> job.value <= |s|
  {
    match Detect(s, key)
    case Obfuscated => Some(0)
    case Unknown => None
    case Raw => if repair && IsBlk(name) then Boundary(s, 0) else None
  }

  /** What one run makes of one file. */
  function Strip(name: string, s: Bits, key: Key, repair: bool): Bits {
    var job := JobFor(name, s, key, repair);
    if job.Some? then XorRange(s, key, job.value, |s|) else s
  }

  // One file

  /** A strip of the obfuscated form of `raw` that was killed after `p` bytes. */
  function Interrupted(raw: Bits, key: Key, p: nat): Bits {
    XorRange(Obfuscate(raw, key), key, 0, p)
  }

  /** Every chunk of the file that starts below `p` contains the mainnet magic. */
  predicate MagicBelow(s: Bits, p: nat) {
    forall c :: 0 <= c < |s| && c < p && c % CHUNK == 0 ==> HasRawMagic(ChunkAt(s, c))
  }

  predicate AllMagic(s: Bits) { MagicBelow(s, |s|) }

  /** The file starts with the magic of some network. */
  predicate IsNetworkFile(raw: Bits) { |raw| >= 4 && IsNetworkMagic(raw[..4]) }

  /** The magic tells the chunks below the killing point, which are raw, from the one behind it, which is not. */
  predicate Distinguishable(raw: Bits, key: Key, p: nat) {
    MagicBelow(raw, p) && (p < |raw| ==> !HasRawMagic(ChunkAt(Obfuscate(raw, key), p)))
  }

  lemma InterruptedAt(raw: Bits, key: Key, p: nat, i: nat)
    requires i < |raw|
    ensures Interrupted(raw, key, p)[i] == if i < p then raw[i] else raw[i] ^ key[i % 8]
    ensures Interrupted(raw, key, p)[i] == if i < p then raw[i] else Obfuscate(raw, key)[i]
  {
  }

  lemma InterruptedFrom(raw: Bits, key: Key, p: nat)
    ensures XorRange(Interrupted(raw, key, p), key, p, |raw|) == raw
    ensures p >= |raw| ==> Interrupted(raw, key, p) == raw
  {
  }

  /** A chunk below the killing point is raw, one behind it is still obfuscated. */
  lemma InterruptedChunk(raw: Bits, key: Key, p: nat, c: nat)
    requires c < |raw|
    ensures c + CHUNK <= p || p >= |raw| ==> ChunkAt(Interrupted(raw, key, p), c) == ChunkAt(raw, c)
    ensures p <= c ==> ChunkAt(Interrupted(raw, key, p), c) == ChunkAt(Obfuscate(raw, key), c)
  {
    var s := Interrupted(raw, key, p);
    forall i | c <= i < |raw|
      ensures s[i] == if i < p then raw[i] else Obfuscate(raw, key)[i]
    {
      InterruptedAt(raw, key, p, i);
    }
  }

  /** All chunks before `b` contain the magic, so the search goes on from there. */
  lemma {:induction false} SearchGoesOn(s: Bits, off: nat, b: nat)
    requires off % CHUNK == 0 && b % CHUNK == 0 && off <= b
    requires forall c :: 0 <= c < |s| && c < b && c % CHUNK == 0 ==> HasRawMagic(ChunkAt(s, c))
    ensures Boundary(s, off) == Boundary(s, b)
    decreases b - off
  {
    hide HasRawMagic, ChunkAt;
    if off < b {
      assert off + CHUNK <= b;
      SearchGoesOn(s, off + CHUNK, b);
    }
  }

  lemma InterruptedLength(raw: Bits, key: Key, p: nat)
    ensures |Interrupted(raw, key, p)| == |raw|
  {
  }

  /** A file has no boundary iff every chunk contains the magic. */
  lemma NoBoundaryIff(s: Bits)
    ensures Boundary(s, 0) == None <==> AllMagic(s)
  {
    hide HasRawMagic, ChunkAt;
    if AllMagic(s) {
      SearchGoesOn(s, 0, (|s| / CHUNK + 1) * CHUNK);
    }
    if Boundary(s, 0) == None {
      AllSearched(s, 0);
    }
  }

  lemma {:induction false} AllSearched(s: Bits, off: nat)
    requires Boundary(s, off) == None && off % CHUNK == 0
    ensures forall c :: off <= c < |s| && c % CHUNK == 0 ==> HasRawMagic(ChunkAt(s, c))
    decreases |s| - off
  {
    hide HasRawMagic, ChunkAt;
    if off < |s| {
      AllSearched(s, off + CHUNK);
    }
  }

  /** The boundary is a chunk without the magic behind chunks that contain it, and there is only one such. */
  lemma BoundaryIff(s: Bits, b: nat)
    requires b < |s|
    ensures Boundary(s, 0) == Some(b) <==> b % CHUNK == 0 && MagicBelow(s, b) && !HasRawMagic(ChunkAt(s, b))
  {
    hide HasRawMagic, ChunkAt;
    if b % CHUNK == 0 && MagicBelow(s, b) {
      SearchGoesOn(s, 0, b);
    }
    if Boundary(s, 0) == Some(b) {
      BoundaryAligned(s, 0);
    }
  }

  lemma {:induction false} BoundaryAligned(s: Bits, off: nat)
    requires off % CHUNK == 0 && Boundary(s, off).Some?
    ensures Boundary(s, off).value % CHUNK == 0 && !HasRawMagic(ChunkAt(s, Boundary(s, off).value))
    ensures forall c :: off <= c < Boundary(s, off).value && c % CHUNK == 0 ==> HasRawMagic(ChunkAt(s, c))
    decreases |s| - off
  {
    hide HasRawMagic, ChunkAt;
    if off < |s| && HasRawMagic(ChunkAt(s, off)) {
      BoundaryAligned(s, off + CHUNK);
    }
  }

  /** On a file killed at a chunk border, the boundary is the killing point iff the magic tells the chunks apart. */
  lemma BoundaryAtKill(raw: Bits, key: Key, p: nat)
    requires p < |raw| && p % CHUNK == 0
    ensures Boundary(Interrupted(raw, key, p), 0) == Some(p) <==> Distinguishable(raw, key, p)
  {
    hide HasRawMagic, ChunkAt, Interrupted, Obfuscate, Boundary;
    var s := Interrupted(raw, key, p);
    InterruptedLength(raw, key, p);
    BoundaryIff(s, p);
    InterruptedChunk(raw, key, p, p);
    forall c | 0 <= c < |s| && c < p && c % CHUNK == 0
      ensures ChunkAt(s, c) == ChunkAt(raw, c)
    {
      InterruptedChunk(raw, key, p, c);
    }
  }

  /** With at least four bytes done, the file starts with its own magic again. */
  lemma DetectInterrupted(raw: Bits, key: Key, p: nat)
    requires IsNetworkFile(raw) && (p >= 4 || p >= |raw|)
    ensures Detect(Interrupted(raw, key, p), key) == Raw
  {
    InterruptedAt(raw, key, p, 0);
    InterruptedAt(raw, key, p, 1);
    InterruptedAt(raw, key, p, 2);
    InterruptedAt(raw, key, p, 3);
    assert Interrupted(raw, key, p)[..4] == raw[..4];
  }

  /** An untouched file is detected as obfuscated, or as raw when its bytes pass for some network's magic. */
  lemma DetectUntouched(raw: Bits, key: Key)
    requires IsNetworkFile(raw)
    ensures Detect(Interrupted(raw, key, 0), key) != Unknown
  {
    hide Interrupted, Obfuscate, Detect, IsNetworkMagic;
    var s := Interrupted(raw, key, 0);
    InterruptedLength(raw, key, 0);
    InterruptedAt(raw, key, 0, 0);
    InterruptedAt(raw, key, 0, 1);
    InterruptedAt(raw, key, 0, 2);
    InterruptedAt(raw, key, 0, 3);
    assert raw[..4] == [raw[0], raw[1], raw[2], raw[3]];
    XorBack(raw[0], key[0], s[0]);
    XorBack(raw[1], key[1], s[1]);
    XorBack(raw[2], key[2], s[2]);
    XorBack(raw[3], key[3], s[3]);
    UnmaskedMagic(s, key, raw[0], raw[1], raw[2], raw[3]);
  }

  lemma XorBack(x: bv8, k: bv8, y: bv8)
    requires y == x ^ k
    ensures y ^ k == x
  {
  }

  /** Four bytes under the key show what they are. */
  lemma UnmaskedMagic(s: Bits, key: Key, a: bv8, b: bv8, c: bv8, d: bv8)
    requires |s| >= 4 && IsNetworkMagic([a, b, c, d])
    requires s[0] ^ key[0] == a && s[1] ^ key[1] == b && s[2] ^ key[2] == c && s[3] ^ key[3] == d
    ensures Detect(s, key) != Unknown
  {
    hide IsNetworkMagic;
  }

  /** Where a run starts to strip, which is the end of the file when it leaves it alone. */
  function StartOf(name: string, s: Bits, key: Key, repair: bool): (start: nat)
    ensures start <= |s|
  {
    var job := JobFor(name, s, key, repair);
    if job.Some? then job.value else |s|
  }

  /** Two strips of one byte cancel out iff exactly one of them reaches it, or the key byte is zero. */
  lemma XorPair(x: bv8, k: bv8, first: bool, second: bool)
    ensures var y := if first then x else x ^ k;
            (if second then y ^ k else y) == x <==> first != second || k == 0
  {
    XorCases(x, k);
  }

  lemma StrippedAgainAt(raw: Bits, key: Key, p: nat, start: nat, i: nat)
    requires i < |raw|
    ensures XorRange(Interrupted(raw, key, p), key, start, |raw|)[i] == raw[i]
            <==> ((start <= i < p || p <= i < start) ==> key[i % 8] == 0)
  {
    InterruptedAt(raw, key, p, i);
    InterruptedLength(raw, key, p);
    XorAt(Interrupted(raw, key, p), key, start, |raw|, i);
    hide Interrupted, XorRange, Obfuscate;
    XorPair(raw[i], key[i % 8], i < p, start <= i);
  }

  lemma XorAt(s: Bits, key: Key, lo: int, hi: int, i: nat)
    requires i < |s|
    ensures XorRange(s, key, lo, hi)[i] == if lo <= i < hi then s[i] ^ key[i % 8] else s[i]
  {
  }

  /** The four bytes of the mainnet magic stand at `j`. */
  predicate ShowsMagic(s: Bits, j: nat) {
    j + 4 <= |s| && s[j] == 0xf9 && s[j + 1] == 0xbe && s[j + 2] == 0xb4 && s[j + 3] == 0xd9
  }

  lemma MagicAtIff(chunk: Bits, i: nat)
    ensures MagicAt(chunk, i) <==> ShowsMagic(chunk, i)
  {
    if i + 4 <= |chunk| {
      var four := chunk[i..i + 4];
      assert four == [chunk[i], chunk[i + 1], chunk[i + 2], chunk[i + 3]];
    }
  }

  /** A chunk contains the mainnet magic iff the four bytes stand anywhere in it, all four within the chunk. */
  lemma HasRawMagicIff(s: Bits, c: nat)
    requires c < |s|
    ensures HasRawMagic(ChunkAt(s, c)) <==> exists j :: c <= j && j + 4 <= c + CHUNK && ShowsMagic(s, j)
  {
    var chunk := ChunkAt(s, c);
    assert forall i :: 0 <= i < |chunk| ==> chunk[i] == s[c + i];
    forall i | 0 <= i < |chunk|
      ensures MagicAt(chunk, i) <==> c + i + 4 <= c + CHUNK && ShowsMagic(s, c + i)
    {
      MagicAtIff(chunk, i);
    }
    if j :| c <= j && j + 4 <= c + CHUNK && ShowsMagic(s, j) {
      assert MagicAt(chunk, j - c);
    }
  }

  /** A file of one of the five networks is restored by a run with its key, unless its obfuscated form passes for raw
      itself and is not. */
  lemma NetworkFileRestoredIff(name: string, raw: Bits, key: Key)
    requires |raw| >= 4
    requires raw[..4] in {[0xf9, 0xbe, 0xb4, 0xd9], [0x0b, 0x11, 0x09, 0x07], [0x0a, 0x03, 0xcf, 0x40],
                          [0xfa, 0xbf, 0xb5, 0xda], [0x1c, 0x16, 0x3f, 0x28]}
    ensures var s := Obfuscate(raw, key);
            Strip(name, s, key, false) == raw
            <==> s == raw
                 || s[..4] !in {[0xf9, 0xbe, 0xb4, 0xd9], [0x0b, 0x11, 0x09, 0x07], [0x0a, 0x03, 0xcf, 0x40],
                                [0xfa, 0xbf, 0xb5, 0xda], [0x1c, 0x16, 0x3f, 0x28]}
  {
    hide Boundary, HasRawMagic;
    var s := Obfuscate(raw, key);
    assert s == Interrupted(raw, key, 0) by {
      XorNothing(s, key, 0, 0);
    }
    DetectUntouched(raw, key);
    InterruptedFrom(raw, key, 0);
  }

  /** For every file, key, killing point and mode: a run restores the file iff the key is zero on everything between the
      place where the first strip was killed and the place where this run starts. */
  lemma RestoredIff(name: string, raw: Bits, key: Key, p: nat, repair: bool)
    ensures var start := StartOf(name, Interrupted(raw, key, p), key, repair);
            Strip(name, Interrupted(raw, key, p), key, repair) == raw
            <==> forall i :: 0 <= i < |raw| && (start <= i < p || p <= i < start) ==> key[i % 8] == 0
  {
    hide JobFor, Interrupted, XorRange;
    var s := Interrupted(raw, key, p);
    var start, r := StartOf(name, s, key, repair), Strip(name, s, key, repair);
    InterruptedLength(raw, key, p);
    XorNothing(s, key, |s|, |s|);
    assert r == XorRange(s, key, start, |raw|);
    forall i | 0 <= i < |raw|
      ensures r[i] == raw[i] <==> ((start <= i < p || p <= i < start) ==> key[i % 8] == 0)
    {
      StrippedAgainAt(raw, key, p, start, i);
    }
  }

  lemma XorCases(x: bv8, k: bv8)
    ensures x ^ k ^ k == x
    ensures x ^ k == x <==> k == 0
  {
  }

  lemma StartAligned(name: string, s: Bits, key: Key, repair: bool)
    ensures StartOf(name, s, key, repair) == |s| || StartOf(name, s, key, repair) % CHUNK == 0
  {
    hide Detect;
    if Boundary(s, 0).Some? {
      BoundaryAligned(s, 0);
    }
  }

  /** So, with a key that is not zero where it matters, a run restores the file iff it starts at the killing point. */
  lemma RestoredAtStart(name: string, raw: Bits, key: Key, p: nat, repair: bool)
    requires key[0] != 0 && key[p % 8] != 0
    ensures Strip(name, Interrupted(raw, key, p), key, repair) == raw
            <==> StartOf(name, Interrupted(raw, key, p), key, repair) == Min(p, |raw|)
  {
    hide Strip, StartOf, Interrupted;
    var start := StartOf(name, Interrupted(raw, key, p), key, repair);
    InterruptedLength(raw, key, p);
    RestoredIff(name, raw, key, p, repair);
    StartAligned(name, Interrupted(raw, key, p), key, repair);
    if start < Min(p, |raw|) {
      assert start % 8 == 0 && key[start % 8] != 0;
    } else if Min(p, |raw|) < start {
      assert key[p % 8] != 0;
    }
  }

  /** The key is zero on these positions of a file of that length. */
  predicate ZeroKeyOn(key: Key, length: nat, lo: int, hi: int) {
    forall i :: 0 <= i < length && lo <= i < hi ==> key[i % 8] == 0
  }

  /** The exact condition for a repair, for every file and key: the key is zero between the killing point and the place
      where the repair starts, which is the first chunk without the mainnet magic in a file that passes for raw, and
      the first byte of one that passes for untouched. With a key that is not zero where it matters: a finished file
      must have the mainnet magic in every chunk; an unfinished one must have been killed at a chunk border and, unless
      it is untouched and seen to be, the magic must tell its chunks apart. */
  lemma RepairIff(name: string, raw: Bits, key: Key, p: nat)
    requires IsBlk(name)
    ensures var s := Interrupted(raw, key, p);
            var start := if Detect(s, key) == Obfuscated then 0
                         else if Detect(s, key) == Raw && Boundary(s, 0).Some? then Boundary(s, 0).value else |raw|;
            Strip(name, s, key, true) == raw
            <==> ZeroKeyOn(key, |raw|, start, p) && ZeroKeyOn(key, |raw|, p, start)
    ensures IsNetworkFile(raw) && key[0] != 0 && key[p % 8] != 0 ==>
              (Strip(name, Interrupted(raw, key, p), key, true) == raw <==> Repairable(raw, key, p))
  {
    hide Strip, Detect, Interrupted, Boundary, Repairable;
    InterruptedLength(raw, key, p);
    RestoredIff(name, raw, key, p, true);
    if IsNetworkFile(raw) && key[0] != 0 && key[p % 8] != 0 {
      RepairIffRepairable(name, raw, key, p);
    }
  }

  predicate Repairable(raw: Bits, key: Key, p: nat) {
    if p >= |raw| then AllMagic(raw)
    else p % CHUNK == 0
         && (Distinguishable(raw, key, p) || (p == 0 && Detect(Obfuscate(raw, key), key) == Obfuscated))
  }

  lemma RepairIffRepairable(name: string, raw: Bits, key: Key, p: nat)
    requires IsBlk(name) && IsNetworkFile(raw) && key[0] != 0 && key[p % 8] != 0
    ensures Strip(name, Interrupted(raw, key, p), key, true) == raw <==> Repairable(raw, key, p)
  {
    hide Strip, Detect, Interrupted, Boundary, HasRawMagic, ChunkAt, Obfuscate, IsNetworkFile, MagicBelow,
        Distinguishable;
    var s := Interrupted(raw, key, p);
    InterruptedLength(raw, key, p);
    RestoredAtStart(name, raw, key, p, true);
    StartAligned(name, s, key, true);
    if p >= |raw| {
      DetectInterrupted(raw, key, p);
      InterruptedFrom(raw, key, p);
      NoBoundaryIff(raw);
    } else if p % CHUNK == 0 {
      BoundaryAtKill(raw, key, p);
      if p == 0 {
        DetectUntouched(raw, key);
        NothingDone(raw, key);
      } else {
        DetectInterrupted(raw, key, p);
      }
    }
  }

  lemma NothingDone(raw: Bits, key: Key)
    ensures Interrupted(raw, key, 0) == Obfuscate(raw, key)
  {
  }

  /** After a strip killed at a chunk border, or not killed at all, a run with --repair leaves exactly the raw file. */
  lemma RepairAtBorder(name: string, raw: Bits, key: Key, p: nat)
    requires IsBlk(name) && IsNetworkFile(raw) && Distinguishable(raw, key, p) && (p % CHUNK == 0 || p >= |raw|)
    ensures Strip(name, Interrupted(raw, key, p), key, true) == raw
  {
    hide Detect, Interrupted, Boundary, XorRange, HasRawMagic, ChunkAt, Obfuscate, IsNetworkFile;
    InterruptedLength(raw, key, p);
    InterruptedFrom(raw, key, p);
    if p >= |raw| {
      DetectInterrupted(raw, key, p);
      NoBoundaryIff(raw);
    } else {
      BoundaryAtKill(raw, key, p);
      if p == 0 {
        DetectUntouched(raw, key);
      } else {
        DetectInterrupted(raw, key, p);
      }
    }
  }

  /** Killed inside a chunk, no run restores the file, unless the key happens to be zero on one half of that chunk: the
      tool works on whole chunks and this one is half done. */
  lemma NoRepairInsideChunk(name: string, raw: Bits, key: Key, p: nat, repair: bool)
    requires p < |raw| && p % CHUNK != 0
    requires !ZeroKeyOn(key, |raw|, p - p % CHUNK, p) && !ZeroKeyOn(key, |raw|, p, p - p % CHUNK + CHUNK)
    ensures Strip(name, Interrupted(raw, key, p), key, repair) != raw
  {
    hide Strip, Interrupted, StartOf, ZeroKeyOn;
    var start := StartOf(name, Interrupted(raw, key, p), key, repair);
    InterruptedLength(raw, key, p);
    RestoredIffZero(name, raw, key, p, repair);
    StartAligned(name, Interrupted(raw, key, p), key, repair);
    if start <= p - p % CHUNK {
      ZeroKeyWithin(key, |raw|, start, p, p - p % CHUNK, p);
    } else {
      assert start == |raw| || start >= p - p % CHUNK + CHUNK;
      ZeroKeyWithin(key, |raw|, p, start, p, Min(start, p - p % CHUNK + CHUNK));
      ZeroKeyClipped(key, |raw|, p, p - p % CHUNK + CHUNK);
    }
  }

  lemma RestoredIffZero(name: string, raw: Bits, key: Key, p: nat, repair: bool)
    ensures var start := StartOf(name, Interrupted(raw, key, p), key, repair);
            Strip(name, Interrupted(raw, key, p), key, repair) == raw
            <==> ZeroKeyOn(key, |raw|, start, p) && ZeroKeyOn(key, |raw|, p, start)
  {
    hide Strip, Interrupted, StartOf;
    RestoredIff(name, raw, key, p, repair);
  }

  lemma ZeroKeyWithin(key: Key, length: nat, lo: int, hi: int, lo': int, hi': int)
    requires lo <= lo' && hi' <= hi
    ensures ZeroKeyOn(key, length, lo, hi) ==> ZeroKeyOn(key, length, lo', hi')
  {
  }

  lemma ZeroKeyClipped(key: Key, length: nat, lo: int, hi: int)
    ensures ZeroKeyOn(key, length, lo, Min(length, hi)) <==> ZeroKeyOn(key, length, lo, hi)
  {
  }

  // Files that are raw already

  /** A repair run leaves a raw blk file alone iff the key is zero from the first chunk without the mainnet magic on, if
      there is one. With a key that does not start with zero it leaves exactly the files with the magic in every chunk
      alone. */
  lemma RawFileSurvivesIff(name: string, s: Bits, key: Key)
    requires IsBlk(name) && Detect(s, key) == Raw
    ensures Strip(name, s, key, true) == s
            <==> (Boundary(s, 0).Some? ==> ZeroKeyOn(key, |s|, Boundary(s, 0).value, |s|))
    ensures key[0] != 0 ==> (Strip(name, s, key, true) == s <==> AllMagic(s))
  {
    hide HasRawMagic, ChunkAt, Detect, Boundary, XorRange, ZeroKeyOn, AllMagic;
    NoBoundaryIff(s);
    if Boundary(s, 0).Some? {
      BoundaryAligned(s, 0);
      UnchangedIff(s, key, Boundary(s, 0).value);
      KeyNotZeroFrom(key, |s|, Boundary(s, 0).value);
    }
  }

  lemma KeyNotZeroFrom(key: Key, length: nat, lo: nat)
    requires lo < length && lo % CHUNK == 0
    ensures key[0] != 0 ==> !ZeroKeyOn(key, length, lo, length)
  {
    assert lo % 8 == 0;
  }

  lemma UnchangedIff(s: Bits, key: Key, lo: nat)
    ensures XorRange(s, key, lo, |s|) == s <==> ZeroKeyOn(key, |s|, lo, |s|)
  {
    var r := XorRange(s, key, lo, |s|);
    forall i | 0 <= i < |s|
      ensures r[i] == s[i] <==> lo > i || key[i % 8] == 0
    {
      XorCases(s[i], key[i % 8]);
    }
  }

  /** A raw mainnet file one byte longer than a chunk is damaged by a repair run: no magic fits into its last chunk. */
  lemma RepairDamagesShortTail(name: string, s: Bits, key: Key)
    requires IsBlk(name) && |s| == CHUNK + 1 && s[..4] == RAW_MAGIC && key[0] != 0
    ensures Detect(s, key) == Raw && Strip(name, s, key, true) != s
  {
    RawFileSurvivesIff(name, s, key);
    assert |ChunkAt(s, CHUNK)| == 1;
    assert !HasRawMagic(ChunkAt(s, CHUNK));
  }

  /** A raw mainnet file that shows the magic at its start only survives iff it has at most eight mebibytes. */
  lemma OneMagicSurvivesIff(name: string, s: Bits, key: Key)
    requires IsBlk(name) && key[0] != 0 && ShowsMagic(s, 0)
    requires forall j :: j > 0 ==> !ShowsMagic(s, j)
    ensures Strip(name, s, key, true) == s <==> |s| <= 8_388_608
  {
    hide Strip, HasRawMagic, ChunkAt, Boundary, ShowsMagic;
    assert s[..4] == RAW_MAGIC by {
      MagicStart(s);
    }
    RawFileSurvivesIff(name, s, key);
    if |s| > CHUNK {
      HasRawMagicIff(s, CHUNK);
      assert !HasRawMagic(ChunkAt(s, CHUNK)) && CHUNK % CHUNK == 0;
      assert !AllMagic(s);
    } else {
      HasRawMagicIff(s, 0);
      assert HasRawMagic(ChunkAt(s, 0)) by {
        assert ShowsMagic(s, 0) && 0 + 4 <= 0 + CHUNK;
      }
      assert AllMagic(s);
    }
  }

  lemma MagicStart(s: Bits)
    requires ShowsMagic(s, 0)
    ensures |s| >= 4 && s[..4] == RAW_MAGIC
  {
  }

  /** A raw testnet3 file is damaged: the search knows the magic of mainnet only. */
  lemma RepairDamagesTestnet(name: string, key: Key)
    requires IsBlk(name) && key[0] != 0
    ensures var s: Bits := [0x0b, 0x11, 0x09, 0x07] + seq(96, _ => 0);
            Detect(s, key) == Raw && Strip(name, s, key, true) != s
  {
    var s: Bits := [0x0b, 0x11, 0x09, 0x07] + seq(96, _ => 0);
    assert s[..4] == [0x0b, 0x11, 0x09, 0x07];
    RawFileSurvivesIff(name, s, key);
    assert ChunkAt(s, 0) == s;
    forall i | 0 <= i < |s|
      ensures !MagicAt(s, i)
    {
      assert s[i] != 0xf9;
      assert i + 4 <= |s| ==> s[i..i + 4][0] == s[i];
    }
  }

  // Whole directories

  predicate IsBlockFile(name: string) {
    |name| >= 4 && (name[..3] == "blk" || name[..3] == "rev") && name[|name| - 4..] == ".dat"
  }

  function Zeroed(s: Bits): Bits { seq(|s|, _ => 0) }

  /** Where stripping a file stops before its end, counted from where it started, and whether the tool hears of it: a
      failing write is reported, a failing read looks like the end of the file. */
  datatype Stop = Stop(done: nat, reported: bool)

  /** What becomes of xor.dat when a run comes to it: zeroing succeeds, or it cannot be read, which passes for a missing
      file, or it cannot be opened for writing, or it was cut off and only so many zero bytes were written behind. */
  datatype KeyFile = Sound | Unreadable | Locked | Truncated(written: nat)

  /** Files that cannot be looked at, files whose boundary cannot be searched for, stops, and xor.dat. */
  datatype Faults = Faults(unreadable: set<string>, unsearchable: set<string>, stops: map<string, Stop>,
                           keyFile: KeyFile)

  const NO_FAULTS := Faults({}, {}, map[], Sound)

  function BlockFiles(files: map<string, Bits>): set<string> { set n | n in files && IsBlockFile(n) }

  /** The files to convert. */
  predicate Converts(files: map<string, Bits>, key: Key, faults: Faults, n: string) {
    n in BlockFiles(files) && n !in faults.unreadable && Detect(files[n], key) == Obfuscated
  }

  /** The files to repair. */
  predicate Repairs(files: map<string, Bits>, key: Key, repair: bool, faults: Faults, n: string) {
    && n in BlockFiles(files) && n !in faults.unreadable && n !in faults.unsearchable
    && Detect(files[n], key) == Raw && JobFor(n, files[n], key, repair).Some?
  }

  function Stripped(faults: Faults, n: string, s: Bits, key: Key, start: nat): Bits {
    XorRange(s, key, start, if n in faults.stops then start + faults.stops[n].done else |s|)
  }

  predicate Reported(faults: Faults, n: string) { n in faults.stops && faults.stops[n].reported }

  function AfterConverting(files: map<string, Bits>, key: Key, faults: Faults): map<string, Bits> {
    map n | n in files :: if Converts(files, key, faults, n) then Stripped(faults, n, files[n], key, 0) else files[n]
  }

  function AfterRepairing(files: map<string, Bits>, key: Key, repair: bool, faults: Faults): map<string, Bits> {
    map n | n in files ::
      if Converts(files, key, faults, n) then Stripped(faults, n, files[n], key, 0)
      else if Repairs(files, key, repair, faults, n)
      then Stripped(faults, n, files[n], key, JobFor(n, files[n], key, repair).value)
      else files[n]
  }

  predicate ConvertFails(files: map<string, Bits>, key: Key, faults: Faults) {
    exists n :: n in files && Converts(files, key, faults, n) && Reported(faults, n)
  }

  predicate RepairFails(files: map<string, Bits>, key: Key, repair: bool, faults: Faults) {
    exists n :: n in files && Repairs(files, key, repair, faults, n) && Reported(faults, n)
  }

  predicate AllZero(s: Bits) { forall i :: 0 <= i < |s| ==> s[i] == 0 }

  /** What a run makes of a directory, and whether it succeeds. The first failure ends it; without any block file it
      stops before touching xor.dat. */
  function RunDir(files: map<string, Bits>, key: Key, repair: bool, faults: Faults): (map<string, Bits>, bool) {
    if BlockFiles(files) == {} then (files, true)
    else if ConvertFails(files, key, faults) then (AfterConverting(files, key, faults), false)
    else
      var files' := AfterRepairing(files, key, repair, faults);
      if RepairFails(files, key, repair, faults) then (files', false)
      else ZeroKey(files', faults.keyFile)
  }

  /** zeroXorDat: the directory, and whether a failure is reported. */
  function ZeroKey(files: map<string, Bits>, keyFile: KeyFile): (map<string, Bits>, bool) {
    if "xor.dat" !in files || keyFile.Unreadable? || AllZero(files["xor.dat"]) then (files, true)
    else
      var zeros := Zeroed(files["xor.dat"]);
      match keyFile
      case Locked => (files, false)
      case Truncated(written) => (files["xor.dat" := zeros[..Min(written, |zeros|)]], false)
      case _ => (files["xor.dat" := zeros], true)
  }

  /** Whether one file is on the right job list, once it has been looked at. */
  predicate JobOk(convert: set<string>, jobs: map<string, nat>, files: map<string, Bits>, seen: set<string>,
                  key: Key, repair: bool, faults: Faults, n: string) {
    && (n in convert <==> n in seen && Converts(files, key, faults, n))
    && (n in jobs <==> n in seen && Repairs(files, key, repair, faults, n))
    && (n in jobs ==> jobs[n] == JobFor(n, files[n], key, repair).value)
  }

  ghost predicate JobsFor(convert: set<string>, jobs: map<string, nat>, files: map<string, Bits>, seen: set<string>,
                          key: Key, repair: bool, faults: Faults) {
    forall n :: JobOk(convert, jobs, files, seen, key, repair, faults, n)
  }

  /** Looking at one more file. */
  lemma OneMoreJob(convert: set<string>, jobs: map<string, nat>, convert': set<string>, jobs': map<string, nat>,
                   files: map<string, Bits>, seen: set<string>, key: Key, repair: bool, faults: Faults, n: string)
    requires JobsFor(convert, jobs, files, seen, key, repair, faults) && n !in seen
    requires JobOk(convert', jobs', files, seen + {n}, key, repair, faults, n)
    requires forall k :: k != n ==>
               (k in convert' <==> k in convert) && (k in jobs' <==> k in jobs) && (k in jobs ==> jobs'[k] == jobs[k])
    ensures JobsFor(convert', jobs', files, seen + {n}, key, repair, faults)
  {
    hide Converts, Repairs, JobFor;
    forall k
      ensures JobOk(convert', jobs', files, seen + {n}, key, repair, faults, k)
    {
      assert JobOk(convert, jobs, files, seen, key, repair, faults, k);
    }
  }

  lemma NoJobsYet(files: map<string, Bits>, key: Key, repair: bool, faults: Faults)
    ensures JobsFor({}, map[], files, BlockFiles(files) - BlockFiles(files), key, repair, faults)
  {
    hide Converts, Repairs, JobFor;
  }

  lemma JobAt(convert: set<string>, jobs: map<string, nat>, files: map<string, Bits>, seen: set<string>,
              key: Key, repair: bool, faults: Faults, n: string)
    requires JobsFor(convert, jobs, files, seen, key, repair, faults)
    ensures JobOk(convert, jobs, files, seen, key, repair, faults, n)
  {
    hide JobOk;
  }

  /** The two job lists, carried out one after the other, do what a run does. */
  lemma ConvertedAll(convert: set<string>, jobs: map<string, nat>, files: map<string, Bits>, files': map<string, Bits>,
                     key: Key, repair: bool, faults: Faults)
    requires JobsFor(convert, jobs, files, BlockFiles(files), key, repair, faults) && files'.Keys == files.Keys
    requires StrippedFrom(files, files', map n | n in convert :: 0, (map n | n in convert :: 0).Keys, key, faults)
    ensures files' == AfterConverting(files, key, faults)
    ensures (exists n :: n in convert && Reported(faults, n)) <==> ConvertFails(files, key, faults)
  {
    hide JobFor, Stripped, Reported, Detect, IsBlockFile;
    forall n
      ensures n in convert <==> n in files && Converts(files, key, faults, n)
    {
      assert JobOk(convert, jobs, files, BlockFiles(files), key, repair, faults, n);
    }
    hide Converts;
  }

  lemma RepairedAll(convert: set<string>, jobs: map<string, nat>, files: map<string, Bits>, files': map<string, Bits>,
                    files'': map<string, Bits>, key: Key, repair: bool, faults: Faults)
    requires JobsFor(convert, jobs, files, BlockFiles(files), key, repair, faults)
    requires files' == AfterConverting(files, key, faults) && files''.Keys == files'.Keys
    requires StrippedFrom(files', files'', jobs, jobs.Keys, key, faults)
    ensures files'' == AfterRepairing(files, key, repair, faults)
    ensures (exists n :: n in jobs && Reported(faults, n)) <==> RepairFails(files, key, repair, faults)
  {
    hide JobFor, Stripped, Reported, Detect, IsBlockFile;
    forall n
      ensures n in jobs <==> n in files && Repairs(files, key, repair, faults, n)
      ensures n in jobs ==> jobs[n] == JobFor(n, files[n], key, repair).value && !Converts(files, key, faults, n)
    {
      assert JobOk(convert, jobs, files, BlockFiles(files), key, repair, faults, n);
    }
    hide Converts, Repairs;
  }

  /** The files that are left to repair are as they were, and start within themselves. */
  lemma JobsFit(convert: set<string>, jobs: map<string, nat>, files: map<string, Bits>, key: Key, repair: bool,
        faults: Faults)
    requires JobsFor(convert, jobs, files, BlockFiles(files), key, repair, faults)
    ensures convert <= files.Keys && jobs.Keys <= files.Keys
    ensures forall n :: n in jobs ==> jobs[n] <= |AfterConverting(files, key, faults)[n]|
  {
    hide Detect, IsBlockFile;
    forall n
      ensures n in convert ==> n in files
      ensures n in jobs ==> n in files && jobs[n] <= |files[n]|
    {
      assert JobOk(convert, jobs, files, BlockFiles(files), key, repair, faults, n);
    }
    hide Converts, Repairs, JobFor;
  }

  /** What stripping the listed files from their offsets makes of a directory. */
  predicate StrippedFrom(before: map<string, Bits>, after: map<string, Bits>, jobs: map<string, nat>, done: set<string>,
                         key: Key, faults: Faults)
    requires after.Keys == before.Keys
  {
    forall n :: n in before ==>
      after[n] == if n in jobs && n in done then Stripped(faults, n, before[n], key, jobs[n]) else before[n]
  }

  class BlocksDir {
    var files: map<string, Bits>

    constructor (files: map<string, Bits>)
      ensures this.files == files
    {
      this.files := files;
    }

    /** The job lists: files to convert whole, and files to strip from an offset on. */
    method Classify(key: Key, repair: bool, faults: Faults) returns (convert: set<string>, jobs: map<string, nat>)
      ensures JobsFor(convert, jobs, files, BlockFiles(files), key, repair, faults)
    {
      hide Boundary, Detect, IsBlockFile, JobsFor;
      var blockFiles := BlockFiles(files);
      var todo := blockFiles;
      convert, jobs := {}, map[];
      NoJobsYet(files, key, repair, faults);
      while todo != {}
        invariant todo <= blockFiles && JobsFor(convert, jobs, files, blockFiles - todo, key, repair, faults)
        decreases |todo|
      {
        var n :| n in todo;
        ghost var convert0, jobs0, seen := convert, jobs, blockFiles - todo;
        todo := todo - {n};
        assert JobOk(convert, jobs, files, seen, key, repair, faults, n) by {
          JobAt(convert, jobs, files, seen, key, repair, faults, n);
        }
        if n !in faults.unreadable {
          match Detect(files[n], key) {
            case Raw =>
              if repair && IsBlk(n) && n !in faults.unsearchable {
                var b := FindConversionBoundary(files[n]);
                if b.Some? {
                  jobs := jobs[n := b.value];
                }
              }
            case Obfuscated =>
              convert := convert + {n};
            case Unknown =>
          }
        }
        OneMoreJob(convert0, jobs0, convert, jobs, files, seen, key, repair, faults, n);
        assert seen + {n} == blockFiles - todo;
      }
      assert blockFiles - todo == blockFiles;
    }

    /** Strips every listed file from its offset, in whatever order the workers take them. */
    method StripAll(key: Key, jobs: map<string, nat>, faults: Faults) returns (failed: bool)
      requires jobs.Keys <= files.Keys && forall n :: n in jobs ==> jobs[n] <= |files[n]|
      modifies this
      ensures files.Keys == old(files.Keys) && StrippedFrom(old(files), files, jobs, jobs.Keys, key, faults)
      ensures failed <==> exists n :: n in jobs && Reported(faults, n)
    {
      hide XorRange, Stripped, Reported;
      var todo := jobs.Keys;
      failed := false;
      while todo != {}
        invariant todo <= jobs.Keys && files.Keys == old(files.Keys)
        invariant StrippedFrom(old(files), files, jobs, jobs.Keys - todo, key, faults)
        invariant failed <==> exists n :: n in jobs && n !in todo && Reported(faults, n)
        decreases |todo|
      {
        var n :| n in todo;
        ghost var left := todo;
        todo := todo - {n};
        var contents, fails := StripCopy(n, files[n], key, jobs[n], faults);
        files := files[n := contents];
        failed := failed || fails;
        assert forall k :: k in jobs && k !in todo <==> k == n || (k in jobs && k !in left);
      }
    }

    method StripCopy(n: string, s: Bits, key: Key, start: nat, faults: Faults) returns (r: Bits, failed: bool)
      requires start <= |s|
      ensures r == Stripped(faults, n, s, key, start) && failed == Reported(faults, n)
    {
      var f := new bv8[|s|](i requires 0 <= i < |s| => s[i]);
      assert f[..] == s;
      var end := if n in faults.stops then Min(start + faults.stops[n].done, |s|) else |s|;
      var finished := XorFileFromOffset(f, key, start, end, |s| + 1);
      r := f[..];
      failed := n in faults.stops && faults.stops[n].reported;
      if n in faults.stops && start + faults.stops[n].done >= |s| {
        XorClipped(s, key, start, start + faults.stops[n].done);
      }
    }

    method Run(key: Key, repair: bool, faults: Faults) returns (ok: bool)
      modifies this
      ensures (files, ok) == RunDir(old(files), key, repair, faults)
    {
      hide JobFor, XorRange, IsBlockFile, Stripped, Reported, JobsFor, StrippedFrom, Converts, Repairs;
      hide AfterConverting, AfterRepairing, ConvertFails, RepairFails;
      if BlockFiles(files) == {} {
        return true;
      }
      var convert, jobs := Classify(key, repair, faults);
      JobsFit(convert, jobs, files, key, repair, faults);
      var failed := StripAll(key, map n | n in convert :: 0, faults);
      ConvertedAll(convert, jobs, old(files), files, key, repair, faults);
      if failed {
        return false;
      }
      ghost var converted := files;
      failed := StripAll(key, jobs, faults);
      RepairedAll(convert, jobs, old(files), converted, files, key, repair, faults);
      if failed {
        return false;
      }
      ok := ZeroXorDat(faults.keyFile);
    }

    method ZeroXorDat(keyFile: KeyFile) returns (ok: bool)
      modifies this
      ensures (files, ok) == ZeroKey(old(files), keyFile)
    {
      if "xor.dat" !in files || keyFile.Unreadable? {
        return true;
      }
      var data := files["xor.dat"];
      if AllZero(data) {
        return true;
      }
      if keyFile.Locked? {
        return false;
      }
      var zeros := Zeroed(data);
      if keyFile.Truncated? {
        files := files["xor.dat" := zeros[..Min(keyFile.written, |zeros|)]];
        return false;
      }
      files := files["xor.dat" := zeros];
      return true;
    }
  }

  // What a run leaves

  lemma XorDatIsNoBlockFile()
    ensures !IsBlockFile("xor.dat")
  {
    assert "xor.dat"[..3][0] == 'x' && "blk"[0] == 'b' && "rev"[0] == 'r';
  }

  /** A run without --repair and without faults leaves a directory alone iff it holds no block file, or none that is
      obfuscated and no key. */
  lemma NothingToDoIff(files: map<string, Bits>, key: Key)
    ensures RunDir(files, key, false, NO_FAULTS).0 == files
            <==> || BlockFiles(files) == {}
                 || (&& (forall n :: n in BlockFiles(files) ==> Detect(files[n], key) != Obfuscated)
                     && ("xor.dat" in files ==> AllZero(files["xor.dat"])))
  {
    hide IsBlockFile, XorRange, Detect;
    XorDatIsNoBlockFile();
    forall n | n in BlockFiles(files) && Detect(files[n], key) == Obfuscated
      ensures XorRange(files[n], key, 0, |files[n]|) != files[n]
    {
      ConversionChanges(files[n], key);
    }
    if n :| n in BlockFiles(files) && Detect(files[n], key) == Obfuscated {
      assert RunDir(files, key, false, NO_FAULTS).0[n] == XorRange(files[n], key, 0, |files[n]|);
    }
  }

  lemma FourBytes(r: Bits, a: bv8, b: bv8, c: bv8, d: bv8)
    requires |r| >= 4 && r[0] == a && r[1] == b && r[2] == c && r[3] == d
    ensures r[..4] == [a, b, c, d]
  {
  }

  lemma ByteAt(s: Bits, key: Key, end: nat, i: nat, x: bv8)
    requires i < 4 <= |s| && end >= 4 && x == s[i] ^ key[i]
    ensures XorRange(s, key, 0, end)[i] == x
  {
    XorAt(s, key, 0, end, i);
    assert i % 8 == i;
  }

  lemma FirstFour(s: Bits, key: Key, end: nat)
    requires |s| >= 4 && end >= 4
    ensures XorRange(s, key, 0, end)[..4] == [s[0] ^ key[0], s[1] ^ key[1], s[2] ^ key[2], s[3] ^ key[3]]
  {
    hide XorRange;
    var a, b, c, d := s[0] ^ key[0], s[1] ^ key[1], s[2] ^ key[2], s[3] ^ key[3];
    ByteAt(s, key, end, 0, a);
    ByteAt(s, key, end, 1, b);
    ByteAt(s, key, end, 2, c);
    ByteAt(s, key, end, 3, d);
    FourBytes(XorRange(s, key, 0, end), a, b, c, d);
  }

  lemma ConversionChanges(s: Bits, key: Key)
    requires Detect(s, key) == Obfuscated
    ensures |s| >= 4 && XorRange(s, key, 0, |s|) != s
  {
    hide IsNetworkMagic, XorRange;
    FirstFour(s, key, |s|);
  }

  /** At least the magic of every obfuscated file was reached. */
  predicate MagicsReached(files: map<string, Bits>, key: Key, faults: Faults) {
    forall n :: n in BlockFiles(files) && Detect(files[n], key) == Obfuscated ==>
      n !in faults.unreadable && (n in faults.stops ==> faults.stops[n].done >= 4)
  }

  /** A conversion that got past the magic leaves a file that the next run takes for raw. */
  lemma ConvertedIsRaw(s: Bits, key: Key, end: nat)
    requires Detect(s, key) == Obfuscated && end >= 4
    ensures Detect(XorRange(s, key, 0, end), key) == Raw
  {
    hide IsNetworkMagic, XorRange;
    FirstFour(s, key, end);
  }

  /** Whether a run comes to xor.dat. */
  predicate ReachesKey(files: map<string, Bits>, key: Key, repair: bool, faults: Faults) {
    BlockFiles(files) != {} && !ConvertFails(files, key, faults) && !RepairFails(files, key, repair, faults)
  }

  /** A run without --repair can be repeated with the same key: after one that succeeded and got past every magic,
      another one changes nothing, in any directory, iff the first could read the key it came to or there was none. */
  lemma RunTwiceIff(files: map<string, Bits>, key: Key, faults: Faults)
    requires RunDir(files, key, false, faults).1 && MagicsReached(files, key, faults)
    ensures var once := RunDir(files, key, false, faults).0;
            RunDir(once, key, false, NO_FAULTS).0 == once
            <==> || BlockFiles(files) == {} || "xor.dat" !in files || AllZero(files["xor.dat"])
                 || !faults.keyFile.Unreadable?
  {
    hide IsBlockFile, XorRange, Detect;
    XorDatIsNoBlockFile();
    var once := RunDir(files, key, false, faults).0;
    assert BlockFiles(once) == BlockFiles(files);
    forall n | n in BlockFiles(once)
      ensures Detect(once[n], key) != Obfuscated
    {
      if Detect(files[n], key) == Obfuscated {
        ConversionChanges(files[n], key);
        ConvertedIsRaw(files[n], key, if n in faults.stops then faults.stops[n].done else |files[n]|);
      }
    }
    NothingToDoIff(once, key);
  }

  /** Running again after an interruption: a file that was killed behind its magic is left as it is, and once the run
      comes to it the key is gone. The file is raw iff nothing that matters was left to strip. */
  lemma RerunLosesKey(files: map<string, Bits>, key: Key, faults: Faults, n: string, raw: Bits, p: nat)
    requires n in BlockFiles(files) && files[n] == Interrupted(raw, key, p) && IsNetworkFile(raw) && p >= 4
    ensures var (files', ok) := RunDir(files, key, false, faults);
            && files'[n] == files[n]
            && (files'[n] == raw <==> Complete(raw, key, p))
            && (ok && "xor.dat" in files && !faults.keyFile.Unreadable? ==> AllZero(files'["xor.dat"]))
  {
    hide IsBlockFile, XorRange, Detect, IsNetworkFile, Interrupted, Complete;
    XorDatIsNoBlockFile();
    DetectInterrupted(raw, key, p);
    InterruptedIsRawIff(raw, key, p);
  }

  lemma InterruptedIsRawIff(raw: Bits, key: Key, p: nat)
    ensures Interrupted(raw, key, p) == raw <==> Complete(raw, key, p)
  {
    InterruptedLength(raw, key, p);
    forall i | 0 <= i < |raw|
      ensures Interrupted(raw, key, p)[i] == raw[i] <==> p > i || key[i % 8] == 0
    {
      InterruptedAt(raw, key, p, i);
      XorCases(raw[i], key[i % 8]);
    }
  }

  /** Nothing that matters is left behind where a strip stopped. */
  predicate Complete(s: Bits, key: Key, done: nat) { ZeroKeyOn(key, |s|, done, |s|) }

  /** A run that reports no failure has given up the key, unless it could not read it. The obfuscated files are all raw
      by then iff each could be looked at and was read to its end: a read error counts as the end of the file. */
  lemma KeyGivenUpIff(files: map<string, Bits>, key: Key, repair: bool, faults: Faults)
    requires BlockFiles(files) != {} && RunDir(files, key, repair, faults).1
    ensures var files' := RunDir(files, key, repair, faults).0;
            && ("xor.dat" in files ==>
                  (AllZero(files'["xor.dat"]) <==> AllZero(files["xor.dat"]) || !faults.keyFile.Unreadable?))
            && ((forall n :: n in BlockFiles(files) && Detect(files[n], key) == Obfuscated ==>
                files'[n] == Obfuscate(files[n], key))
                <==> forall n :: n in BlockFiles(files) && Detect(files[n], key) == Obfuscated ==>
                       n !in faults.unreadable && (n in faults.stops ==> Complete(files[n], key, faults.stops[n].done)))
  {
    hide IsBlockFile, XorRange, Detect, Complete;
    XorDatIsNoBlockFile();
    var files' := RunDir(files, key, repair, faults).0;
    forall n | n in BlockFiles(files) && Detect(files[n], key) == Obfuscated
      ensures files'[n] == Obfuscate(files[n], key)
              <==> n !in faults.unreadable && (n in faults.stops ==> Complete(files[n], key, faults.stops[n].done))
    {
      ConversionChanges(files[n], key);
      if n in faults.stops {
        CompleteIff(files[n], key, faults.stops[n].done);
      }
    }
  }

  lemma CompleteIff(s: Bits, key: Key, done: nat)
    ensures XorRange(s, key, 0, done) == XorRange(s, key, 0, |s|) <==> Complete(s, key, done)
  {
    var a, b := XorRange(s, key, 0, done), XorRange(s, key, 0, |s|);
    forall i | 0 <= i < |s|
      ensures a[i] == b[i] <==> done > i || key[i % 8] == 0
    {
      XorCases(s[i], key[i % 8]);
    }
  }

  /** The key is kept iff the run does not come to it, or cannot read it or open it for writing, or it was zero already.
      It is zeroed iff it was zero already or the run comes to it and writes all of it. */
  lemma KeyKeptIff(files: map<string, Bits>, key: Key, repair: bool, faults: Faults)
    requires "xor.dat" in files
    ensures var before, after := files["xor.dat"], RunDir(files, key, repair, faults).0["xor.dat"];
            var reached := ReachesKey(files, key, repair, faults);
            && (after == before
                <==> AllZero(before) || !reached || faults.keyFile.Unreadable? || faults.keyFile.Locked?)
            && (after == Zeroed(before)
                <==> || AllZero(before)
                     || (reached && faults.keyFile.Sound?)
                     || (reached && faults.keyFile.Truncated? && faults.keyFile.written >= |before|))
  {
    hide IsBlockFile, XorRange, Detect, Boundary;
    XorDatIsNoBlockFile();
  }

  /** So a reported failure keeps the key unless it is the key file itself that was cut off. */
  lemma FailureKeepsKeyIff(files: map<string, Bits>, key: Key, repair: bool, faults: Faults)
    requires "xor.dat" in files && !RunDir(files, key, repair, faults).1
    ensures RunDir(files, key, repair, faults).0["xor.dat"] == files["xor.dat"]
            <==> !(ReachesKey(files, key, repair, faults) && faults.keyFile.Truncated?)
  {
    hide IsBlockFile, XorRange, Detect, Boundary;
    XorDatIsNoBlockFile();
  }

  // By name

  /** The names of block and undo files: blk or rev, anything, .dat. */
  ghost predicate NamesBlockFile(n: string) {
    exists mid: string :: n == "blk" + mid + ".dat" || n == "rev" + mid + ".dat"
  }

  lemma NamesBlockFileIff(n: string)
    ensures IsBlockFile(n) <==> NamesBlockFile(n)
  {
    if IsBlockFile(n) {
      assert n[0] != '.' && n[1] != '.' && n[2] != '.';
      assert n[|n| - 4] == '.' by {
        assert n[|n| - 4..][0] == ".dat"[0];
      }
      var mid := n[3..|n| - 4];
      assert n == n[..3] + mid + n[|n| - 4..];
      assert n == "blk" + mid + ".dat" || n == "rev" + mid + ".dat";
    }
    if mid: string :| n == "blk" + mid + ".dat" || n == "rev" + mid + ".dat" {
      assert n[..3] == "blk" || n[..3] == "rev";
      assert n[|n| - 4..] == ".dat";
    }
  }

  /** When nothing fails, a run makes of every block or undo file, whatever stands between blk or rev and .dat, what
      stripping makes of it, and leaves every other file alone but the key. */
  lemma RunStripsByName(files: map<string, Bits>, key: Key, repair: bool, n: string)
    requires n in files && n != "xor.dat"
    ensures n in RunDir(files, key, repair, NO_FAULTS).0
    ensures RunDir(files, key, repair, NO_FAULTS).0[n]
            == if NamesBlockFile(n) then Strip(n, files[n], key, repair) else files[n]
  {
    hide IsBlockFile, XorRange, Detect, Boundary, NamesBlockFile;
    NamesBlockFileIff(n);
    XorDatIsNoBlockFile();
    if NamesBlockFile(n) {
      assert AfterRepairing(files, key, repair, NO_FAULTS)[n] == Strip(n, files[n], key, repair);
      assert BlockFiles(files) != {};
    } else {
      assert AfterRepairing(files, key, repair, NO_FAULTS)[n] == files[n];
    }
    assert !ConvertFails(files, key, NO_FAULTS) && !RepairFails(files, key, repair, NO_FAULTS);
  }

  /** Where a run with faults starts stripping a file: nowhere in a file that it cannot look at, at 0 in an obfuscated
      one, at the boundary in a raw blk file that it repairs and can search, and nowhere in any other. */
  ghost function StartIn(n: string, s: Bits, key: Key, repair: bool, faults: Faults): Option<nat> {
    if n in faults.unreadable then None
    else if Detect(s, key) == Obfuscated then Some(0)
    else if Detect(s, key) == Raw && repair && "blk" <= n && n !in faults.unsearchable then Boundary(s, 0)
    else None
  }

  /** A failure that the tool hears of in one file. */
  ghost predicate FailsIn(files: map<string, Bits>, key: Key, repair: bool, faults: Faults, n: string) {
    && n in files && NamesBlockFile(n) && StartIn(n, files[n], key, repair, faults).Some?
    && n in faults.stops && faults.stops[n].reported
  }

  /** A run succeeds iff there are no block files, or no file fails and xor.dat is not there, zero already, unreadable
      or zeroed. It comes to xor.dat iff there are block files and none fails. */
  lemma RunSucceedsIff(files: map<string, Bits>, key: Key, repair: bool, faults: Faults)
    ensures RunDir(files, key, repair, faults).1
            <==> (forall n :: n in files ==> !NamesBlockFile(n))
                 || ((forall n :: n in files ==> !FailsIn(files, key, repair, faults, n))
                     && ("xor.dat" in files ==>
                           AllZero(files["xor.dat"]) || faults.keyFile.Sound? || faults.keyFile.Unreadable?))
    ensures ReachesKey(files, key, repair, faults)
            <==> (exists n :: n in files && NamesBlockFile(n))
                 && (forall n :: n in files ==> !FailsIn(files, key, repair, faults, n))
  {
    hide IsBlockFile, XorRange, Detect, Boundary, NamesBlockFile, FailsIn, Converts, Repairs, AllZero;
    forall n | n in files
      ensures n in BlockFiles(files) <==> NamesBlockFile(n)
      ensures FailsIn(files, key, repair, faults, n) <==>
        (Converts(files, key, faults, n) || Repairs(files, key, repair, faults, n)) && Reported(faults, n)
      ensures n == "xor.dat" ==> !Converts(files, key, faults, n) && !Repairs(files, key, repair, faults, n)
    {
      JobsByName(files, key, repair, faults, n);
    }
  }

  lemma JobsByName(files: map<string, Bits>, key: Key, repair: bool, faults: Faults, n: string)
    requires n in files
    ensures n in BlockFiles(files) <==> NamesBlockFile(n)
    ensures n == "xor.dat" ==> !NamesBlockFile(n)
    ensures var start := StartIn(n, files[n], key, repair, faults);
            && (Converts(files, key, faults, n)
                <==> NamesBlockFile(n) && start.Some? && Detect(files[n], key) == Obfuscated)
            && (Repairs(files, key, repair, faults, n)
                <==> NamesBlockFile(n) && start.Some? && Detect(files[n], key) == Raw)
    ensures FailsIn(files, key, repair, faults, n) <==>
      (Converts(files, key, faults, n) || Repairs(files, key, repair, faults, n)) && Reported(faults, n)
  {
    hide IsBlockFile, Detect, Boundary, NamesBlockFile;
    NamesBlockFileIff(n);
    XorDatIsNoBlockFile();
  }

  /** What a run makes of one block file, whatever fails: it is stripped from where it starts to where it stops, but
      nothing is repaired once a conversion has failed. */
  lemma RunLeaves(files: map<string, Bits>, key: Key, repair: bool, faults: Faults, n: string)
    requires n in files && NamesBlockFile(n)
    ensures n in RunDir(files, key, repair, faults).0
    ensures var s, start := files[n], StartIn(n, files[n], key, repair, faults);
            var given := exists k :: k in files && Detect(files[k], key) == Obfuscated
                                     && FailsIn(files, key, repair, faults, k);
            RunDir(files, key, repair, faults).0[n]
            == if start.None? || (given && Detect(s, key) != Obfuscated) then s
               else XorRange(s, key, start.value, if n in faults.stops then start.value + faults.stops[n].done else |s|)
  {
    hide IsBlockFile, XorRange, Detect, Boundary, NamesBlockFile, FailsIn, Converts, Repairs, RepairFails;
    forall k | k in files
      ensures FailsIn(files, key, repair, faults, k) && Detect(files[k], key) == Obfuscated
              <==> Converts(files, key, faults, k) && Reported(faults, k)
    {
      JobsByName(files, key, repair, faults, k);
    }
    JobsByName(files, key, repair, faults, n);
  }

  /** So a faultless run without --repair leaves no obfuscated block file and no obfuscated undo file. */
  lemma AllConverted(files: map<string, Bits>, key: Key, mid: string)
    ensures var files' := RunDir(files, key, false, NO_FAULTS).0;
            forall n :: n in files && n in {"blk" + mid + ".dat", "rev" + mid + ".dat"} ==>
              && n in files'
              && (Detect(files[n], key) == Obfuscated ==> files'[n] == Obfuscate(files[n], key))
              && (Detect(files[n], key) != Obfuscated ==> files'[n] == files[n])
  {
    hide RunDir, XorRange, Detect, Boundary;
    assert "xor.dat"[0] == 'x';
    forall n | n in files && n in {"blk" + mid + ".dat", "rev" + mid + ".dat"}
      ensures n != "xor.dat" && NamesBlockFile(n)
    {
      assert n[0] != 'x';
    }
    forall n | n in files && n in {"blk" + mid + ".dat", "rev" + mid + ".dat"}
      ensures n in RunDir(files, key, false, NO_FAULTS).0
      ensures RunDir(files, key, false, NO_FAULTS).0[n] == Strip(n, files[n], key, false)
    {
      RunStripsByName(files, key, false, n);
    }
  }

  /** The repair is for block files only: undo files, and any other name, are stripped as if it was not asked for. */
  lemma OnlyBlkRepaired(n: string, s: Bits, key: Key)
    ensures !("blk" <= n) ==> Strip(n, s, key, true) == Strip(n, s, key, false)
    ensures Strip(n, s, key, false) == if Detect(s, key) == Obfuscated then Obfuscate(s, key) else s
  {
    hide Detect, Boundary, XorRange;
  }

  /** And whatever fails, no other file than these and the key is ever touched. */
  lemma OthersUntouched(files: map<string, Bits>, key: Key, repair: bool, faults: Faults, n: string)
    requires n in files && n != "xor.dat" && !NamesBlockFile(n)
    ensures n in RunDir(files, key, repair, faults).0 && RunDir(files, key, repair, faults).0[n] == files[n]
  {
    hide IsBlockFile, XorRange, Detect, Boundary, NamesBlockFile;
    NamesBlockFileIff(n);
  }
}

/** Walking a blk file into its blockmap. */
module BlockScan {
  import opened Bytes
  import opened Blockmap

  /** What the archive server reads: a blk file, the network it belongs to, and the hash to identify blocks with. */
  datatype BlkFile = BlkFile(data: Buf, magic: uint32, sha: Sha)

  /** Sizes a file can have. */
  predicate Storable(f: BlkFile) { |f.data| < TWO63 }

  function Preamble(f: BlkFile, off: nat, field: nat): nat
    requires off + 8 <= |f.data| && field <= 1
  {
    FromLittleEndian(f.data[off + 4 * field..off + 4 * field + 4])
  }

  /** `e` is a complete block of the file: magic, size and header hash all agree with the bytes. */
  predicate IsBlock(f: BlkFile, e: Entry) {
    && 0 <= e.offset && End(e) <= |f.data| && e.size >= 80
    && Preamble(f, e.offset, 0) == f.magic
    && Preamble(f, e.offset, 1) == e.size
    && e.hash == Sha256d(f.sha, f.data[e.offset + 8..e.offset + 88])
  }

  predicate AllBlocks(f: BlkFile, es: seq<Entry>) {
    forall i :: 0 <= i < |es| ==> IsBlock(f, es[i])
  }

  /** The map lists the blocks of the file and nothing else: they abut from its first byte to its last. */
  predicate Describes(f: BlkFile, es: seq<Entry>) {
    Storable(f) && TilesFrom(es, 0, |f.data|) && AllBlocks(f, es)
  }

  /** The block starting at `off`, if the scanner accepts one there. */
  function BlockAt(f: BlkFile, off: nat): Option<Entry>
    requires Storable(f) && off <= |f.data|
  {
    if off + 8 > |f.data| then None
    else if Preamble(f, off, 0) != f.magic then None
    else
      var size := Preamble(f, off, 1);
      SizeField(f, off);
      if off + 8 + size > |f.data| || size < 80 then None
      else Some(Entry(Sha256d(f.sha, f.data[off + 8..off + 88]), off, size))
  }

  lemma SizeField(f: BlkFile, off: nat)
    requires off + 8 <= |f.data|
    ensures Preamble(f, off, 1) < TWO32
  {
    FixedWidths();
    LittleEndianOnto(f.data[off + 4..off + 8]);
  }

  function ScanFrom(acc: seq<Entry>, f: BlkFile, off: nat): Option<seq<Entry>>
    requires Storable(f) && off <= |f.data|
    decreases |f.data| - off
  {
    if off == |f.data| then Some(acc)
    else
      var e := BlockAt(f, off);
      if e.None? then None else ScanFrom(acc + [e.value], f, End(e.value))
  }

  method ScanBlkFile(f: BlkFile) returns (r: Option<seq<Entry>>)
    requires Storable(f)
    ensures r == ScanFrom([], f, 0)
  {
    var fileSize := |f.data|;
    var entries: seq<Entry> := [];
    if fileSize == 0 {
      return Some(entries);
    }
    var offset := 0;
    while offset < fileSize
      invariant 0 <= offset <= fileSize
      invariant ScanFrom(entries, f, offset) == ScanFrom([], f, 0)
    {
      if offset + 8 > fileSize {
        return None;
      }
      var magic := FromLittleEndian(f.data[offset..offset + 4]);
      if magic != f.magic {
        return None;
      }
      var blockSize := FromLittleEndian(f.data[offset + 4..offset + 8]);
      if offset + 8 + blockSize > fileSize {
        return None;
      }
      if blockSize < 80 {
        return None;
      }
      SizeField(f, offset);
      var header := f.data[offset + 8..offset + 88];
      entries := entries + [Entry(Sha256d(f.sha, header), offset, blockSize)];
      offset := offset + 8 + blockSize;
    }
    return Some(entries);
  }

  lemma BlockAtIffBlock(f: BlkFile, off: nat, e: Entry)
    requires Storable(f) && off <= |f.data|
    ensures BlockAt(f, off) == Some(e) <==> IsBlock(f, e) && e.offset == off
    ensures IsBlock(f, e) ==> e.offset + 88 <= End(e) <= |f.data|
  {
    if off + 8 <= |f.data| {
      SizeField(f, off);
    }
  }

  lemma {:induction false} ScanSound(acc: seq<Entry>, f: BlkFile, off: nat) returns (es: seq<Entry>)
    requires Storable(f) && off <= |f.data| && ScanFrom(acc, f, off).Some?
    ensures ScanFrom(acc, f, off).value == acc + es
    ensures TilesFrom(es, off, |f.data|) && AllBlocks(f, es)
    decreases |f.data| - off
  {
    hide IsBlock, BlockAt;
    if off == |f.data| {
      es := [];
    } else {
      var e := BlockAt(f, off).value;
      BlockAtIffBlock(f, off, e);
      var tail := ScanSound(acc + [e], f, End(e));
      es := [e] + tail;
      assert acc + [e] + tail == acc + es;
      assert es[1..] == tail;
    }
  }

  lemma {:induction false} ScanComplete(acc: seq<Entry>, f: BlkFile, off: nat, es: seq<Entry>)
    requires Storable(f) && off <= |f.data|
    requires TilesFrom(es, off, |f.data|) && AllBlocks(f, es)
    ensures ScanFrom(acc, f, off) == Some(acc + es)
    decreases |es|
  {
    hide IsBlock, BlockAt;
    if es == [] {
      assert acc + es == acc;
    } else {
      assert IsBlock(f, es[0]);
      BlockAtIffBlock(f, off, es[0]);
      ScanComplete(acc + [es[0]], f, End(es[0]), es[1..]);
      assert acc + [es[0]] + es[1..] == acc + es;
    }
  }

  /** The scanner succeeds with a map exactly when that map describes the file; so it describes at most one. */
  lemma ScanIffDescribes(f: BlkFile, es: seq<Entry>)
    requires Storable(f)
    ensures ScanFrom([], f, 0) == Some(es) <==> Describes(f, es)
  {
    hide ScanFrom, AllBlocks;
    if ScanFrom([], f, 0) == Some(es) {
      var found := ScanSound([], f, 0);
      assert [] + found == found;
    }
    if Describes(f, es) {
      ScanComplete([], f, 0, es);
      assert [] + es == es;
    }
  }

  /** Each entry of a described file spans at least 88 bytes, so there are at most |data| / 88 of them. */
  lemma {:induction false} EntriesSpanAtLeast88(f: BlkFile, es: seq<Entry>, lo: int)
    requires TilesFrom(es, lo, |f.data|) && AllBlocks(f, es)
    ensures lo + 88 * |es| <= |f.data|
    decreases |es|
  {
    if es != [] {
      assert IsBlock(f, es[0]);
      EntriesSpanAtLeast88(f, es[1..], End(es[0]));
    }
  }
}

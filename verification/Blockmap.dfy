/** Blockmaps: the index of the blocks inside one blk file, and how it is searched and built. */
module Blockmap {
  import opened Bytes

  /** One block: the double SHA-256 of its header, where its 8-byte preamble starts, and its size behind that. */
  datatype Entry = Entry(hash: Digest, offset: int64, size: uint32)

  function End(e: Entry): int { e.offset + e.size + 8 }

  /** The end as the program computes it. */
  function End64(e: Entry): int { Sum64(End(e)) }

  predicate Covers(e: Entry, off: int) { e.offset <= off < End(e) }

  predicate Overlaps(e: Entry, off: int, len: int) { e.offset < off + len && End(e) > off }

  /** The entries abut exactly from `lo` up to `hi`. */
  predicate TilesFrom(es: seq<Entry>, lo: int, hi: int) {
    if es == [] then lo == hi else es[0].offset == lo && TilesFrom(es[1..], End(es[0]), hi)
  }

  ghost predicate SortedByOffset(es: seq<Entry>) {
    forall i, j :: 0 <= i < j < |es| ==> es[i].offset <= es[j].offset
  }

  ghost predicate SortedByEnd(es: seq<Entry>) {
    forall i, j :: 0 <= i < j < |es| ==> End64(es[i]) <= End64(es[j])
  }

  /** All ends are within int64. */
  predicate EndsFit(es: seq<Entry>) {
    forall i :: 0 <= i < |es| ==> End(es[i]) < TWO63
  }

  // Searching

  /** sort.Search between `i` and `j` for the first entry that ends behind `off`. */
  function Search(es: seq<Entry>, off: int, i: nat, j: nat): (k: nat)
    requires i <= j <= |es|
    ensures i <= k <= j
    decreases j - i
  {
    if i == j then i
    else
      var h := (i + j) / 2;
      if End64(es[h]) > off then Search(es, off, i, h) else Search(es, off, h + 1, j)
  }

  function Found(es: seq<Entry>, off: int): Option<Entry> {
    var k := Search(es, off, 0, |es|);
    if k < |es| && es[k].offset <= off < End64(es[k]) then Some(es[k]) else None
  }

  method FindBlock(es: seq<Entry>, off: int64) returns (r: Option<Entry>)
    ensures r == Found(es, off)
  {
    if |es| == 0 {
      return None;
    }
    var i, j := 0, |es|;
    while i < j
      invariant 0 <= i <= j <= |es|
      invariant Search(es, off, i, j) == Search(es, off, 0, |es|)
    {
      var h := (i + j) / 2;
      if Sum64(es[h].offset + es[h].size + 8) > off {
        j := h;
      } else {
        i := h + 1;
      }
    }
    if i >= |es| {
      return None;
    }
    if off >= es[i].offset && off < Sum64(es[i].offset + es[i].size + 8) {
      return Some(es[i]);
    }
    return None;
  }

  lemma {:induction false} SearchSplits(es: seq<Entry>, off: int, i: nat, j: nat)
    requires SortedByEnd(es) && i <= j <= |es|
    requires forall k :: 0 <= k < i ==> End64(es[k]) <= off
    requires forall k :: j <= k < |es| ==> End64(es[k]) > off
    ensures var s := Search(es, off, i, j);
            (forall k :: 0 <= k < s ==> End64(es[k]) <= off) && (forall k :: s <= k < |es| ==> End64(es[k]) > off)
    decreases j - i
  {
    if i < j {
      var h := (i + j) / 2;
      if End64(es[h]) > off {
        SearchSplits(es, off, i, h);
      } else {
        SearchSplits(es, off, h + 1, j);
      }
    }
  }

  /** On every map whose starts and computed ends are both in order the binary search agrees with a linear scan. */
  lemma FoundIffScanned(es: seq<Entry>, off: int)
    requires SortedByOffset(es) && SortedByEnd(es)
    ensures Found(es, off).Some? <==> exists e :: e in es && e.offset <= off < End64(e)
    ensures Found(es, off).Some? ==> Found(es, off).value in es
  {
    SearchSplits(es, off, 0, |es|);
  }

  /** Without an end that wraps, that is a scan for a covering entry. */
  lemma FoundIffCovered(es: seq<Entry>, off: int)
    requires SortedByOffset(es) && SortedByEnd(es) && EndsFit(es)
    ensures Found(es, off).Some? <==> exists e :: e in es && Covers(e, off)
    ensures Found(es, off).Some? ==> Found(es, off).value in es && Covers(Found(es, off).value, off)
  {
    FoundIffScanned(es, off);
  }

  /** No two different entries overlap. */
  ghost predicate Disjoint(es: seq<Entry>) {
    forall i, j :: 0 <= i < j < |es| ==> es[i] == es[j] || End(es[i]) <= es[j].offset
  }

  /** Whatever covers an offset is found there. */
  ghost predicate AlwaysFound(es: seq<Entry>) {
    forall off: int64, i :: 0 <= i < |es| && Covers(es[i], off) ==> Found(es, off) == Some(es[i])
  }

  lemma FoundWhereCovered(es: seq<Entry>, off: int64, i: nat)
    requires SortedByOffset(es) && Disjoint(es) && EndsFit(es) && i < |es| && Covers(es[i], off)
    ensures Found(es, off) == Some(es[i])
  {
    assert SortedByEnd(es);
    SearchSplits(es, off, 0, |es|);
    var s := Search(es, off, 0, |es|);
    assert s <= i;
  }

  /** On the maps that reading accepts, the search is right exactly when no two different entries overlap and no entry
      ends behind the largest int64. */
  lemma FoundIffDisjoint(es: seq<Entry>)
    requires SortedByOffset(es)
    ensures AlwaysFound(es) <==> Disjoint(es) && EndsFit(es)
  {
    if Disjoint(es) && EndsFit(es) {
      forall off: int64, i | 0 <= i < |es| && Covers(es[i], off)
        ensures Found(es, off) == Some(es[i])
      {
        FoundWhereCovered(es, off, i);
      }
    }
    if AlwaysFound(es) {
      forall i | 0 <= i < |es|
        ensures End(es[i]) < TWO63
      {
        assert Covers(es[i], es[i].offset);
        assert Found(es, es[i].offset) == Some(es[i]);
      }
      hide Found;
      forall i, j | 0 <= i < j < |es|
        ensures es[i] == es[j] || End(es[i]) <= es[j].offset
      {
        var off := es[j].offset;
        assert Found(es, off) == Some(es[j]) by {
          assert Covers(es[j], off);
        }
        if End(es[i]) > off {
          assert Covers(es[i], off);
          assert Found(es, off) == Some(es[i]);
        }
      }
    }
  }

  /** A single entry whose end wraps is never found, although reading accepts it. */
  lemma WrappedEndNotFound(h: Digest)
    ensures var es := [Entry(h, TWO63 - 10, 100)];
            SortedByOffset(es) && Disjoint(es) && Covers(es[0], TWO63 - 5) && Found(es, TWO63 - 5) == None
  {
    var es := [Entry(h, TWO63 - 10, 100)];
    assert Search(es, TWO63 - 5, 1, 1) == 1;
    assert Search(es, TWO63 - 5, 0, 1) == 1;
  }

  /** The order that reading a blockmap enforces is not enough: a block inside another one hides it. */
  lemma SortedOffsetsAreNotEnough(h: Digest)
    ensures var es := [Entry(h, 0, 1000), Entry(h, 10, 80)];
            SortedByOffset(es) && Covers(es[0], 500) && Found(es, 500) == None
  {
    var es := [Entry(h, 0, 1000), Entry(h, 10, 80)];
    assert Search(es, 500, 2, 2) == 2;
    assert Search(es, 500, 0, 2) == 2;
  }

  /** The overlap test as the program computes it. */
  predicate Overlaps64(e: Entry, off: int, len: int) { e.offset < Sum64(off + len) && End64(e) > off }

  function Overlapping(es: seq<Entry>, off: int, len: int): seq<Entry> {
    if es == [] then []
    else (if Overlaps64(es[0], off, len) then [es[0]] else []) + Overlapping(es[1..], off, len)
  }

  method FindBlocks(es: seq<Entry>, off: int, len: int) returns (result: seq<Entry>)
    ensures result == Overlapping(es, off, len)
  {
    result := [];
    var rangeEnd := Sum64(off + len);
    for i := 0 to |es|
      invariant result + Overlapping(es[i..], off, len) == Overlapping(es, off, len)
    {
      var entryEnd := Sum64(es[i].offset + es[i].size + 8);
      if es[i].offset < rangeEnd && entryEnd > off {
        result := result + [es[i]];
      }
      assert es[i..][1..] == es[i + 1..];
    }
  }

  lemma {:induction false} OverlappingMembers(es: seq<Entry>, off: int, len: int, e: Entry)
    ensures e in Overlapping(es, off, len) <==> e in es && Overlaps64(e, off, len)
  {
    if es != [] {
      OverlappingMembers(es[1..], off, len, e);
      assert es == [es[0]] + es[1..];
    }
  }

  /** On a range within int64 FindBlocks keeps exactly the overlapping entries whose ends are within it, too. */
  lemma OverlappingIff(es: seq<Entry>, off: nat, len: nat, e: Entry)
    requires off + len < TWO63
    ensures e in Overlapping(es, off, len) <==> e in es && Overlaps(e, off, len) && End(e) < TWO63
  {
    OverlappingMembers(es, off, len, e);
  }

  /** On a range that leaves int64 it keeps nothing that starts in a file. */
  lemma WrappedRangeIsEmpty(es: seq<Entry>, off: nat, len: nat)
    requires off + len >= TWO63 && len < TWO63 && forall i :: 0 <= i < |es| ==> es[i].offset >= 0
    ensures Overlapping(es, off, len) == []
  {
    if Overlapping(es, off, len) != [] {
      OverlappingMembers(es, off, len, Overlapping(es, off, len)[0]);
    }
  }

  // Tilings

  lemma {:induction false} TilingIndex(es: seq<Entry>, lo: int, hi: int, i: nat)
    requires TilesFrom(es, lo, hi) && i < |es|
    ensures lo <= es[i].offset && End(es[i]) <= hi
    ensures i == 0 ==> es[i].offset == lo
    ensures i > 0 ==> es[i].offset == End(es[i - 1])
    ensures i == |es| - 1 ==> End(es[i]) == hi
  {
    if i > 0 {
      TilingIndex(es[1..], End(es[0]), hi, i - 1);
      if i > 1 {
        assert es[i - 1] == es[1..][i - 2];
      }
    } else if |es| > 1 {
      TilingIndex(es[1..], End(es[0]), hi, 0);
    }
  }

  lemma {:induction false} TilingOrder(es: seq<Entry>, lo: int, hi: int, i: nat, j: nat)
    requires TilesFrom(es, lo, hi) && i < j < |es|
    ensures End(es[i]) <= es[j].offset
    decreases i
  {
    if i == 0 {
      TilingIndex(es[1..], End(es[0]), hi, j - 1);
    } else {
      TilingOrder(es[1..], End(es[0]), hi, i - 1, j - 1);
    }
  }

  /** A tiling satisfies both orders the search needs, strictly in the offsets. */
  lemma TilingSorted(es: seq<Entry>, lo: int, hi: int)
    requires TilesFrom(es, lo, hi) && hi < TWO63
    ensures SortedByOffset(es) && SortedByEnd(es) && EndsFit(es)
    ensures forall i, j :: 0 <= i < j < |es| ==> es[i].offset < es[j].offset
  {
    forall i, j | 0 <= i < j < |es|
      ensures es[i].offset < es[j].offset && End(es[i]) <= End(es[j])
    {
      TilingOrder(es, lo, hi, i, j);
    }
    forall i | 0 <= i < |es|
      ensures End(es[i]) <= hi
    {
      TilingIndex(es, lo, hi, i);
    }
  }

  /** In a tiling every byte of the file has exactly one covering entry, and no other position has any. */
  lemma {:induction false} TilingCovers(es: seq<Entry>, lo: int, hi: int, off: int)
    requires TilesFrom(es, lo, hi)
    ensures lo <= hi
    ensures lo <= off < hi <==> exists i :: 0 <= i < |es| && Covers(es[i], off)
    ensures forall i, j :: 0 <= i < |es| && 0 <= j < |es| && Covers(es[i], off) && Covers(es[j], off) ==> i == j
  {
    if es != [] {
      TilingCovers(es[1..], End(es[0]), hi, off);
      if Covers(es[0], off) {
        assert 0 <= 0 < |es|;
      } else if lo <= off < hi {
        var i :| 0 <= i < |es[1..]| && Covers(es[1..][i], off);
        assert es[i + 1] == es[1..][i];
      }
      forall i | 0 <= i < |es| && Covers(es[i], off)
        ensures lo <= off < hi
      {
        TilingIndex(es, lo, hi, i);
      }
      forall i, j | 0 <= i < j < |es| && Covers(es[i], off)
        ensures !Covers(es[j], off)
      {
        TilingOrder(es, lo, hi, i, j);
      }
    }
  }

  /** On a tiling of a file the search finds the unique covering entry, and nothing exactly outside the file. */
  lemma FoundInTiling(es: seq<Entry>, hi: int64, off: int)
    requires TilesFrom(es, 0, hi)
    ensures Found(es, off).None? <==> off < 0 || off >= hi
    ensures Found(es, off).Some? ==> forall e :: e in es ==> (Covers(e, off) <==> e == Found(es, off).value)
  {
    hide Found, TilesFrom;
    TilingSorted(es, 0, hi);
    TilingCovers(es, 0, hi, off);
    FoundIffCovered(es, off);
  }
}

/** The blockmap file format: a 16-byte header and 44 bytes for each entry. */
module BlockmapCodec {
  import opened Bytes
  import opened Streams
  import opened Blockmap

  const MAGIC := 0x424D4150
  const VERSION := 1
  const ENTRY_LIMIT := 1_000_000

  function EncodeHeader(count: nat): (h: Buf)
    ensures |h| == 16
  {
    ToLittleEndian(MAGIC, 4) + ToLittleEndian(VERSION, 2) + ToLittleEndian(count % TWO32, 4) + [0, 0, 0, 0, 0, 0]
  }

  function EncodeEntry(e: Entry): (b: Buf)
    ensures |b| == 44
  {
    e.hash + ToLittleEndian(ToUnsigned(e.offset), 8) + ToLittleEndian(e.size, 4)
  }

  function EncodeEntries(es: seq<Entry>): Buf {
    if es == [] then [] else EncodeEntry(es[0]) + EncodeEntries(es[1..])
  }

  function EncodeMap(es: seq<Entry>): Buf {
    EncodeHeader(|es|) + EncodeEntries(es)
  }

  /** sort.Slice: the entries in ascending order of offset, in no promised order among equal offsets. */
  method SortSlice(es: seq<Entry>) returns (sorted: seq<Entry>)
    ensures SortedByOffset(sorted) && multiset(sorted) == multiset(es)
  {
    hide SortedByOffset;
    sorted := SortedEmpty();
    for i := 0 to |es|
      invariant SortedByOffset(sorted) && multiset(sorted) == multiset(es[..i])
    {
      sorted := Insert(sorted, es[i]);
      assert es[..i + 1] == es[..i] + [es[i]];
    }
    assert es[..|es|] == es;
  }

  function SortedEmpty(): (es: seq<Entry>)
    ensures es == [] && SortedByOffset(es)
  {
    []
  }

  method Insert(es: seq<Entry>, e: Entry) returns (r: seq<Entry>)
    requires SortedByOffset(es)
    ensures SortedByOffset(r) && multiset(r) == multiset(es) + multiset{e}
  {
    var k := 0;
    while k < |es| && es[k].offset < e.offset
      invariant 0 <= k <= |es|
      invariant forall j :: 0 <= j < k ==> es[j].offset < e.offset
    {
      k := k + 1;
    }
    r := es[..k] + [e] + es[k..];
    assert es == es[..k] + es[k..];
  }

  method WriteMap(w: Writer, es: seq<Entry>) returns (ghost sorted: seq<Entry>)
    modifies w
    ensures SortedByOffset(sorted) && multiset(sorted) == multiset(es)
    ensures w.out == old(w.out) + EncodeMap(sorted)
  {
    hide EncodeHeader, EncodeEntry, SortedByOffset;
    var entries := SortSlice(es);
    assert |entries| == |multiset(entries)| == |multiset(es)| == |es|;
    w.Write(EncodeHeader(|entries|));
    for i := 0 to |entries|
      invariant w.out + EncodeEntries(entries[i..]) == old(w.out) + EncodeMap(entries)
    {
      ghost var before := w.out;
      w.Write(EncodeEntry(entries[i]));
      assert entries[i..][1..] == entries[i + 1..];
      assert w.out + EncodeEntries(entries[i + 1..]) == before + EncodeEntries(entries[i..]);
    }
    sorted := entries;
  }

  function DecodeEntry(b: Buf): Entry
    requires |b| == 44
  {
    FieldWidths(b);
    Entry(b[..32], ToSigned(FromLittleEndian(b[32..40])), FromLittleEndian(b[40..44]))
  }

  lemma FieldWidths(b: Buf)
    requires |b| == 44
    ensures FromLittleEndian(b[32..40]) < TWO64 && FromLittleEndian(b[40..44]) < TWO32
  {
    FixedWidths();
    LittleEndianOnto(b[32..40]);
    LittleEndianOnto(b[40..44]);
  }

  function DecodeEntries(acc: seq<Entry>, s: Buf, n: nat): Result<seq<Entry>>
    decreases n
  {
    if n == 0 then Ok(acc)
    else
      var Parsed(buf, rest) := TakeFull(s, 44);
      if buf.Err? then Err(buf.error)
      else DecodeEntries(acc + [DecodeEntry(buf.value)], rest, n - 1)
  }

  predicate InOrder(es: seq<Entry>) {
    forall i :: 1 <= i < |es| ==> es[i - 1].offset <= es[i].offset
  }

  /** The entry count in an acceptable header. */
  function DecodeHeader(h: Buf): Option<nat>
    requires |h| == 16
  {
    if FromLittleEndian(h[..4]) != MAGIC || FromLittleEndian(h[4..6]) != VERSION then None
    else
      var count := FromLittleEndian(h[6..10]);
      if count >= ENTRY_LIMIT then None else Some(count)
  }

  function DecodeMap(s: Buf): Result<seq<Entry>> {
    var Parsed(header, tail) := TakeFull(s, 16);
    if header.Err? then Err(header.error)
    else
      var count := DecodeHeader(header.value);
      if count.None? then Err(Malformed)
      else
        var es := DecodeEntries([], tail, count.value);
        if es.Ok? && !InOrder(es.value) then Err(Malformed) else es
  }

  method ReadMap(r: Reader) returns (res: Result<seq<Entry>>)
    requires r.Valid()
    modifies r
    ensures r.Valid() && res == DecodeMap(old(r.Rest()))
  {
    hide DecodeEntry;
    var h := r.ReadFull(16);
    if h.Err? { return Err(h.error); }
    if FromLittleEndian(h.value[..4]) != MAGIC { return Err(Malformed); }
    if FromLittleEndian(h.value[4..6]) != VERSION { return Err(Malformed); }
    var entryCount := FromLittleEndian(h.value[6..10]);
    if entryCount >= ENTRY_LIMIT { return Err(Malformed); }
    ghost var body := r.Rest();
    var entries: seq<Entry> := [];
    for i := 0 to entryCount
      invariant r.Valid() && DecodeEntries(entries, r.Rest(), entryCount - i) == DecodeEntries([], body, entryCount)
    {
      var buf := r.ReadFull(44);
      if buf.Err? { return Err(buf.error); }
      entries := entries + [DecodeEntry(buf.value)];
    }
    var i := 1;
    while i < |entries|
      invariant 1 <= i && InOrder(entries[..Min(i, |entries|)])
    {
      if entries[i].offset < entries[i - 1].offset {
        assert !InOrder(entries);
        return Err(Malformed);
      }
      i := i + 1;
    }
    assert entries[..|entries|] == entries;
    return Ok(entries);
  }

  // Reading undoes writing

  lemma EntryRoundTrip(e: Entry)
    ensures DecodeEntry(EncodeEntry(e)) == e
  {
    hide ToLittleEndian, FromLittleEndian, Pow256;
    var b := EncodeEntry(e);
    FixedWidths();
    LittleEndianRoundTrip(ToUnsigned(e.offset), 8);
    LittleEndianRoundTrip(e.size, 4);
    assert b[..32] == e.hash;
    assert b[32..40] == ToLittleEndian(ToUnsigned(e.offset), 8);
    assert b[40..44] == ToLittleEndian(e.size, 4);
  }

  lemma HeaderRoundTrip(count: nat)
    ensures DecodeHeader(EncodeHeader(count)) == if count % TWO32 < ENTRY_LIMIT then Some(count % TWO32) else None
  {
    hide ToLittleEndian, FromLittleEndian, Pow256;
    var h := EncodeHeader(count);
    FixedWidths();
    LittleEndianRoundTrip(MAGIC, 4);
    LittleEndianRoundTrip(VERSION, 2);
    LittleEndianRoundTrip(count % TWO32, 4);
    assert h[..4] == ToLittleEndian(MAGIC, 4);
    assert h[4..6] == ToLittleEndian(VERSION, 2);
    assert h[6..10] == ToLittleEndian(count % TWO32, 4);
  }

  /** Reading the first `n` of the written entries gives just those back. */
  lemma {:induction false} EntriesRoundTrip(acc: seq<Entry>, es: seq<Entry>, n: nat, rest: Buf)
    requires n <= |es|
    ensures DecodeEntries(acc, EncodeEntries(es) + rest, n) == Ok(acc + es[..n])
    decreases n
  {
    hide EncodeEntry, DecodeEntry, TakeFull;
    if n == 0 {
      assert acc + es[..n] == acc;
    } else {
      var tail := EncodeEntries(es[1..]) + rest;
      assert EncodeEntries(es) + rest == EncodeEntry(es[0]) + tail;
      TakePrefix(EncodeEntry(es[0]), tail);
      EntryRoundTrip(es[0]);
      EntriesRoundTrip(acc + [es[0]], es[1..], n - 1, rest);
      assert acc + [es[0]] + es[1..][..n - 1] == acc + es[..n];
    }
  }

  /** What reading a written map yields, for any number of entries: the count field has 32 bits and a limit. */
  lemma DecodeEncodedMap(es: seq<Entry>, rest: Buf)
    requires SortedByOffset(es)
    ensures DecodeMap(EncodeMap(es) + rest)
            == if |es| % TWO32 < 1_000_000 then Ok(es[..|es| % TWO32]) else Err(Malformed)
  {
    hide EncodeHeader, DecodeHeader, EncodeEntries, DecodeEntries, TakeFull, SortedByOffset, InOrder;
    var n := |es| % TWO32;
    SortedInOrder(es, n);
    var tail := EncodeEntries(es) + rest;
    assert EncodeMap(es) + rest == EncodeHeader(|es|) + tail;
    TakePrefix(EncodeHeader(|es|), tail);
    HeaderRoundTrip(|es|);
    EntriesRoundTrip([], es, n, rest);
    assert [] + es[..n] == es[..n];
  }

  lemma SortedInOrder(es: seq<Entry>, n: nat)
    requires SortedByOffset(es) && n <= |es|
    ensures InOrder(es[..n])
  {
  }

  /** A map survives writing and reading exactly when it has fewer than a million entries. */
  lemma MapRoundTripIff(es: seq<Entry>, rest: Buf)
    requires SortedByOffset(es)
    ensures DecodeMap(EncodeMap(es) + rest) == Ok(es) <==> |es| < 1_000_000
  {
    hide DecodeMap, EncodeMap, SortedByOffset;
    DecodeEncodedMap(es, rest);
    assert |es| < ENTRY_LIMIT ==> es[..|es| % TWO32] == es;
  }

  // Writing undoes reading

  lemma EntryOnto(b: Buf)
    requires |b| == 44
    ensures EncodeEntry(DecodeEntry(b)) == b
  {
    hide ToLittleEndian, FromLittleEndian, Pow256;
    FieldWidths(b);
    LittleEndianOnto(b[32..40]);
    LittleEndianOnto(b[40..44]);
    assert b == b[..32] + b[32..40] + b[40..44];
  }

  /** A header is accepted iff it is the written one of a count below the limit, up to the six reserved bytes. */
  lemma HeaderIff(h: Buf, n: nat)
    requires |h| == 16
    ensures DecodeHeader(h) == Some(n) <==> n < ENTRY_LIMIT && h[..10] == EncodeHeader(n)[..10]
  {
    hide ToLittleEndian, FromLittleEndian, Pow256;
    FixedWidths();
    LittleEndianOnto(h[..4]);
    LittleEndianOnto(h[4..6]);
    LittleEndianOnto(h[6..10]);
    assert h[..10] == h[..4] + h[4..6] + h[6..10];
    var w := EncodeHeader(n);
    assert w[..10] == ToLittleEndian(MAGIC, 4) + ToLittleEndian(VERSION, 2) + ToLittleEndian(n % TWO32, 4);
    assert w[..10][..4] == w[..4] && w[..10][4..6] == w[4..6] && w[..10][6..10] == w[6..10];
    assert h[..10][..4] == h[..4] && h[..10][4..6] == h[4..6] && h[..10][6..10] == h[6..10];
    HeaderRoundTrip(n);
  }

  lemma {:induction false} EntriesOnto(acc: seq<Entry>, s: Buf, n: nat) returns (es: seq<Entry>)
    requires DecodeEntries(acc, s, n).Ok?
    ensures DecodeEntries(acc, s, n) == Ok(acc + es) && |es| == n
    ensures EncodeEntries(es) <= s && |EncodeEntries(es)| == 44 * n
    decreases n
  {
    hide EncodeEntry, DecodeEntry;
    if n == 0 {
      es := [];
      assert acc + es == acc;
    } else {
      var e := DecodeEntry(s[..44]);
      EntryOnto(s[..44]);
      var tail := EntriesOnto(acc + [e], s[44..], n - 1);
      es := [e] + tail;
      assert acc + [e] + tail == acc + es && es[1..] == tail;
      assert s == s[..44] + s[44..];
    }
  }

  lemma {:induction false} EntriesLength(es: seq<Entry>)
    ensures |EncodeEntries(es)| == 44 * |es|
  {
    if es != [] {
      EntriesLength(es[1..]);
    }
  }

  lemma InOrderIff(es: seq<Entry>)
    ensures InOrder(es) <==> SortedByOffset(es)
  {
    if InOrder(es) && |es| > 0 {
      Ascending(es, |es| - 1);
      assert es[..|es|] == es;
    }
  }

  lemma {:induction false} Ascending(es: seq<Entry>, k: nat)
    requires InOrder(es) && k < |es|
    ensures SortedByOffset(es[..k + 1])
  {
    if k > 0 {
      Ascending(es, k - 1);
      assert es[..k] == es[..k + 1][..k];
      assert forall i :: 0 <= i < k ==> es[..k][i].offset <= es[..k][k - 1].offset;
    }
  }

  /** The reader accepts exactly what the writer writes for a sorted map of fewer than a million entries: whatever the
      six reserved bytes are, and whatever follows. */
  lemma AcceptedIff(s: Buf, es: seq<Entry>)
    ensures DecodeMap(s) == Ok(es)
            <==> SortedByOffset(es) && |es| < 1_000_000
                 && |s| >= 16 && s[..10] == EncodeMap(es)[..10] && EncodeMap(es)[16..] <= s[16..]
  {
    hide EncodeHeader, DecodeHeader, EncodeEntries, DecodeEntries, SortedByOffset, InOrder;
    InOrderIff(es);
    assert EncodeMap(es)[..10] == EncodeHeader(|es|)[..10] && EncodeMap(es)[16..] == EncodeEntries(es);
    if |s| >= 16 {
      HeaderIff(s[..16], |es|);
      assert s[..16][..10] == s[..10];
      if DecodeMap(s) == Ok(es) {
        var n := DecodeHeader(s[..16]).value;
        var found := EntriesOnto([], s[16..], n);
        assert [] + found == found;
      }
      if EncodeEntries(es) <= s[16..] {
        var rest := s[16..][|EncodeEntries(es)|..];
        assert s[16..] == EncodeEntries(es) + rest;
        EntriesRoundTrip([], es, |es|, rest);
        assert [] + es[..|es|] == es;
      }
    }
  }

  /** Sorting leaves nothing to choose when the offsets are distinct and already ascending. */
  lemma {:induction false} SortedUnique(es: seq<Entry>, sorted: seq<Entry>)
    requires forall i, j :: 0 <= i < j < |es| ==> es[i].offset < es[j].offset
    requires SortedByOffset(sorted) && multiset(sorted) == multiset(es)
    ensures sorted == es
    decreases |es|
  {
    assert |sorted| == |multiset(sorted)| == |multiset(es)| == |es|;
    if es != [] {
      SmallestFirst(es, sorted);
      WithoutFirst(es);
      WithoutFirst(sorted);
      SortedUnique(es[1..], sorted[1..]);
    }
  }

  lemma WithoutFirst(es: seq<Entry>)
    requires es != []
    ensures es == [es[0]] + es[1..] && multiset(es[1..]) == multiset(es) - multiset{es[0]}
  {
    assert es == [es[0]] + es[1..];
  }

  lemma SmallestFirst(es: seq<Entry>, sorted: seq<Entry>)
    requires es != [] && sorted != []
    requires forall i, j :: 0 <= i < j < |es| ==> es[i].offset < es[j].offset
    requires SortedByOffset(sorted) && multiset(sorted) == multiset(es)
    ensures sorted[0] == es[0]
  {
    assert es[0] in multiset(sorted) && sorted[0] in multiset(es);
    var i :| 0 <= i < |sorted| && sorted[i] == es[0];
    var j :| 0 <= j < |es| && es[j] == sorted[0];
    assert sorted[0].offset <= es[0].offset;
  }
}

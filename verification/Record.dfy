/** Checksummed rev-file records and files of records. */
module Record {
  import opened Bytes
  import opened Streams
  import opened Undo

  const MAINNET_MAGIC: Buf := [0xf9, 0xbe, 0xb4, 0xd9]

  datatype Rec = Rec(blockUndo: BlockUndo, checksum: Buf, rawUndo: Buf)

  /** What a record is printed from: the undo data and the previous block's hash. */
  datatype Item = Item(blockUndo: BlockUndo, prevHash: Digest)

  function Checksum(sha: Sha, prevHash: Digest, body: Buf): Digest { Sha256d(sha, prevHash + body) }

  method VerifyChecksum(sha: Sha, rec: Rec, prevHash: Digest) returns (ok: bool)
    ensures ok <==> rec.checksum == Checksum(sha, prevHash, rec.rawUndo)
  {
    var expected := sha(sha(prevHash + rec.rawUndo));
    return expected == rec.checksum;
  }

  function Framed(body: Buf, checksum: Digest): Buf {
    MAINNET_MAGIC + ToLittleEndian(|body| % TWO32, 4) + body + checksum
  }

  function EncodeRecord(sha: Sha, item: Item): Buf {
    var body := EncodeBlockUndo(item.blockUndo);
    Framed(body, Checksum(sha, item.prevHash, body))
  }

  method SerializeRecord(w: Writer, sha: Sha, item: Item)
    requires WritableBlock(item.blockUndo)
    modifies w
    ensures w.out == old(w.out) + EncodeRecord(sha, item)
  {
    hide EncodeBlockUndo, ToLittleEndian;
    var buf := new Writer();
    SerializeBlockUndo(buf, item.blockUndo);
    var serialized := buf.out;
    assert serialized == EncodeBlockUndo(item.blockUndo);
    w.Write(MAINNET_MAGIC);
    w.Write(ToLittleEndian(|serialized| % TWO32, 4));
    w.Write(serialized);
    w.Write(Sha256d(sha, item.prevHash + serialized));
    assert w.out == old(w.out) + Framed(serialized, Checksum(sha, item.prevHash, serialized));
  }

  /** The length-prefixed body and the checksum behind a valid magic. */
  function DecodeBody(s: Buf): Parsed<(Buf, Buf)> {
    var Parsed(size, t1) := TakeFull(s, 4);
    if size.Err? then Parsed(Err(size.error), t1)
    else
      var Parsed(raw, t2) := TakeFull(t1, FromLittleEndian(size.value));
      if raw.Err? then Parsed(Err(raw.error), t2)
      else
        var Parsed(checksum, rest) := TakeFull(t2, 32);
        if checksum.Err? then Parsed(Err(checksum.error), rest)
        else Parsed(Ok((raw.value, checksum.value)), rest)
  }

  function DecodeRecord(s: Buf): (p: Parsed<Rec>)
    ensures p.result.Ok? ==> |p.rest| + 40 <= |s|
  {
    var Parsed(magic, t1) := TakeFull(s, 4);
    if magic.Err? then Parsed(Err(magic.error), t1)
    else if magic.value != MAINNET_MAGIC then Parsed(Err(Malformed), t1)
    else
      var Parsed(body, rest) := DecodeBody(t1);
      if body.Err? then Parsed(Err(body.error), rest)
      else
        var undo := DecodeBlockUndo(body.value.0).result;
        if undo.Err? then Parsed(Err(undo.error), rest)
        else Parsed(Ok(Rec(undo.value, body.value.1, body.value.0)), rest)
  }

  method ParseRecord(r: Reader) returns (res: Result<Rec>)
    requires r.Valid()
    modifies r
    ensures r.Valid() && Parsed(res, r.Rest()) == DecodeRecord(old(r.Rest()))
  {
    hide DecodeBlockUndo;
    var magic := r.ReadFull(4);
    if magic.Err? { return Err(magic.error); }
    if magic.value != MAINNET_MAGIC { return Err(Malformed); }
    var sizeBuf := r.ReadFull(4);
    if sizeBuf.Err? { return Err(sizeBuf.error); }
    var rawUndo := r.ReadFull(FromLittleEndian(sizeBuf.value));
    if rawUndo.Err? { return Err(rawUndo.error); }
    var checksum := r.ReadFull(32);
    if checksum.Err? { return Err(checksum.error); }
    var inner := new Reader(rawUndo.value);
    var bu := DeserializeBlockUndo(inner);
    if bu.Err? { return Err(bu.error); }
    return Ok(Rec(bu.value, checksum.value, rawUndo.value));
  }

  /** All records read, and the error that stopped the parser unless it was one kind of end of file; or a crash. */
  datatype Outcome = Outcome(records: seq<Rec>, error: Option<ReadError>) | Crashed

  function DecodeAll(acc: seq<Rec>, s: Buf): Outcome
    decreases |s|
  {
    var Parsed(rec, rest) := DecodeRecord(s);
    if rec.Ok? then DecodeAll(acc + [rec.value], rest)
    else if rec.error == Malformed then Outcome(acc, Some(Malformed))
    else if rec.error == Panic then Crashed
    else Outcome(acc, None)
  }

  method ParseAllRecords(r: Reader) returns (o: Outcome)
    requires r.Valid()
    modifies r
    ensures r.Valid() && o == DecodeAll([], old(r.Rest()))
  {
    hide DecodeRecord;
    var records: seq<Rec> := [];
    while true
      invariant r.Valid() && DecodeAll(records, r.Rest()) == DecodeAll([], old(r.Rest()))
      decreases |r.data| - r.pos
    {
      var rec := ParseRecord(r);
      if rec.Err? {
        if rec.error == EndOfFile || rec.error == UnexpectedEndOfFile {
          return Outcome(records, None);
        }
        if rec.error == Panic {
          return Crashed;
        }
        return Outcome(records, Some(rec.error));
      }
      records := records + [rec.value];
    }
  }

  // One record

  /** The record that parsing yields for a printed item. */
  function ParsedItem(sha: Sha, item: Item): Rec {
    var body := EncodeBlockUndo(item.blockUndo);
    Rec(ReadBackBlock(item.blockUndo), Checksum(sha, item.prevHash, body), body)
  }

  predicate Printable(item: Item) {
    WritableBlock(item.blockUndo) && |EncodeBlockUndo(item.blockUndo)| < TWO32
  }

  lemma BodyRoundTrip(body: Buf, checksum: Digest, rest: Buf)
    requires |body| < TWO32
    ensures DecodeBody(ToLittleEndian(|body| % TWO32, 4) + (body + (checksum + rest)))
            == Parsed(Ok((body, checksum)), rest)
  {
    hide ToLittleEndian, FromLittleEndian, Pow256, TakeFull;
    FixedWidths();
    LittleEndianRoundTrip(|body|, 4);
    TakePrefix(ToLittleEndian(|body| % TWO32, 4), body + (checksum + rest));
    TakePrefix(body, checksum + rest);
    TakePrefix(checksum, rest);
  }

  lemma AfterMagic(body: Buf, checksum: Digest, rest: Buf)
    ensures TakeFull(Framed(body, checksum) + rest, 4)
            == Parsed(Ok(MAINNET_MAGIC), ToLittleEndian(|body| % TWO32, 4) + (body + (checksum + rest)))
    ensures |Framed(body, checksum)| == 40 + |body|
  {
    var s := Framed(body, checksum) + rest;
    assert s == MAINNET_MAGIC + (ToLittleEndian(|body| % TWO32, 4) + (body + (checksum + rest)));
    assert s[..4] == MAINNET_MAGIC;
  }

  lemma PrintedRecordParses(sha: Sha, item: Item, rest: Buf)
    requires Printable(item)
    ensures DecodeRecord(EncodeRecord(sha, item) + rest) == Parsed(Ok(ParsedItem(sha, item)), rest)
  {
    hide EncodeBlockUndo, DecodeBlockUndo, ReadBackBlock, Framed, DecodeBody, TakeFull, ToLittleEndian;
    var body := EncodeBlockUndo(item.blockUndo);
    var checksum := Checksum(sha, item.prevHash, body);
    AfterMagic(body, checksum, rest);
    BodyRoundTrip(body, checksum, rest);
    BlockUndoRoundTrip(item.blockUndo, []);
    assert body + [] == body;
  }

  /** Parsing a printed record returns its undo data and raw body, and leaves what follows unread. The undo data is the
      normal form of what was printed iff all amounts fit. */
  lemma RecordRoundTrip(sha: Sha, item: Item, rest: Buf)
    requires Printable(item)
    ensures DecodeRecord(EncodeRecord(sha, item) + rest) == Parsed(Ok(ParsedItem(sha, item)), rest)
    ensures ParsedItem(sha, item).rawUndo == EncodeBlockUndo(item.blockUndo)
    ensures ParsedItem(sha, item).blockUndo == NormalBlock(item.blockUndo) <==> AmountsFit(item.blockUndo)
  {
    hide EncodeBlockUndo, ReadBackBlock, NormalBlock, AmountsFit, DecodeRecord, EncodeRecord, Printable;
    PrintedRecordParses(sha, item, rest);
    BlockNormalIff(item.blockUndo);
  }

  /** The checksum of a parsed record verifies against the previous hash it was written with. */
  lemma ParsedChecksumVerifies(sha: Sha, item: Item, rest: Buf)
    requires Printable(item)
    ensures var rec := DecodeRecord(EncodeRecord(sha, item) + rest).result;
            rec.Ok? && rec.value.checksum == Checksum(sha, item.prevHash, rec.value.rawUndo)
  {
    hide EncodeBlockUndo, ReadBackBlock, EncodeRecord, DecodeRecord;
    RecordRoundTrip(sha, item, rest);
  }

  /** The 4-byte length field decides: the body comes back iff it is shorter than 4 GiB. */
  lemma BodyComesBackIffUnder4GiB(sha: Sha, item: Item, rest: Buf)
    requires WritableBlock(item.blockUndo)
    ensures var rec := DecodeRecord(EncodeRecord(sha, item) + rest).result;
            (rec.Ok? && rec.value.rawUndo == EncodeBlockUndo(item.blockUndo))
            <==> |EncodeBlockUndo(item.blockUndo)| < TWO32
  {
    hide EncodeBlockUndo, DecodeBlockUndo, Framed, ToLittleEndian, FromLittleEndian, Pow256;
    var body := EncodeBlockUndo(item.blockUndo);
    if |body| < TWO32 {
      RecordRoundTrip(sha, item, rest);
    } else {
      var checksum := Checksum(sha, item.prevHash, body);
      AfterMagic(body, checksum, rest);
      FixedWidths();
      LittleEndianRoundTrip(|body| % TWO32, 4);
      var size := ToLittleEndian(|body| % TWO32, 4);
      assert (size + (body + (checksum + rest)))[..4] == size;
    }
  }

  /** A record cut short anywhere ends the file: no proper prefix parses, and none is an error to the caller. */
  lemma TruncatedRecord(sha: Sha, item: Item, cut: nat)
    requires Printable(item) && cut < |EncodeRecord(sha, item)|
    ensures DecodeRecord(EncodeRecord(sha, item)[..cut]).result.Err?
    ensures DecodeRecord(EncodeRecord(sha, item)[..cut]).result.error in {EndOfFile, UnexpectedEndOfFile}
  {
    hide EncodeBlockUndo, DecodeBlockUndo, Framed, ToLittleEndian, FromLittleEndian, Pow256;
    var body := EncodeBlockUndo(item.blockUndo);
    var checksum := Checksum(sha, item.prevHash, body);
    var whole := EncodeRecord(sha, item);
    AfterMagic(body, checksum, []);
    assert whole + [] == whole;
    FixedWidths();
    LittleEndianRoundTrip(|body|, 4);
    var s := whole[..cut];
    if 4 <= cut {
      assert s[..4] == whole[..4] == MAINNET_MAGIC;
      var size := ToLittleEndian(|body| % TWO32, 4);
      assert whole[4..] == size + (body + (checksum + []));
      if 8 <= cut {
        assert s[4..][..4] == whole[4..][..4] == size;
      }
    }
  }

  // Files of records

  function EncodeFile(sha: Sha, items: seq<Item>): Buf {
    if items == [] then [] else EncodeRecord(sha, items[0]) + EncodeFile(sha, items[1..])
  }

  function ParsedItems(sha: Sha, items: seq<Item>): (recs: seq<Rec>)
    ensures |recs| == |items| && forall i :: 0 <= i < |items| ==> recs[i] == ParsedItem(sha, items[i])
  {
    if items == [] then [] else [ParsedItem(sha, items[0])] + ParsedItems(sha, items[1..])
  }

  lemma CutInFirstRecord(acc: seq<Rec>, sha: Sha, items: seq<Item>, cut: nat)
    requires items != [] ==> Printable(items[0]) && cut < |EncodeRecord(sha, items[0])|
    requires cut <= |EncodeFile(sha, items)|
    ensures DecodeAll(acc, EncodeFile(sha, items)[..cut]) == Outcome(acc, None)
  {
    hide EncodeRecord, DecodeRecord, Printable;
    if items == [] {
      EmptyFile();
    } else {
      assert EncodeFile(sha, items)[..cut] == EncodeRecord(sha, items[0])[..cut];
      TruncatedRecord(sha, items[0], cut);
    }
  }

  lemma ParsedItemsParts(sha: Sha, items: seq<Item>)
    ensures ParsedItems(sha, items) ==
        if items == [] then [] else [ParsedItem(sha, items[0])] + ParsedItems(sha, items[1..])
  {
    hide ParsedItem;
  }

  lemma {:induction false} DecodeWholeRecords(acc: seq<Rec>, sha: Sha, items: seq<Item>, left: Buf)
    requires forall i :: 0 <= i < |items| ==> Printable(items[i])
    ensures DecodeAll(acc, EncodeFile(sha, items) + left) == DecodeAll(acc + ParsedItems(sha, items), left)
    decreases |items|
  {
    hide EncodeRecord, DecodeRecord, ParsedItem, ParsedItems, Printable;
    ParsedItemsParts(sha, items);
    if items == [] {
      assert EncodeFile(sha, items) + left == left;
      assert acc + ParsedItems(sha, items) == acc;
    } else {
      var first, tail := EncodeRecord(sha, items[0]), EncodeFile(sha, items[1..]) + left;
      assert EncodeFile(sha, items) + left == first + tail;
      PrintedRecordParses(sha, items[0], tail);
      var acc' := acc + [ParsedItem(sha, items[0])];
      DecodeWholeRecords(acc', sha, items[1..], left);
      assert acc' + ParsedItems(sha, items[1..]) == acc + ParsedItems(sha, items);
    }
  }

  lemma {:induction false} EncodeFileSplit(sha: Sha, items: seq<Item>, k: nat)
    requires k <= |items|
    ensures EncodeFile(sha, items) == EncodeFile(sha, items[..k]) + EncodeFile(sha, items[k..])
    decreases k
  {
    hide EncodeRecord;
    if k == 0 {
      assert items[0..] == items;
    } else {
      EncodeFileSplit(sha, items[1..], k - 1);
      assert items[..k][1..] == items[1..][..k - 1] && items[1..][k - 1..] == items[k..];
    }
  }

  lemma EmptyFile()
    ensures DecodeRecord([]) == Parsed(Err(EndOfFile), [])
  {
  }

  /** However a file of records is cut, parsing succeeds and returns exactly the `k` records that survive whole. */
  lemma CutFileParses(sha: Sha, items: seq<Item>, k: nat, cut: nat)
    requires forall i :: 0 <= i < |items| ==> Printable(items[i])
    requires k <= |items| && |EncodeFile(sha, items[..k])| <= cut <= |EncodeFile(sha, items)|
    requires k < |items| ==> cut < |EncodeFile(sha, items[..k + 1])|
    ensures DecodeAll([], EncodeFile(sha, items)[..cut]) == Outcome(ParsedItems(sha, items[..k]), None)
  {
    hide EncodeFile, DecodeAll, EncodeRecord, Printable, ParsedItems;
    var front, back, recs := EncodeFile(sha, items[..k]), EncodeFile(sha, items[k..]), ParsedItems(sha, items[..k]);
    assert EncodeFile(sha, items) == front + back by {
      EncodeFileSplit(sha, items, k);
    }
    var left := back[..cut - |front|];
    assert (front + back)[..cut] == front + left;
    assert DecodeAll([], front + left) == DecodeAll(recs, left) by {
      DecodeWholeRecords([], sha, items[..k], left);
      assert [] + recs == recs;
    }
    assert DecodeAll(recs, left) == Outcome(recs, None) by {
      if k < |items| {
        RecordAt(sha, items, k);
      }
      CutInFirstRecord(recs, sha, items[k..], cut - |front|);
    }
  }

  lemma RecordAt(sha: Sha, items: seq<Item>, k: nat)
    requires k < |items|
    ensures |EncodeFile(sha, items[..k + 1])| == |EncodeFile(sha, items[..k])| + |EncodeRecord(sha, items[k])|
  {
    hide EncodeRecord;
    EncodeFileSplit(sha, items[..k + 1], k);
    assert items[..k + 1][..k] == items[..k] && items[..k + 1][k..] == [items[k]];
    assert EncodeFile(sha, [items[k]]) == EncodeRecord(sha, items[k]) + EncodeFile(sha, []);
  }

  /**
    * A complete record whose body ends too early is taken for the end of the file: it and everything behind it
    * are dropped without an error. A body that is malformed in another way is reported, and one that announces more
    * than a slice can hold crashes the program.
    */
  lemma ShortBodyDropsTheRest(sha: Sha, items: seq<Item>, body: Buf, checksum: Digest, more: Buf)
    requires (forall i :: 0 <= i < |items| ==> Printable(items[i])) && |body| < TWO32
    requires DecodeBlockUndo(body).result.Err?
    ensures DecodeAll([], EncodeFile(sha, items) + (Framed(body, checksum) + more))
            == match DecodeBlockUndo(body).result.error
               case Panic => Crashed
               case Malformed => Outcome(ParsedItems(sha, items), Some(Malformed))
               case _ => Outcome(ParsedItems(sha, items), None)
  {
    hide DecodeBlockUndo, EncodeFile, ParsedItems, Printable, Framed, DecodeBody, TakeFull, ToLittleEndian;
    var left, recs := Framed(body, checksum) + more, ParsedItems(sha, items);
    AfterMagic(body, checksum, more);
    BodyRoundTrip(body, checksum, more);
    DecodeWholeRecords([], sha, items, left);
    assert [] + recs == recs;
  }

  /** The empty body ends too early. */
  lemma EmptyBodyIsShort()
    ensures DecodeBlockUndo([]).result == Err(EndOfFile)
  {
  }

  /** One that announces the largest number of transactions crashes the program. */
  lemma HugeCountCrashes(rest: Buf)
    ensures DecodeBlockUndo(seq(9, _ => 255) + rest).result == Err(Panic)
  {
    hide DecodeTxUndos;
    var body: Buf := seq(9, _ => 255);
    var s := body + rest;
    assert s[..1] == [255] && s[1..][..8] == seq(8, _ => 255);
    assert FromLittleEndian(seq(8, _ => 255)) == TWO64 - 1 by {
      AllOnes(8);
      FixedWidths();
    }
  }

  lemma {:induction false} AllOnes(k: nat)
    ensures FromLittleEndian(seq(k, _ => 255)) == Pow256(k) - 1
  {
    if k > 0 {
      AllOnes(k - 1);
      assert seq(k, _ => 255 as byte)[1..] == seq(k - 1, _ => 255);
    }
  }
}

/** Printing what was parsed: when the bytes of a rev file come out as they went in. */
module Reprint {
  import opened Bytes
  import opened Streams
  import opened VarInt
  import opened CompactSize
  import opened Script
  import opened Undo
  import opened Record
  import Amount

  /** The bytes of a coin: three VARINTs and the payload of its script. */
  datatype CoinParts = CoinParts(height: Buf, amount: Buf, size: Buf, payload: Buf)

  predicate ValidCoin(p: CoinParts) {
    && Terminated(p.height) && Terminated(p.amount) && Terminated(p.size)
    && |p.payload| == PayloadSize(Wrap(Value(p.size))) && Sliceable(|p.payload|, 1)
  }

  function BytesOfCoin(p: CoinParts): Buf
    requires ValidCoin(p)
  {
    CoinBytes(p.height, p.amount, p.size, p.payload)
  }

  function CoinFrom(p: CoinParts): Coin
    requires ValidCoin(p)
  {
    CoinOf(p.height, p.amount, p.size, p.payload)
  }

  /** The form that the writer uses: nothing wraps, and no special script is spelled out as plain bytes. */
  predicate CanonicalCoin(p: CoinParts)
    requires ValidCoin(p)
  {
    && Value(p.height) < 2 * TWO32
    && Value(p.amount) < TWO64 && Amount.Decompress(Wrap(Value(p.amount))) < TWO64
    && Value(p.size) < TWO64 && (Wrap(Value(p.size)) < SPECIAL_SCRIPTS || !IsSpecial(p.payload))
  }

  /** The bytes of a list: its count, in any form, and its elements. */
  datatype TxParts = TxParts(count: Buf, coins: seq<CoinParts>)
  datatype BlockParts = BlockParts(count: Buf, txs: seq<TxParts>)

  /** These bytes are a size of that value. */
  predicate IsSize(count: Buf, n: nat) {
    count != [] && |count| == 1 + Width(count[0]) && DecodeCompactSize(count) == Parsed(Ok(n), [])
  }

  predicate ValidCoins(ps: seq<CoinParts>) { forall i :: 0 <= i < |ps| ==> ValidCoin(ps[i]) }

  predicate ValidTx(p: TxParts) {
    IsSize(p.count, |p.coins|) && Sliceable(|p.coins|, COIN_SIZE) && ValidCoins(p.coins)
  }

  predicate ValidTxs(ps: seq<TxParts>) { forall i :: 0 <= i < |ps| ==> ValidTx(ps[i]) }

  predicate ValidBlock(p: BlockParts) {
    IsSize(p.count, |p.txs|) && Sliceable(|p.txs|, LIST_SIZE) && ValidTxs(p.txs)
  }

  function BytesOfCoins(ps: seq<CoinParts>): Buf
    requires ValidCoins(ps)
  {
    if ps == [] then [] else BytesOfCoin(ps[0]) + BytesOfCoins(ps[1..])
  }

  function BytesOfTx(p: TxParts): Buf
    requires ValidTx(p)
  {
    p.count + BytesOfCoins(p.coins)
  }

  function BytesOfTxs(ps: seq<TxParts>): Buf
    requires ValidTxs(ps)
  {
    if ps == [] then [] else BytesOfTx(ps[0]) + BytesOfTxs(ps[1..])
  }

  function BytesOfBlock(p: BlockParts): Buf
    requires ValidBlock(p)
  {
    p.count + BytesOfTxs(p.txs)
  }

  function CoinsFrom(ps: seq<CoinParts>): (cs: seq<Coin>)
    requires ValidCoins(ps)
    ensures |cs| == |ps|
  {
    if ps == [] then [] else [CoinFrom(ps[0])] + CoinsFrom(ps[1..])
  }

  function TxFrom(p: TxParts): TxUndo
    requires ValidTx(p)
  {
    TxUndo(CoinsFrom(p.coins))
  }

  function TxsFrom(ps: seq<TxParts>): (ts: seq<TxUndo>)
    requires ValidTxs(ps)
    ensures |ts| == |ps|
  {
    if ps == [] then [] else [TxFrom(ps[0])] + TxsFrom(ps[1..])
  }

  function BlockFrom(p: BlockParts): BlockUndo
    requires ValidBlock(p)
  {
    BlockUndo(TxsFrom(p.txs))
  }

  predicate CanonicalCoins(ps: seq<CoinParts>)
    requires ValidCoins(ps)
  {
    forall i :: 0 <= i < |ps| ==> CanonicalCoin(ps[i])
  }

  /** The shortest form of the count, and canonical coins. */
  predicate CanonicalTx(p: TxParts)
    requires ValidTx(p)
  {
    EncodeCompactSize(|p.coins|) == p.count && CanonicalCoins(p.coins)
  }

  predicate CanonicalTxs(ps: seq<TxParts>)
    requires ValidTxs(ps)
  {
    forall i :: 0 <= i < |ps| ==> CanonicalTx(ps[i])
  }

  predicate CanonicalBlock(p: BlockParts)
    requires ValidBlock(p)
  {
    EncodeCompactSize(|p.txs|) == p.count && CanonicalTxs(p.txs)
  }

  // What was consumed

  lemma ParsedSize(s: Buf) returns (count: Buf)
    requires DecodeCompactSize(s).result.Ok?
    ensures IsSize(count, DecodeCompactSize(s).result.value) && s == count + DecodeCompactSize(s).rest
  {
    var k := 1 + Width(s[0]);
    count := s[..k];
    assert s[1..][..k - 1] == count[1..] == count[1..][..k - 1];
    assert s == count + s[k..];
    assert count[1..][k - 1..] == [];
  }

  lemma {:induction false} ParsedCoins(acc: seq<Coin>, s: Buf, n: nat) returns (ps: seq<CoinParts>)
    requires DecodeCoins(acc, s, n).result.Ok?
    ensures |ps| == n && ValidCoins(ps) && s == BytesOfCoins(ps) + DecodeCoins(acc, s, n).rest
    ensures DecodeCoins(acc, s, n).result.value == acc + CoinsFrom(ps)
    decreases n
  {
    hide DecodeCoin, BytesOfCoin, ValidCoin, CoinFrom, CoinOf, CoinBytes;
    if n == 0 {
      ps := [];
    } else {
      var p := ParsedCoinParts(s);
      var coin, rest := DecodeCoin(s).result.value, DecodeCoin(s).rest;
      var tail := ParsedCoins(acc + [coin], rest, n - 1);
      ps := [p] + tail;
      assert ps[1..] == tail;
      assert acc + [coin] + CoinsFrom(tail) == acc + CoinsFrom(ps);
    }
  }

  lemma ParsedCoinParts(s: Buf) returns (p: CoinParts)
    requires DecodeCoin(s).result.Ok?
    ensures ValidCoin(p) && s == BytesOfCoin(p) + DecodeCoin(s).rest && DecodeCoin(s).result.value == CoinFrom(p)
  {
    hide DecodeCoin, CoinOf, CoinBytes, PayloadSize, Wrap, Value, Terminated;
    var v1, v2, v3, payload := ParsedCoin(s);
    p := CoinParts(v1, v2, v3, payload);
  }

  lemma ParsedTx(s: Buf) returns (p: TxParts)
    requires DecodeTxUndo(s).result.Ok?
    ensures ValidTx(p) && s == BytesOfTx(p) + DecodeTxUndo(s).rest && DecodeTxUndo(s).result.value == TxFrom(p)
  {
    hide DecodeCompactSize, DecodeCoins, BytesOfCoins, CoinsFrom, IsSize, ValidCoins;
    var count := ParsedSize(s);
    var n, tail := DecodeCompactSize(s).result.value, DecodeCompactSize(s).rest;
    var coins := ParsedCoins([], tail, n);
    p := TxParts(count, coins);
    assert [] + CoinsFrom(coins) == CoinsFrom(coins);
    assert s == count + (BytesOfCoins(coins) + DecodeTxUndo(s).rest);
  }

  lemma {:induction false} ParsedTxs(acc: seq<TxUndo>, s: Buf, n: nat) returns (ps: seq<TxParts>)
    requires DecodeTxUndos(acc, s, n).result.Ok?
    ensures |ps| == n && ValidTxs(ps) && s == BytesOfTxs(ps) + DecodeTxUndos(acc, s, n).rest
    ensures DecodeTxUndos(acc, s, n).result.value == acc + TxsFrom(ps)
    decreases n
  {
    hide DecodeTxUndo, BytesOfTx, ValidTx, TxFrom;
    if n == 0 {
      ps := [];
    } else {
      var p := ParsedTx(s);
      var tx, rest := DecodeTxUndo(s).result.value, DecodeTxUndo(s).rest;
      var tail := ParsedTxs(acc + [tx], rest, n - 1);
      ps := [p] + tail;
      assert ps[1..] == tail;
      assert acc + [tx] + TxsFrom(tail) == acc + TxsFrom(ps);
    }
  }

  /** Whatever parses as a block is a count and lists of coins in some form, and those bytes are what was consumed. */
  lemma ParsedBlock(s: Buf) returns (p: BlockParts)
    requires DecodeBlockUndo(s).result.Ok?
    ensures ValidBlock(p) && s == BytesOfBlock(p) + DecodeBlockUndo(s).rest
    ensures DecodeBlockUndo(s).result.value == BlockFrom(p)
  {
    hide DecodeCompactSize, DecodeTxUndos, BytesOfTxs, TxsFrom, IsSize, ValidTxs;
    var count := ParsedSize(s);
    var n, tail := DecodeCompactSize(s).result.value, DecodeCompactSize(s).rest;
    var txs := ParsedTxs([], tail, n);
    p := BlockParts(count, txs);
    assert [] + TxsFrom(txs) == TxsFrom(txs);
    assert s == count + (BytesOfTxs(txs) + DecodeBlockUndo(s).rest);
  }

  // Printing it again

  /** Reading the parts of a coin gives the coin. */
  lemma CoinPartsParse(p: CoinParts, rest: Buf)
    requires ValidCoin(p)
    ensures DecodeCoin(BytesOfCoin(p) + rest) == Parsed(Ok(CoinFrom(p)), rest)
  {
    hide DecodeVarInt, DecodeScript, Wrap, Value, Expand, CoinOf, PayloadSize, EncodeDummy, DecodeDummy, Terminated;
    var packed := Wrap(Value(p.height));
    var height := packed / 2 % TWO32;
    var t3 := p.size + (p.payload + rest);
    var t2 := p.amount + t3;
    var t1 := EncodeDummy(height) + t2;
    assert BytesOfCoin(p) + rest == p.height + t1;
    DecodeTerminated(p.height, t1);
    DummyParses(height, t2);
    DecodeTerminated(p.amount, t3);
    ScriptPartsParse(p.size, p.payload, rest);
    CoinOfIs(p.height, p.amount, p.size, p.payload);
  }

  lemma DummyParses(height: uint32, rest: Buf)
    ensures DecodeDummy(EncodeDummy(height) + rest, height) == Parsed(Ok(()), rest)
  {
    if height > 0 {
      assert ([0] + rest)[..1] == [0] && ([0] + rest)[1..] == rest;
    }
  }

  lemma ScriptPartsParse(v: Buf, payload: Buf, rest: Buf)
    requires Terminated(v) && |payload| == PayloadSize(Wrap(Value(v))) && Sliceable(|payload|, 1)
    ensures DecodeScript(v + (payload + rest)) == Parsed(Ok(Expand(Wrap(Value(v)), payload)), rest)
  {
    hide DecodeVarInt, Wrap, Value, Expand, PayloadSize, Terminated;
    DecodeTerminated(v, payload + rest);
    TakePrefix(payload, rest);
  }

  lemma ExpandedFits(size: uint64, payload: Buf)
    requires |payload| == PayloadSize(size) && Sliceable(|payload|, 1)
    ensures Sliceable(|Expand(size, payload)|, 1)
  {
  }

  /** A parsed coin in front of other bytes prints to its own bytes iff they were canonical. */
  lemma CoinInFrontIff(p: CoinParts, a: Buf, b: Buf)
    requires ValidCoin(p)
    ensures EncodeCoin(CoinFrom(p)) + a == BytesOfCoin(p) + b <==> CanonicalCoin(p) && a == b
  {
    hide EncodeCoin, DecodeCoin, CoinBytes, PayloadSize, Wrap, Value, Terminated, Expand, IsSpecial, ReadBack;
    hide Amount.Decompress;
    var c := CoinFrom(p);
    assert Writable(c) by {
      CoinOfIs(p.height, p.amount, p.size, p.payload);
      ExpandedFits(Wrap(Value(p.size)), p.payload);
    }
    CoinRoundTrip(c, a);
    CoinPartsParse(p, b);
    ReprintCoinIff(p.height, p.amount, p.size, p.payload);
    if EncodeCoin(c) + a == BytesOfCoin(p) + b {
      SameBack(EncodeCoin(c), BytesOfCoin(p), a);
    }
  }

  lemma SameBack(front: Buf, front': Buf, back: Buf)
    requires front + back == front' + back
    ensures front == front'
  {
    assert (front + back)[..|front|] == front && (front' + back)[..|front'|] == front';
  }

  lemma {:induction false} CoinsInFrontIff(ps: seq<CoinParts>, a: Buf, b: Buf)
    requires ValidCoins(ps)
    ensures EncodeCoins(CoinsFrom(ps)) + a == BytesOfCoins(ps) + b <==> CanonicalCoins(ps) && a == b
    decreases |ps|
  {
    hide EncodeCoin, BytesOfCoin, CoinFrom, CanonicalCoin, ValidCoin;
    if ps == [] {
      assert [] + a == a && [] + b == b;
    } else {
      var cs := CoinsFrom(ps);
      assert cs[0] == CoinFrom(ps[0]) && cs[1..] == CoinsFrom(ps[1..]);
      var a', b' := EncodeCoins(cs[1..]) + a, BytesOfCoins(ps[1..]) + b;
      assert EncodeCoins(cs) + a == EncodeCoin(cs[0]) + a';
      assert BytesOfCoins(ps) + b == BytesOfCoin(ps[0]) + b';
      CoinInFrontIff(ps[0], a', b');
      CoinsInFrontIff(ps[1..], a, b);
      CanonicalParts(ps);
    }
  }

  lemma CanonicalParts(ps: seq<CoinParts>)
    requires ValidCoins(ps) && ps != []
    ensures CanonicalCoins(ps) <==> CanonicalCoin(ps[0]) && CanonicalCoins(ps[1..])
  {
    hide CanonicalCoin, ValidCoin;
    assert forall i :: 1 <= i < |ps| ==> ps[i] == ps[1..][i - 1];
  }

  /** A size in front of other bytes is the encoding of its number iff it is in the shortest form. */
  lemma SizeInFrontIff(count: Buf, n: nat, a: Buf, b: Buf)
    requires IsSize(count, n)
    ensures EncodeCompactSize(n) + a == count + b <==> EncodeCompactSize(n) == count && a == b
  {
    ReencodeIffShortest(count);
    var s := EncodeCompactSize(n);
    assert |s| == 1 + Width(s[0]);
    if s + a == count + b {
      assert s[0] == (s + a)[0] == (count + b)[0] == count[0];
      assert s == (s + a)[..|s|] == (count + b)[..|count|] == count;
      assert a == (s + a)[|s|..] == (count + b)[|count|..] == b;
    }
  }

  /** The same for the coins of a transaction. */
  lemma TxInFrontIff(p: TxParts, a: Buf, b: Buf)
    requires ValidTx(p)
    ensures EncodeTxUndo(TxFrom(p)) + a == BytesOfTx(p) + b <==> CanonicalTx(p) && a == b
  {
    hide EncodeCompactSize, EncodeCoins, BytesOfCoins, CoinsFrom, CanonicalCoins, IsSize, ValidCoins;
    var cs := CoinsFrom(p.coins);
    assert EncodeTxUndo(TxFrom(p)) + a == EncodeCompactSize(|p.coins|) + (EncodeCoins(cs) + a);
    assert BytesOfTx(p) + b == p.count + (BytesOfCoins(p.coins) + b);
    SizeInFrontIff(p.count, |p.coins|, EncodeCoins(cs) + a, BytesOfCoins(p.coins) + b);
    CoinsInFrontIff(p.coins, a, b);
  }

  lemma {:induction false} TxsInFrontIff(ps: seq<TxParts>, a: Buf, b: Buf)
    requires ValidTxs(ps)
    ensures EncodeTxUndos(TxsFrom(ps)) + a == BytesOfTxs(ps) + b <==> CanonicalTxs(ps) && a == b
    decreases |ps|
  {
    hide EncodeTxUndo, BytesOfTx, TxFrom, CanonicalTx, ValidTx;
    if ps == [] {
      assert [] + a == a && [] + b == b;
    } else {
      var ts := TxsFrom(ps);
      assert ts[0] == TxFrom(ps[0]) && ts[1..] == TxsFrom(ps[1..]);
      var a', b' := EncodeTxUndos(ts[1..]) + a, BytesOfTxs(ps[1..]) + b;
      assert EncodeTxUndos(ts) + a == EncodeTxUndo(ts[0]) + a';
      assert BytesOfTxs(ps) + b == BytesOfTx(ps[0]) + b';
      TxInFrontIff(ps[0], a', b');
      TxsInFrontIff(ps[1..], a, b);
      assert forall i :: 1 <= i < |ps| ==> ps[i] == ps[1..][i - 1];
    }
  }

  lemma BlockInFrontIff(p: BlockParts, a: Buf, b: Buf)
    requires ValidBlock(p)
    ensures EncodeBlockUndo(BlockFrom(p)) + a == BytesOfBlock(p) + b <==> CanonicalBlock(p) && a == b
  {
    hide EncodeCompactSize, EncodeTxUndos, BytesOfTxs, TxsFrom, CanonicalTxs, IsSize, ValidTxs;
    var ts := TxsFrom(p.txs);
    assert EncodeBlockUndo(BlockFrom(p)) + a == EncodeCompactSize(|p.txs|) + (EncodeTxUndos(ts) + a);
    assert BytesOfBlock(p) + b == p.count + (BytesOfTxs(p.txs) + b);
    SizeInFrontIff(p.count, |p.txs|, EncodeTxUndos(ts) + a, BytesOfTxs(p.txs) + b);
    TxsInFrontIff(p.txs, a, b);
  }

  /** A parsed transaction prints to the bytes that were consumed iff its count was in the shortest form and each coin
      canonical. */
  lemma ReprintTxIff(p: TxParts)
    requires ValidTx(p)
    ensures EncodeTxUndo(TxFrom(p)) == BytesOfTx(p) <==> CanonicalTx(p)
  {
    hide EncodeTxUndo, BytesOfTx, TxFrom, CanonicalTx, ValidTx;
    TxInFrontIff(p, [], []);
    assert EncodeTxUndo(TxFrom(p)) + [] == EncodeTxUndo(TxFrom(p)) && BytesOfTx(p) + [] == BytesOfTx(p);
  }

  /** The same for a whole block. */
  lemma ReprintBlockIff(p: BlockParts)
    requires ValidBlock(p)
    ensures EncodeBlockUndo(BlockFrom(p)) == BytesOfBlock(p) <==> CanonicalBlock(p)
  {
    hide EncodeBlockUndo, BytesOfBlock, BlockFrom, CanonicalBlock, ValidBlock;
    BlockInFrontIff(p, [], []);
    assert EncodeBlockUndo(BlockFrom(p)) + [] == EncodeBlockUndo(BlockFrom(p));
    assert BytesOfBlock(p) + [] == BytesOfBlock(p);
  }

  // Records

  /** The bytes that a successful read of a record consumed. */
  lemma ParsedRecord(s: Buf)
    requires DecodeRecord(s).result.Ok?
    ensures var rec := DecodeRecord(s).result.value;
            && |rec.rawUndo| < TWO32 && |rec.checksum| == 32
            && s == Framed(rec.rawUndo, rec.checksum) + DecodeRecord(s).rest
            && DecodeBlockUndo(rec.rawUndo).result == Ok(rec.blockUndo)
  {
    hide DecodeBlockUndo, DecodeBody, TakeFull, Framed;
    TakenParts(s, 4);
    var t1 := TakeFull(s, 4).rest;
    ParsedBody(t1);
    var (raw, checksum) := DecodeBody(t1).result.value;
    FramedIs(raw, checksum, DecodeBody(t1).rest);
  }

  lemma TakenParts(s: Buf, n: nat)
    requires TakeFull(s, n).result.Ok?
    ensures |TakeFull(s, n).result.value| == n && s == TakeFull(s, n).result.value + TakeFull(s, n).rest
  {
  }

  lemma ParsedBody(s: Buf)
    requires DecodeBody(s).result.Ok?
    ensures var (raw, checksum) := DecodeBody(s).result.value;
            && |raw| < TWO32 && |checksum| == 32
            && s == ToLittleEndian(|raw| % TWO32, 4) + (raw + (checksum + DecodeBody(s).rest))
  {
    hide FromLittleEndian, ToLittleEndian, Pow256, TakeFull;
    TakenParts(s, 4);
    var size, t1 := TakeFull(s, 4).result.value, TakeFull(s, 4).rest;
    FixedWidths();
    LittleEndianOnto(size);
    TakenParts(t1, FromLittleEndian(size));
    TakenParts(TakeFull(t1, FromLittleEndian(size)).rest, 32);
  }

  lemma FramedIs(body: Buf, checksum: Digest, rest: Buf)
    ensures Framed(body, checksum) + rest
            == MAINNET_MAGIC + (ToLittleEndian(|body| % TWO32, 4) + (body + (checksum + rest)))
  {
    hide ToLittleEndian;
    Regrouped(MAINNET_MAGIC, ToLittleEndian(|body| % TWO32, 4), body, checksum, rest);
  }

  lemma Regrouped(a: Buf, b: Buf, c: Buf, d: Buf, rest: Buf)
    ensures a + b + c + d + rest == a + (b + (c + (d + rest)))
  {
    assert c + d + rest == c + (d + rest);
    assert b + c + d + rest == b + (c + (d + rest)) by {
      assert b + c + d + rest == b + (c + d + rest);
    }
    assert a + b + c + d + rest == a + (b + c + d + rest);
  }

  lemma SameFrame(body: Buf, checksum: Digest, raw: Buf, checksum': Digest, rest: Buf)
    requires |raw| < TWO32
    ensures Framed(body, checksum) + rest == Framed(raw, checksum') + rest <==> body == raw && checksum == checksum'
  {
    hide ToLittleEndian, FromLittleEndian;
    var a, b := Framed(body, checksum), Framed(raw, checksum');
    if a + rest == b + rest {
      SameBack(a, b, rest);
      assert |body| == |raw|;
      assert body == a[8..8 + |body|] == b[8..8 + |raw|] == raw;
      assert checksum == a[8 + |body|..] == b[8 + |raw|..] == checksum';
    }
  }

  /** A parsed record, printed with some previous hash, gives the bytes that were consumed iff its block was canonical,
      nothing was left unread in its body, and its checksum is the one for that hash. */
  lemma ReprintRecordIff(sha: Sha, s: Buf, prevHash: Digest, p: BlockParts)
    requires DecodeRecord(s).result.Ok? && ValidBlock(p)
    requires var rec := DecodeRecord(s).result.value;
             && rec.blockUndo == BlockFrom(p)
             && rec.rawUndo == BytesOfBlock(p) + DecodeBlockUndo(rec.rawUndo).rest
    ensures var rec, rest := DecodeRecord(s).result.value, DecodeRecord(s).rest;
            EncodeRecord(sha, Item(rec.blockUndo, prevHash)) + rest == s
            <==> && CanonicalBlock(p) && DecodeBlockUndo(rec.rawUndo).rest == []
                 && rec.checksum == Checksum(sha, prevHash, rec.rawUndo)
  {
    hide DecodeRecord, DecodeBlockUndo, EncodeBlockUndo, BytesOfBlock, BlockFrom, CanonicalBlock, ValidBlock, Framed;
    ParsedRecord(s);
    var rec, rest := DecodeRecord(s).result.value, DecodeRecord(s).rest;
    var body, tail := EncodeBlockUndo(rec.blockUndo), DecodeBlockUndo(rec.rawUndo).rest;
    BlockInFrontIff(p, [], tail);
    assert body + [] == body;
    SameFrame(body, Checksum(sha, prevHash, body), rec.rawUndo, rec.checksum, rest);
  }
}

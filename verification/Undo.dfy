/** Coins, transaction undo lists and block undo lists. */
module Undo {
  import opened Bytes
  import opened Streams
  import opened VarInt
  import opened CompactSize
  import opened Script
  import Amount
  import AmountOverflow

  datatype TxOut = TxOut(value: int64, script: Buf)
  datatype Coin = Coin(height: uint32, coinBase: bool, out: TxOut)
  datatype TxUndo = TxUndo(prevouts: seq<Coin>)
  datatype BlockUndo = BlockUndo(txUndos: seq<TxUndo>)

  /** The sizes of a coin and of the list of a transaction in memory. */
  const COIN_SIZE := 40
  const LIST_SIZE := 24

  /** Coins, lists and blocks that Go can hold. */
  predicate Writable(c: Coin) { Sliceable(|c.out.script|, 1) }

  predicate WritableTx(t: TxUndo) {
    Sliceable(|t.prevouts|, COIN_SIZE) && forall i :: 0 <= i < |t.prevouts| ==> Writable(t.prevouts[i])
  }

  predicate WritableBlock(b: BlockUndo) {
    Sliceable(|b.txUndos|, LIST_SIZE) && forall i :: 0 <= i < |b.txUndos| ==> WritableTx(b.txUndos[i])
  }

  /** Amounts that the 64-bit compressor can represent. */
  predicate AmountFits(c: Coin) { Amount.Compress(ToUnsigned(c.out.value)) < TWO64 }

  predicate AmountsFitTx(t: TxUndo) { forall i :: 0 <= i < |t.prevouts| ==> AmountFits(t.prevouts[i]) }

  predicate AmountsFit(b: BlockUndo) { forall i :: 0 <= i < |b.txUndos| ==> AmountsFitTx(b.txUndos[i]) }

  function NormalCoin(c: Coin): Coin {
    c.(out := c.out.(script := Normal(c.out.script)))
  }

  function NormalCoins(cs: seq<Coin>): (ns: seq<Coin>)
    ensures |ns| == |cs| && forall i :: 0 <= i < |cs| ==> ns[i] == NormalCoin(cs[i])
  {
    if cs == [] then [] else [NormalCoin(cs[0])] + NormalCoins(cs[1..])
  }

  function NormalTx(t: TxUndo): TxUndo { TxUndo(NormalCoins(t.prevouts)) }

  function NormalTxs(ts: seq<TxUndo>): (ns: seq<TxUndo>)
    ensures |ns| == |ts| && forall i :: 0 <= i < |ts| ==> ns[i] == NormalTx(ts[i])
  {
    if ts == [] then [] else [NormalTx(ts[0])] + NormalTxs(ts[1..])
  }

  function NormalBlock(b: BlockUndo): BlockUndo { BlockUndo(NormalTxs(b.txUndos)) }

  /** What 64-bit compression and decompression make of a value. */
  function ReadBackValue(v: int64): int64 {
    ToSigned(Wrap(Amount.Decompress(Wrap(Amount.Compress(ToUnsigned(v))))))
  }

  /** What parsing a printed coin yields. */
  function ReadBack(c: Coin): Coin {
    c.(out := TxOut(ReadBackValue(c.out.value), Normal(c.out.script)))
  }

  function ReadBackCoins(cs: seq<Coin>): (rs: seq<Coin>)
    ensures |rs| == |cs| && forall i :: 0 <= i < |cs| ==> rs[i] == ReadBack(cs[i])
  {
    if cs == [] then [] else [ReadBack(cs[0])] + ReadBackCoins(cs[1..])
  }

  function ReadBackTx(t: TxUndo): TxUndo { TxUndo(ReadBackCoins(t.prevouts)) }

  function ReadBackTxs(ts: seq<TxUndo>): (rs: seq<TxUndo>)
    ensures |rs| == |ts| && forall i :: 0 <= i < |ts| ==> rs[i] == ReadBackTx(ts[i])
  {
    if ts == [] then [] else [ReadBackTx(ts[0])] + ReadBackTxs(ts[1..])
  }

  function ReadBackBlock(b: BlockUndo): BlockUndo { BlockUndo(ReadBackTxs(b.txUndos)) }

  // Printing

  function PackHeight(c: Coin): uint64 {
    c.height * 2 + if c.coinBase then 1 else 0
  }

  function EncodeOut(o: TxOut): Buf {
    EncodeVarInt(Wrap(Amount.Compress(ToUnsigned(o.value)))) + EncodeScript(o.script)
  }

  /** The byte that Bitcoin Core writes where a version used to be, present only above height zero. */
  function EncodeDummy(height: uint32): Buf {
    if height > 0 then [0] else []
  }

  function EncodeCoin(c: Coin): Buf {
    EncodeVarInt(PackHeight(c)) + (EncodeDummy(c.height) + EncodeOut(c.out))
  }

  function EncodeCoins(cs: seq<Coin>): Buf {
    if cs == [] then [] else EncodeCoin(cs[0]) + EncodeCoins(cs[1..])
  }

  function EncodeTxUndo(t: TxUndo): Buf {
    EncodeCompactSize(|t.prevouts|) + EncodeCoins(t.prevouts)
  }

  function EncodeTxUndos(ts: seq<TxUndo>): Buf {
    if ts == [] then [] else EncodeTxUndo(ts[0]) + EncodeTxUndos(ts[1..])
  }

  function EncodeBlockUndo(b: BlockUndo): Buf {
    EncodeCompactSize(|b.txUndos|) + EncodeTxUndos(b.txUndos)
  }

  method SerializeCoin(w: Writer, c: Coin)
    requires Writable(c)
    modifies w
    ensures w.out == old(w.out) + EncodeCoin(c)
  {
    hide EncodeVarInt, EncodeScript, Wrap, Amount.Compress;
    WriteVarInt(w, c.height * 2 + if c.coinBase then 1 else 0);
    if c.height > 0 {
      w.Write([0]);
    }
    var amount := Amount.CompressAmount(ToUnsigned(c.out.value));
    WriteVarInt(w, amount);
    WriteCompressedScript(w, c.out.script);
  }

  method SerializeTxUndo(w: Writer, t: TxUndo)
    requires WritableTx(t)
    modifies w
    ensures w.out == old(w.out) + EncodeTxUndo(t)
  {
    hide EncodeCompactSize, EncodeCoin;
    WriteCompactSize(w, |t.prevouts|);
    for i := 0 to |t.prevouts|
      invariant w.out + EncodeCoins(t.prevouts[i..]) == old(w.out) + EncodeTxUndo(t)
    {
      ghost var before := w.out;
      SerializeCoin(w, t.prevouts[i]);
      assert t.prevouts[i..][1..] == t.prevouts[i + 1..];
      assert w.out + EncodeCoins(t.prevouts[i + 1..]) == before + EncodeCoins(t.prevouts[i..]);
    }
  }

  method SerializeBlockUndo(w: Writer, b: BlockUndo)
    requires WritableBlock(b)
    modifies w
    ensures w.out == old(w.out) + EncodeBlockUndo(b)
  {
    hide EncodeCompactSize, EncodeTxUndo;
    WriteCompactSize(w, |b.txUndos|);
    for i := 0 to |b.txUndos|
      invariant w.out + EncodeTxUndos(b.txUndos[i..]) == old(w.out) + EncodeBlockUndo(b)
    {
      ghost var before := w.out;
      assert WritableTx(b.txUndos[i]);
      SerializeTxUndo(w, b.txUndos[i]);
      assert b.txUndos[i..][1..] == b.txUndos[i + 1..];
      assert w.out + EncodeTxUndos(b.txUndos[i + 1..]) == before + EncodeTxUndos(b.txUndos[i..]);
    }
  }

  // Parsing

  function DecodeOut(s: Buf): Parsed<TxOut> {
    var Parsed(amount, tail) := DecodeVarInt(s);
    if amount.Err? then Parsed(Err(amount.error), tail)
    else
      var Parsed(script, rest) := DecodeScript(tail);
      if script.Err? then Parsed(Err(script.error), rest)
      else Parsed(Ok(TxOut(ToSigned(Wrap(Amount.Decompress(amount.value))), script.value)), rest)
  }

  function DecodeDummy(s: Buf, height: uint32): Parsed<()> {
    if height == 0 then Parsed(Ok(()), s)
    else
      var Parsed(dummy, rest) := TakeFull(s, 1);
      if dummy.Err? then Parsed(Err(dummy.error), rest)
      else if dummy.value[0] != 0 then Parsed(Err(Malformed), rest)
      else Parsed(Ok(()), rest)
  }

  function DecodeCoin(s: Buf): Parsed<Coin> {
    var Parsed(packed, t1) := DecodeVarInt(s);
    if packed.Err? then Parsed(Err(packed.error), t1)
    else
      var height := packed.value / 2 % TWO32;
      var Parsed(dummy, t2) := DecodeDummy(t1, height);
      if dummy.Err? then Parsed(Err(dummy.error), t2)
      else
        var Parsed(out, rest) := DecodeOut(t2);
        if out.Err? then Parsed(Err(out.error), rest)
        else Parsed(Ok(Coin(height, packed.value % 2 == 1, out.value)), rest)
  }

  /** Reading `n` more coins behind those already read. */
  function DecodeCoins(acc: seq<Coin>, s: Buf, n: nat): Parsed<seq<Coin>>
    decreases n
  {
    if n == 0 then Parsed(Ok(acc), s)
    else
      var Parsed(coin, rest) := DecodeCoin(s);
      if coin.Err? then Parsed(Err(coin.error), rest)
      else DecodeCoins(acc + [coin.value], rest, n - 1)
  }

  function DecodeTxUndo(s: Buf): Parsed<TxUndo> {
    var Parsed(n, tail) := DecodeCompactSize(s);
    if n.Err? then Parsed(Err(n.error), tail)
    else if !Sliceable(n.value, COIN_SIZE) then Parsed(Err(Panic), tail)
    else
      var Parsed(coins, rest) := DecodeCoins([], tail, n.value);
      if coins.Err? then Parsed(Err(coins.error), rest)
      else Parsed(Ok(TxUndo(coins.value)), rest)
  }

  function DecodeTxUndos(acc: seq<TxUndo>, s: Buf, n: nat): Parsed<seq<TxUndo>>
    decreases n
  {
    if n == 0 then Parsed(Ok(acc), s)
    else
      var Parsed(tx, rest) := DecodeTxUndo(s);
      if tx.Err? then Parsed(Err(tx.error), rest)
      else DecodeTxUndos(acc + [tx.value], rest, n - 1)
  }

  function DecodeBlockUndo(s: Buf): Parsed<BlockUndo> {
    var Parsed(n, tail) := DecodeCompactSize(s);
    if n.Err? then Parsed(Err(n.error), tail)
    else if !Sliceable(n.value, LIST_SIZE) then Parsed(Err(Panic), tail)
    else
      var Parsed(txs, rest) := DecodeTxUndos([], tail, n.value);
      if txs.Err? then Parsed(Err(txs.error), rest)
      else Parsed(Ok(BlockUndo(txs.value)), rest)
  }

  method DeserializeCoin(r: Reader) returns (res: Result<Coin>)
    requires r.Valid()
    modifies r
    ensures r.Valid() && Parsed(res, r.Rest()) == DecodeCoin(old(r.Rest()))
  {
    hide DecodeVarInt, DecodeScript, Wrap, Amount.Decompress;
    var packed := ReadVarInt(r);
    if packed.Err? { return Err(packed.error); }
    var height := packed.value / 2 % TWO32;
    var coinBase := packed.value % 2 == 1;
    if height > 0 {
      var buf := r.ReadFull(1);
      if buf.Err? { return Err(buf.error); }
      if buf.value[0] != 0 { return Err(Malformed); }
    }
    var compressed := ReadVarInt(r);
    if compressed.Err? { return Err(compressed.error); }
    var value := Amount.DecompressAmount(compressed.value);
    var script := ReadCompressedScript(r);
    if script.Err? { return Err(script.error); }
    return Ok(Coin(height, coinBase, TxOut(ToSigned(value), script.value)));
  }

  method DeserializeTxUndo(r: Reader) returns (res: Result<TxUndo>)
    requires r.Valid()
    modifies r
    ensures r.Valid() && Parsed(res, r.Rest()) == DecodeTxUndo(old(r.Rest()))
  {
    hide DecodeCompactSize, DecodeCoin;
    var n := ReadCompactSize(r);
    if n.Err? { return Err(n.error); }
    if n.value * COIN_SIZE > MAX_ALLOC { return Err(Panic); }
    ghost var body := r.Rest();
    var coins: seq<Coin> := [];
    for i := 0 to n.value
      invariant r.Valid() && DecodeCoins(coins, r.Rest(), n.value - i) == DecodeCoins([], body, n.value)
    {
      var coin := DeserializeCoin(r);
      if coin.Err? { return Err(coin.error); }
      coins := coins + [coin.value];
    }
    return Ok(TxUndo(coins));
  }

  method DeserializeBlockUndo(r: Reader) returns (res: Result<BlockUndo>)
    requires r.Valid()
    modifies r
    ensures r.Valid() && Parsed(res, r.Rest()) == DecodeBlockUndo(old(r.Rest()))
  {
    hide DecodeCompactSize, DecodeTxUndo;
    var n := ReadCompactSize(r);
    if n.Err? { return Err(n.error); }
    if n.value * LIST_SIZE > MAX_ALLOC { return Err(Panic); }
    ghost var body := r.Rest();
    var txs: seq<TxUndo> := [];
    for i := 0 to n.value
      invariant r.Valid() && DecodeTxUndos(txs, r.Rest(), n.value - i) == DecodeTxUndos([], body, n.value)
    {
      var tx := DeserializeTxUndo(r);
      if tx.Err? { return Err(tx.error); }
      txs := txs + [tx.value];
    }
    return Ok(BlockUndo(txs));
  }

  // Parsing undoes printing

  lemma OutRoundTrip(o: TxOut, rest: Buf)
    requires Sliceable(|o.script|, 1)
    ensures DecodeOut(EncodeOut(o) + rest) == Parsed(Ok(TxOut(ReadBackValue(o.value), Normal(o.script))), rest)
  {
    hide EncodeVarInt, DecodeVarInt, EncodeScript, DecodeScript, Normal, Wrap, Amount.Compress, Amount.Decompress;
    var x := Wrap(Amount.Compress(ToUnsigned(o.value)));
    var tail := EncodeScript(o.script) + rest;
    assert EncodeOut(o) + rest == EncodeVarInt(x) + tail;
    VarIntRoundTrip(x, tail);
    ScriptRoundTrip(o.script, rest);
  }

  lemma ValueComesBackIff(v: int64)
    ensures ReadBackValue(v) == v <==> Amount.Compress(ToUnsigned(v)) < TWO64
  {
    hide Wrap, Amount.Compress, Amount.Decompress;
    AmountOverflow.RoundTripIff(ToUnsigned(v));
  }

  /** Every printed coin parses, with the following bytes unread; it is the coin in normal form iff its amount fits. */
  lemma CoinRoundTrip(c: Coin, rest: Buf)
    requires Writable(c)
    ensures DecodeCoin(EncodeCoin(c) + rest) == Parsed(Ok(ReadBack(c)), rest)
    ensures ReadBack(c) == NormalCoin(c) <==> AmountFits(c)
  {
    hide EncodeVarInt, DecodeVarInt, EncodeOut, DecodeOut, Normal, ReadBackValue, Amount.Compress;
    var packed := PackHeight(c);
    var tail := EncodeOut(c.out) + rest;
    assert EncodeCoin(c) + rest == EncodeVarInt(packed) + (EncodeDummy(c.height) + tail);
    VarIntRoundTrip(packed, EncodeDummy(c.height) + tail);
    assert packed / 2 % TWO32 == c.height && (packed % 2 == 1) == c.coinBase;
    assert (EncodeDummy(c.height) + tail)[|EncodeDummy(c.height)|..] == tail;
    OutRoundTrip(c.out, rest);
    CoinNormalIff(c);
  }

  lemma {:induction false} CoinsRoundTrip(acc: seq<Coin>, cs: seq<Coin>, rest: Buf)
    requires forall i :: 0 <= i < |cs| ==> Writable(cs[i])
    ensures DecodeCoins(acc, EncodeCoins(cs) + rest, |cs|) == Parsed(Ok(acc + ReadBackCoins(cs)), rest)
    decreases |cs|
  {
    hide EncodeCoin, DecodeCoin, ReadBack, Writable;
    if cs == [] {
      assert EncodeCoins(cs) + rest == rest;
      assert acc + ReadBackCoins(cs) == acc;
    } else {
      var tail := EncodeCoins(cs[1..]) + rest;
      assert EncodeCoins(cs) + rest == EncodeCoin(cs[0]) + tail;
      CoinRoundTrip(cs[0], tail);
      CoinsRoundTrip(acc + [ReadBack(cs[0])], cs[1..], rest);
      assert acc + [ReadBack(cs[0])] + ReadBackCoins(cs[1..]) == acc + ReadBackCoins(cs);
    }
  }

  lemma CoinNormalIff(c: Coin)
    ensures ReadBack(c) == NormalCoin(c) <==> AmountFits(c)
  {
    hide Normal, ReadBackValue, Amount.Compress;
    ValueComesBackIff(c.out.value);
  }

  lemma TxNormalIff(t: TxUndo)
    ensures ReadBackTx(t) == NormalTx(t) <==> AmountsFitTx(t)
  {
    hide ReadBack, NormalCoin, AmountFits;
    var rs, ns := ReadBackCoins(t.prevouts), NormalCoins(t.prevouts);
    forall i | 0 <= i < |t.prevouts|
      ensures rs[i] == ns[i] <==> AmountFits(t.prevouts[i])
    {
      CoinNormalIff(t.prevouts[i]);
    }
  }

  lemma BlockNormalIff(b: BlockUndo)
    ensures ReadBackBlock(b) == NormalBlock(b) <==> AmountsFit(b)
  {
    hide ReadBackTx, NormalTx, AmountsFitTx;
    var rs, ns := ReadBackTxs(b.txUndos), NormalTxs(b.txUndos);
    forall i | 0 <= i < |b.txUndos|
      ensures rs[i] == ns[i] <==> AmountsFitTx(b.txUndos[i])
    {
      TxNormalIff(b.txUndos[i]);
    }
  }

  lemma TxUndoRoundTrip(t: TxUndo, rest: Buf)
    requires WritableTx(t)
    ensures DecodeTxUndo(EncodeTxUndo(t) + rest) == Parsed(Ok(ReadBackTx(t)), rest)
    ensures ReadBackTx(t) == NormalTx(t) <==> AmountsFitTx(t)
  {
    hide EncodeCompactSize, DecodeCompactSize, DecodeCoins, EncodeCoins;
    var tail := EncodeCoins(t.prevouts) + rest;
    assert EncodeTxUndo(t) + rest == EncodeCompactSize(|t.prevouts|) + tail;
    CompactSizeRoundTrip(|t.prevouts|, tail);
    CoinsRoundTrip([], t.prevouts, rest);
    assert [] + ReadBackCoins(t.prevouts) == ReadBackCoins(t.prevouts);
    TxNormalIff(t);
  }

  lemma {:induction false} TxUndosRoundTrip(acc: seq<TxUndo>, ts: seq<TxUndo>, rest: Buf)
    requires forall i :: 0 <= i < |ts| ==> WritableTx(ts[i])
    ensures DecodeTxUndos(acc, EncodeTxUndos(ts) + rest, |ts|) == Parsed(Ok(acc + ReadBackTxs(ts)), rest)
    decreases |ts|
  {
    hide EncodeTxUndo, DecodeTxUndo, ReadBackTx, WritableTx;
    if ts == [] {
      assert EncodeTxUndos(ts) + rest == rest;
      assert acc + ReadBackTxs(ts) == acc;
    } else {
      var tail := EncodeTxUndos(ts[1..]) + rest;
      assert EncodeTxUndos(ts) + rest == EncodeTxUndo(ts[0]) + tail;
      TxUndoRoundTrip(ts[0], tail);
      TxUndosRoundTrip(acc + [ReadBackTx(ts[0])], ts[1..], rest);
      assert acc + [ReadBackTx(ts[0])] + ReadBackTxs(ts[1..]) == acc + ReadBackTxs(ts);
    }
  }

  /** Every printed block undo parses, with the following bytes unread; it is the normal form iff all amounts fit. */
  lemma BlockUndoRoundTrip(b: BlockUndo, rest: Buf)
    requires WritableBlock(b)
    ensures DecodeBlockUndo(EncodeBlockUndo(b) + rest) == Parsed(Ok(ReadBackBlock(b)), rest)
    ensures ReadBackBlock(b) == NormalBlock(b) <==> AmountsFit(b)
  {
    hide EncodeCompactSize, DecodeCompactSize, DecodeTxUndos, EncodeTxUndos;
    var tail := EncodeTxUndos(b.txUndos) + rest;
    assert EncodeBlockUndo(b) + rest == EncodeCompactSize(|b.txUndos|) + tail;
    CompactSizeRoundTrip(|b.txUndos|, tail);
    TxUndosRoundTrip([], b.txUndos, rest);
    assert [] + ReadBackTxs(b.txUndos) == ReadBackTxs(b.txUndos);
    BlockNormalIff(b);
  }

  lemma {:induction false} NormalCoinsEncodeAlike(cs: seq<Coin>)
    ensures EncodeCoins(NormalCoins(cs)) == EncodeCoins(cs)
  {
    hide EncodeVarInt, EncodeScript, Normal;
    if cs != [] {
      NormalScript(cs[0].out.script);
      NormalCoinsEncodeAlike(cs[1..]);
      assert NormalCoins(cs)[1..] == NormalCoins(cs[1..]);
    }
  }

  lemma {:induction false} NormalTxsEncodeAlike(ts: seq<TxUndo>)
    ensures EncodeTxUndos(NormalTxs(ts)) == EncodeTxUndos(ts)
  {
    if ts != [] {
      NormalCoinsEncodeAlike(ts[0].prevouts);
      NormalTxsEncodeAlike(ts[1..]);
      assert NormalTxs(ts)[1..] == NormalTxs(ts[1..]);
    }
  }

  /** The normal form prints to the same bytes. */
  lemma NormalBlockEncodesAlike(b: BlockUndo)
    ensures EncodeBlockUndo(NormalBlock(b)) == EncodeBlockUndo(b)
  {
    NormalTxsEncodeAlike(b.txUndos);
  }

  // Printing undoes parsing

  /** The parts of the input that a successful read of a coin consumed. */
  lemma ParsedCoin(s: Buf) returns (v1: Buf, v2: Buf, v3: Buf, payload: Buf)
    requires DecodeCoin(s).result.Ok?
    ensures Terminated(v1) && Terminated(v2) && Terminated(v3) && |payload| == PayloadSize(Wrap(Value(v3)))
    ensures Sliceable(|payload|, 1)
    ensures s == CoinBytes(v1, v2, v3, payload) + DecodeCoin(s).rest
    ensures DecodeCoin(s).result.value == CoinOf(v1, v2, v3, payload)
  {
    hide DecodeFrom, DecodeScript, Wrap, Value, Expand, CoinOf, PayloadSize;
    v1 := DecodeSplits(s, 0);
    var t1 := DecodeVarInt(s).rest;
    DecodeTerminated(v1, t1);
    var height := Wrap(Value(v1)) / 2 % TWO32;
    var t2 := DecodeDummy(t1, height).rest;
    assert t1 == EncodeDummy(height) + t2;
    v2 := DecodeSplits(t2, 0);
    var t3 := DecodeVarInt(t2).rest;
    DecodeTerminated(v2, t3);
    v3, payload := ParsedScript(t3);
    var rest := DecodeCoin(s).rest;
    assert s == v1 + (EncodeDummy(height) + (v2 + (v3 + (payload + rest))));
    CoinOfIs(v1, v2, v3, payload);
  }

  /** The bytes of a coin with the given VARINTs and script payload. */
  function CoinBytes(v1: Buf, v2: Buf, v3: Buf, payload: Buf): Buf
    requires Terminated(v1)
  {
    v1 + (EncodeDummy(Wrap(Value(v1)) / 2 % TWO32) + (v2 + (v3 + payload)))
  }

  /** The coin they denote. */
  function CoinOf(v1: Buf, v2: Buf, v3: Buf, payload: Buf): Coin
    requires Terminated(v1) && Terminated(v2) && Terminated(v3)
  {
    var packed := Wrap(Value(v1));
    Coin(packed / 2 % TWO32, packed % 2 == 1,
         TxOut(ToSigned(Wrap(Amount.Decompress(Wrap(Value(v2))))), Expand(Wrap(Value(v3)), payload)))
  }

  lemma CoinOfIs(v1: Buf, v2: Buf, v3: Buf, payload: Buf)
    requires Terminated(v1) && Terminated(v2) && Terminated(v3)
    ensures var packed := Wrap(Value(v1));
            CoinOf(v1, v2, v3, payload) ==
            Coin(packed / 2 % TWO32, packed % 2 == 1,
                 TxOut(ToSigned(Wrap(Amount.Decompress(Wrap(Value(v2))))), Expand(Wrap(Value(v3)), payload)))
  {
    hide Wrap, Value, Expand, Amount.Decompress;
  }

  /** A VARINT is the encoding of a number iff it denotes that number. */
  lemma EncodesIff(v: Buf, n: nat)
    requires Terminated(v)
    ensures EncodeVarInt(n) == v <==> Value(v) == n
  {
    hide EncodeVarInt, Value, Terminated;
    EncodeThenValue(n);
    ValueThenEncode(v);
  }

  /** The same in front of other bytes. */
  lemma EncodesInFrontIff(v: Buf, n: nat, bytes: Buf, bytes': Buf)
    requires Terminated(v)
    ensures EncodeVarInt(n) + bytes == v + bytes' <==> Value(v) == n && bytes == bytes'
  {
    hide EncodeVarInt, Value, Terminated;
    EncodesIff(v, n);
    EncodeThenValue(n);
    if EncodeVarInt(n) + bytes == v + bytes' {
      TerminatedPrefix(EncodeVarInt(n), bytes, v, bytes');
    }
  }

  lemma ReprintOutIff(v2: Buf, v3: Buf, payload: Buf)
    requires Terminated(v2) && Terminated(v3) && |payload| == PayloadSize(Wrap(Value(v3))) && Sliceable(|payload|, 1)
    ensures EncodeOut(TxOut(ToSigned(Wrap(Amount.Decompress(Wrap(Value(v2))))), Expand(Wrap(Value(v3)), payload)))
            == v2 + (v3 + payload)
            <==> && Value(v2) < TWO64 && Amount.Decompress(Wrap(Value(v2))) < TWO64
                 && EncodeScript(Expand(Wrap(Value(v3)), payload)) == v3 + payload
  {
    hide EncodeVarInt, Value, Terminated, Wrap, EncodeScript, Expand, Amount.Decompress, Amount.Compress;
    var x, script := Wrap(Value(v2)), Expand(Wrap(Value(v3)), payload);
    var x' := Wrap(Amount.Compress(Wrap(Amount.Decompress(x))));
    EncodesInFrontIff(v2, x', EncodeScript(script), v3 + payload);
    AmountOverflow.ReprintIff(x);
    if Value(v2) < TWO64 {
      WrapSmall(Value(v2));
    }
  }

  /** A coin that was read is written back as the bytes it was read from iff its height, amount and script size did not
      wrap, its amount fits, and a script read as plain bytes is none of the special ones. */
  lemma ReprintCoinIff(v1: Buf, v2: Buf, v3: Buf, payload: Buf)
    requires Terminated(v1) && Terminated(v2) && Terminated(v3)
    requires |payload| == PayloadSize(Wrap(Value(v3))) && Sliceable(|payload|, 1)
    ensures EncodeCoin(CoinOf(v1, v2, v3, payload)) == CoinBytes(v1, v2, v3, payload)
            <==> && Value(v1) < 2 * TWO32
                 && Value(v2) < TWO64 && Amount.Decompress(Wrap(Value(v2))) < TWO64
                 && Value(v3) < TWO64 && (Wrap(Value(v3)) < SPECIAL_SCRIPTS || !IsSpecial(payload))
  {
    hide EncodeVarInt, Value, Terminated, EncodeOut, EncodeScript, Expand, Amount.Decompress, IsSpecial,
        PayloadSize, CoinOf, Wrap, PackHeight, EncodeDummy;
    CoinOfIs(v1, v2, v3, payload);
    var packed, c := Wrap(Value(v1)), CoinOf(v1, v2, v3, payload);
    PackedHeight(packed, c);
    var dummy := EncodeDummy(c.height);
    EncodesInFrontIff(v1, PackHeight(c), dummy + EncodeOut(c.out), dummy + (v2 + (v3 + payload)));
    SameFront(dummy, EncodeOut(c.out), v2 + (v3 + payload));
    ReprintOutIff(v2, v3, payload);
    ReprintScriptIff(v3, payload);
    if Value(v1) < 2 * TWO32 {
      WrapSmall(Value(v1));
    }
  }

  lemma PackedHeight(packed: uint64, c: Coin)
    requires c.height == packed / 2 % TWO32 && c.coinBase == (packed % 2 == 1)
    ensures PackHeight(c) == packed % (2 * TWO32)
  {
  }

  lemma SameFront(front: Buf, a: Buf, b: Buf)
    ensures front + a == front + b <==> a == b
  {
    assert (front + a)[|front|..] == a && (front + b)[|front|..] == b;
  }
}

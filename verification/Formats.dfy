/** The file formats byte by byte, for readers and writers other than the program itself. */
module Formats {
  import opened Bytes
  import opened Streams
  import opened VarInt
  import opened CompactSize
  import opened Script
  import opened Undo
  import opened Record
  import opened Blockmap
  import BlockmapCodec
  import Amount
  import AmountOverflow

  /** `k` bytes of a file hold a number, its lowest byte first. */
  predicate Holds(s: Buf, at: nat, k: nat, n: nat) {
    at + k <= |s| && forall i :: 0 <= i < k ==> s[at + i] == n / Pow256(i) % 256
  }

  lemma LittleEndianHolds(n: nat, k: nat, front: Buf, back: Buf)
    ensures Holds(front + ToLittleEndian(n, k) + back, |front|, k, n)
  {
    forall i | 0 <= i < k
      ensures (front + ToLittleEndian(n, k) + back)[|front| + i] == n / Pow256(i) % 256
    {
      LittleEndianDigit(n, k, i);
    }
  }

  /** A record: magic, the length of the body modulo 2^32, the body, and the double hash of the previous block's hash
      and the body. */
  lemma RecordLayout(sha: Sha, item: Item)
    ensures var s := EncodeRecord(sha, item);
            var n := |s| - 40;
            && n >= 0 && s[..4] == [0xf9, 0xbe, 0xb4, 0xd9] && Holds(s, 4, 4, n % TWO32)
            && s[8..8 + n] == EncodeBlockUndo(item.blockUndo)
            && s[8 + n..] == sha(sha(item.prevHash + s[8..8 + n]))
  {
    hide EncodeBlockUndo, ToLittleEndian, Holds;
    var body := EncodeBlockUndo(item.blockUndo);
    var checksum := Checksum(sha, item.prevHash, body);
    var s := EncodeRecord(sha, item);
    assert s == MAINNET_MAGIC + ToLittleEndian(|body| % TWO32, 4) + (body + checksum);
    LittleEndianHolds(|body| % TWO32, 4, MAINNET_MAGIC, body + checksum);
  }

  /** A parsed record's checksum field verifies exactly when it is that hash, whatever the record was made of. */
  lemma ChecksumIs(sha: Sha, prevHash: Digest, body: Buf)
    ensures Checksum(sha, prevHash, body) == sha(sha(prevHash + body))
  {
  }

  /** A coin: twice the height plus the coinbase bit, a zero byte above height zero only, amount and script. */
  lemma CoinLayout(c: Coin)
    ensures var packed := EncodeVarInt(2 * c.height + if c.coinBase then 1 else 0);
            var s := EncodeCoin(c);
            && packed <= s
            && |s| == |packed| + (if c.height > 0 then 1 else 0) + |EncodeOut(c.out)|
            && (c.height > 0 ==> s[|packed|] == 0)
  {
    hide EncodeVarInt, EncodeOut;
  }

  /** A coin whose dummy byte is not zero does not parse. */
  lemma DummyByteMatters(height: uint32, coinBase: bool, dummy: byte, rest: Buf)
    requires height > 0 && dummy != 0
    ensures DecodeCoin(EncodeVarInt(2 * height + if coinBase then 1 else 0) + ([dummy] + rest))
            == Parsed(Err(Malformed), rest)
  {
    hide EncodeVarInt, DecodeVarInt, DecodeOut;
    var packed := 2 * height + if coinBase then 1 else 0;
    VarIntRoundTrip(packed, [dummy] + rest);
    assert ([dummy] + rest)[..1] == [dummy] && ([dummy] + rest)[1..] == rest;
  }

  /** The special scripts are written as one byte that tells them and 20 or 32 bytes of theirs; any other as its length
      plus six and itself. */
  lemma ScriptLayout(s: Buf)
    requires Sliceable(|s|, 1)
    ensures var t := EncodeScript(s);
            if IsP2PKH(s) then t == [0] + s[3..23]
            else if IsP2SH(s) then t == [1] + s[2..22]
            else if IsCompressedP2PK(s) then t == s[1..34]
            else if IsUncompressedP2PK(s) then |t| == 33 && t[0] == 4 + s[65] % 2 && t[1..] == s[2..34]
            else if IsSynthetic(s) then t == s
            else s == t[|t| - |s|..] && DecodeVarInt(t).result == Ok(|s| + 6) && |t| == |s| + |EncodeVarInt(|s| + 6)|
  {
    hide EncodeVarInt, DecodeVarInt;
    if !IsSpecialForm(s) {
      VarIntRoundTrip(|s| + 6, s);
    }
  }

  predicate IsSpecialForm(s: Buf) {
    IsP2PKH(s) || IsP2SH(s) || IsCompressedP2PK(s) || IsUncompressedP2PK(s) || IsSynthetic(s)
  }

  /** The amounts that are known from Bitcoin Core: one coin, a block reward of fifty, and all there will ever be. */
  lemma KnownAmounts()
    ensures Amount.Compress(0) == 0 && Amount.Compress(1) == 1
    ensures Amount.Compress(100_000_000) == 9 && Amount.Compress(5_000_000_000) == 50
    ensures Amount.Compress(2_100_000_000_000_000) == 21_000_000
  {
    hide Amount.Compress, Amount.Scale;
    CompressedForm(1, 0);
    CompressedForm(1, 8);
    CompressedForm(5, 9);
    CompressedForm(2_100_000, 9);
    Scaled(1);
    Scaled(5);
    Scaled(2_100_000);
    NoAmount();
  }

  lemma NoAmount()
    ensures Amount.Compress(0) == 0
  {
  }

  lemma Scaled(m: nat)
    ensures Amount.Scale(m, 0) == m && Amount.Scale(m, 8) == m * 100_000_000 && Amount.Scale(m, 9) == m * 1_000_000_000
  {
    AmountOverflow.ScalePowers(m);
    assert Amount.Scale(m, 9) == Amount.Scale(m, 8) * 10;
  }

  /** An amount of m times 10^e, with no more zeros to take off m or nine taken off already, is packed like this. */
  lemma CompressedForm(m: nat, e: nat)
    requires m > 0 && e <= 9 && (e < 9 ==> m % 10 != 0)
    ensures Amount.Compress(Amount.Scale(m, e))
            == if e < 9 then 10 * (9 * (m / 10) + m % 10 - 1) + e + 1 else 10 * m
  {
    hide Amount.Scale, Amount.StripZeros;
    Amount.StripOfScale(m, e, 0);
  }

  /** A blockmap: magic, version, number of entries modulo 2^32 and six zero bytes; then, for each entry in order, hash,
      offset in two's complement, and size. */
  lemma BlockmapLayout(es: seq<Entry>, i: nat)
    requires i < |es|
    ensures var s := BlockmapCodec.EncodeMap(es);
            var at := 16 + 44 * i;
            && |s| == 16 + 44 * |es| && s[..6] == [0x50, 0x41, 0x4D, 0x42, 1, 0]
            && Holds(s, 6, 4, |es| % TWO32) && s[10..16] == [0, 0, 0, 0, 0, 0]
            && s[at..at + 32] == es[i].hash
            && Holds(s, at + 32, 8, if es[i].offset < 0 then es[i].offset + TWO64 else es[i].offset)
            && Holds(s, at + 40, 4, es[i].size)
  {
    hide BlockmapCodec.EncodeEntries, BlockmapCodec.EncodeEntry, ToLittleEndian, Holds;
    var s := BlockmapCodec.EncodeMap(es);
    HeaderLayout(es);
    EntryPlace(es, i);
    var e := BlockmapCodec.EncodeEntry(es[i]);
    EntryLayout(es[i]);
    var entries := BlockmapCodec.EncodeEntries(es);
    assert s == BlockmapCodec.EncodeHeader(|es|) + entries && s[16..] == entries;
    assert s[16 + 44 * i..16 + 44 * i + 44] == s[16..][44 * i..44 * i + 44] == e;
    Moved(s, 16 + 44 * i, e, 32, 8, ToUnsigned(es[i].offset));
    Moved(s, 16 + 44 * i, e, 40, 4, es[i].size);
    assert s[16 + 44 * i..16 + 44 * i + 32] == s[16 + 44 * i..16 + 44 * i + 44][..32] == e[..32];
  }

  lemma Moved(s: Buf, at: nat, part: Buf, k: nat, width: nat, n: nat)
    requires at + |part| <= |s| && s[at..at + |part|] == part && Holds(part, k, width, n)
    ensures Holds(s, at + k, width, n)
  {
    forall i | 0 <= i < width
      ensures s[at + k + i] == n / Pow256(i) % 256
    {
      assert s[at..at + |part|][k + i] == part[k + i];
    }
  }

  lemma HeaderLayout(es: seq<Entry>)
    ensures var s := BlockmapCodec.EncodeMap(es);
            && |s| >= 16 && s[..6] == [0x50, 0x41, 0x4D, 0x42, 1, 0]
            && Holds(s, 6, 4, |es| % TWO32) && s[10..16] == [0, 0, 0, 0, 0, 0]
  {
    hide BlockmapCodec.EncodeEntries, Holds;
    var entries, count := BlockmapCodec.EncodeEntries(es), |es| % TWO32;
    var front := ToLittleEndian(BlockmapCodec.MAGIC, 4) + ToLittleEndian(BlockmapCodec.VERSION, 2);
    var zeros: Buf := [0, 0, 0, 0, 0, 0];
    var s := BlockmapCodec.EncodeMap(es);
    KnownHeader();
    hide ToLittleEndian;
    assert s == front + ToLittleEndian(count, 4) + (zeros + entries);
    LittleEndianHolds(count, 4, front, zeros + entries);
  }

  lemma KnownHeader()
    ensures ToLittleEndian(BlockmapCodec.MAGIC, 4) + ToLittleEndian(BlockmapCodec.VERSION, 2)
            == [0x50, 0x41, 0x4D, 0x42, 1, 0]
  {
    assert ToLittleEndian(BlockmapCodec.MAGIC, 4) == [0x50, 0x41, 0x4D, 0x42] by {
      assert ToLittleEndian(0x42, 1) == [0x42];
      assert ToLittleEndian(0x424D, 2) == [0x4D, 0x42];
      assert ToLittleEndian(0x424D41, 3) == [0x41, 0x4D, 0x42];
    }
    assert ToLittleEndian(0, 1) == [0];
  }

  lemma EntryLayout(e: Entry)
    ensures var b := BlockmapCodec.EncodeEntry(e);
            b[..32] == e.hash && Holds(b, 32, 8, ToUnsigned(e.offset)) && Holds(b, 40, 4, e.size)
  {
    hide ToLittleEndian, Holds;
    var b := BlockmapCodec.EncodeEntry(e);
    var offset, size := ToLittleEndian(ToUnsigned(e.offset), 8), ToLittleEndian(e.size, 4);
    LittleEndianHolds(ToUnsigned(e.offset), 8, e.hash, size);
    assert b == e.hash + offset + size;
    LittleEndianHolds(e.size, 4, e.hash + offset, []);
    assert b == (e.hash + offset) + size + [];
  }

  lemma {:induction false} EntryPlace(es: seq<Entry>, i: nat)
    requires i < |es|
    ensures |BlockmapCodec.EncodeEntries(es)| == 44 * |es|
    ensures BlockmapCodec.EncodeEntries(es)[44 * i..44 * i + 44] == BlockmapCodec.EncodeEntry(es[i])
    decreases |es|
  {
    hide BlockmapCodec.EncodeEntry;
    var first, rest := BlockmapCodec.EncodeEntry(es[0]), BlockmapCodec.EncodeEntries(es[1..]);
    if |es| > 1 {
      EntryPlace(es[1..], if i > 0 then i - 1 else 0);
      if i > 0 {
        assert (first + rest)[44 * i..44 * i + 44] == rest[44 * (i - 1)..44 * (i - 1) + 44];
      }
    }
    assert BlockmapCodec.EncodeEntries(es) == first + rest;
  }
}

/** Script compression with Bitcoin Core's six special forms. */
module Script {
  import opened Bytes
  import opened Streams
  import opened VarInt

  const OP_DUP: byte := 0x76
  const OP_HASH160: byte := 0xa9
  const OP_EQUALVERIFY: byte := 0x88
  const OP_CHECKSIG: byte := 0xac
  const OP_EQUAL: byte := 0x87
  const SPECIAL_SCRIPTS := 6

  /** The most bytes that Go gives to one slice on 64-bit Linux; asking for more is a panic. */
  const MAX_ALLOC := 0x1_0000_0000_0000

  /** The numbers of elements of this size that a slice can have. */
  predicate Sliceable(n: nat, size: nat) { n * size <= MAX_ALLOC }

  predicate IsP2PKH(s: Buf) {
    |s| == 25 && s[0] == OP_DUP && s[1] == OP_HASH160 && s[2] == 0x14 && s[23] == OP_EQUALVERIFY && s[24] == OP_CHECKSIG
  }

  predicate IsP2SH(s: Buf) {
    |s| == 23 && s[0] == OP_HASH160 && s[1] == 0x14 && s[22] == OP_EQUAL
  }

  predicate IsCompressedP2PK(s: Buf) {
    |s| == 35 && s[0] == 0x21 && (s[1] == 0x02 || s[1] == 0x03) && s[34] == OP_CHECKSIG
  }

  predicate IsUncompressedP2PK(s: Buf) {
    |s| == 67 && s[0] == 0x41 && s[1] == 0x04 && s[66] == OP_CHECKSIG
  }

  /** The 33-byte stand-in that reading yields for an uncompressed public key. */
  predicate IsSynthetic(s: Buf) {
    |s| == 33 && (s[0] == 0x04 || s[0] == 0x05)
  }

  /** What survives compression: everything, except that an uncompressed key keeps only x and the parity of y. */
  function Normal(s: Buf): Buf {
    if IsUncompressedP2PK(s) then [0x04 + s[65] % 2] + s[2..34] else s
  }

  function EncodeScript(s: Buf): Buf {
    if IsP2PKH(s) then [0x00] + s[3..23]
    else if IsP2SH(s) then [0x01] + s[2..22]
    else if IsCompressedP2PK(s) then [s[1]] + s[2..34]
    else if IsUncompressedP2PK(s) then [0x04 + s[65] % 2] + s[2..34]
    else if IsSynthetic(s) then s
    else EncodeVarInt(|s| + SPECIAL_SCRIPTS) + s
  }

  /** The number of payload bytes behind a compressed size. */
  function PayloadSize(size: uint64): nat {
    if size <= 0x01 then 20 else if size <= 0x05 then 32 else size - SPECIAL_SCRIPTS
  }

  function Expand(size: uint64, payload: Buf): Buf {
    if size == 0x00 then [OP_DUP, OP_HASH160, 0x14] + payload + [OP_EQUALVERIFY, OP_CHECKSIG]
    else if size == 0x01 then [OP_HASH160, 0x14] + payload + [OP_EQUAL]
    else if size <= 0x03 then [0x21, size] + payload + [OP_CHECKSIG]
    else if size <= 0x05 then [size] + payload
    else payload
  }

  function DecodeScript(s: Buf): Parsed<Buf> {
    var Parsed(size, tail) := DecodeVarInt(s);
    if size.Err? then Parsed(Err(size.error), tail)
    else if !Sliceable(PayloadSize(size.value), 1) then Parsed(Err(Panic), tail)
    else
      var Parsed(payload, rest) := TakeFull(tail, PayloadSize(size.value));
      if payload.Err? then Parsed(Err(payload.error), rest)
      else Parsed(Ok(Expand(size.value, payload.value)), rest)
  }

  method WriteCompressedScript(w: Writer, s: Buf)
    requires Sliceable(|s|, 1)
    modifies w
    ensures w.out == old(w.out) + EncodeScript(s)
  {
    if IsP2PKH(s) {
      w.Write([0x00] + s[3..23]);
    } else if IsP2SH(s) {
      w.Write([0x01] + s[2..22]);
    } else if IsCompressedP2PK(s) {
      w.Write([s[1]] + s[2..34]);
    } else if IsUncompressedP2PK(s) {
      w.Write([0x04 + s[65] % 2] + s[2..34]);
    } else if IsSynthetic(s) {
      w.Write(s);
    } else {
      WriteRawScript(w, s);
    }
  }

  method WriteRawScript(w: Writer, s: Buf)
    requires Sliceable(|s|, 1)
    modifies w
    ensures w.out == old(w.out) + (EncodeVarInt(|s| + SPECIAL_SCRIPTS) + s)
  {
    WriteVarInt(w, |s| + SPECIAL_SCRIPTS);
    w.Write(s);
  }

  method ReadCompressedScript(r: Reader) returns (res: Result<Buf>)
    requires r.Valid()
    modifies r
    ensures r.Valid() && Parsed(res, r.Rest()) == DecodeScript(old(r.Rest()))
  {
    var size := ReadVarInt(r);
    if size.Err? {
      return Err(size.error);
    }
    var n := size.value;
    if n == 0x00 {
      var hash := r.ReadFull(20);
      if hash.Err? { return Err(hash.error); }
      return Ok([OP_DUP, OP_HASH160, 0x14] + hash.value + [OP_EQUALVERIFY, OP_CHECKSIG]);
    } else if n == 0x01 {
      var hash := r.ReadFull(20);
      if hash.Err? { return Err(hash.error); }
      return Ok([OP_HASH160, 0x14] + hash.value + [OP_EQUAL]);
    } else if n == 0x02 || n == 0x03 {
      var x := r.ReadFull(32);
      if x.Err? { return Err(x.error); }
      return Ok([0x21, n] + x.value + [OP_CHECKSIG]);
    } else if n == 0x04 || n == 0x05 {
      var x := r.ReadFull(32);
      if x.Err? { return Err(x.error); }
      return Ok([n] + x.value);
    } else {
      if n - SPECIAL_SCRIPTS > MAX_ALLOC { return Err(Panic); }
      var raw := r.ReadFull(n - SPECIAL_SCRIPTS);
      if raw.Err? { return Err(raw.error); }
      return Ok(raw.value);
    }
  }

  lemma ExpandP2PKH(s: Buf)
    requires IsP2PKH(s)
    ensures Expand(0x00, s[3..23]) == s
  {
    assert s == [s[0], s[1], s[2]] + s[3..23] + [s[23], s[24]];
  }

  lemma ExpandP2SH(s: Buf)
    requires IsP2SH(s)
    ensures Expand(0x01, s[2..22]) == s
  {
    assert s == [s[0], s[1]] + s[2..22] + [s[22]];
  }

  lemma ExpandCompressedP2PK(s: Buf)
    requires IsCompressedP2PK(s)
    ensures Expand(s[1], s[2..34]) == s
  {
    assert s == [s[0], s[1]] + s[2..34] + [s[34]];
  }

  /** A compressed script is a VARINT size followed by the payload that size announces. */
  lemma EncodingShape(s: Buf) returns (size: uint64, payload: Buf)
    requires Sliceable(|s|, 1)
    ensures EncodeScript(s) == EncodeVarInt(size) + payload
    ensures |payload| == PayloadSize(size) && Sliceable(|payload|, 1)
    ensures Expand(size, payload) == Normal(s)
  {
    hide EncodeVarInt;
    if IsP2PKH(s) {
      size, payload := 0, s[3..23];
      ExpandP2PKH(s);
    } else if IsP2SH(s) {
      size, payload := 1, s[2..22];
      ExpandP2SH(s);
    } else if IsCompressedP2PK(s) {
      size, payload := s[1], s[2..34];
      ExpandCompressedP2PK(s);
    } else if IsUncompressedP2PK(s) {
      size, payload := 0x04 + s[65] % 2, s[2..34];
    } else if IsSynthetic(s) {
      size, payload := s[0], s[1..];
      assert s == [s[0]] + s[1..];
    } else {
      return |s| + SPECIAL_SCRIPTS, s;
    }
    SmallVarInt(size);
  }

  lemma SmallVarInt(n: nat)
    requires n < 128
    ensures EncodeVarInt(n) == [n]
  {
  }

  lemma ScriptRoundTrip(s: Buf, rest: Buf)
    requires Sliceable(|s|, 1)
    ensures DecodeScript(EncodeScript(s) + rest) == Parsed(Ok(Normal(s)), rest)
  {
    hide EncodeVarInt, DecodeVarInt, EncodeScript, Expand, Normal;
    var size, payload := EncodingShape(s);
    var tail := payload + rest;
    assert EncodeScript(s) + rest == EncodeVarInt(size) + tail;
    VarIntRoundTrip(size, tail);
    assert tail[..|payload|] == payload && tail[|payload|..] == rest;
  }

  /** Only uncompressed keys change, what they become is already normal, and it compresses to the same bytes. */
  lemma NormalScript(s: Buf)
    ensures Normal(s) == s <==> !IsUncompressedP2PK(s)
    ensures Normal(Normal(s)) == Normal(s)
    ensures EncodeScript(Normal(s)) == EncodeScript(s)
  {
    hide EncodeVarInt;
  }

  /** Writing, reading and writing again gives the same bytes, for every script. */
  lemma WriteReadWrite(s: Buf, rest: Buf)
    requires Sliceable(|s|, 1)
    ensures DecodeScript(EncodeScript(s) + rest).result.Ok?
    ensures EncodeScript(DecodeScript(EncodeScript(s) + rest).result.value) == EncodeScript(s)
  {
    hide EncodeScript, DecodeScript, Normal;
    ScriptRoundTrip(s, rest);
    NormalScript(s);
  }

  // Printing undoes parsing

  /** The scripts that are not written as their length and bytes. */
  predicate IsSpecial(s: Buf) {
    IsP2PKH(s) || IsP2SH(s) || IsCompressedP2PK(s) || IsUncompressedP2PK(s) || IsSynthetic(s)
  }

  /** The input that a successful read consumed: a complete VARINT and the payload that it announces. */
  lemma ParsedScript(s: Buf) returns (v: Buf, payload: Buf)
    requires DecodeScript(s).result.Ok?
    ensures Terminated(v) && |payload| == PayloadSize(Wrap(Value(v))) && s == v + (payload + DecodeScript(s).rest)
    ensures Sliceable(|payload|, 1)
    ensures DecodeScript(s).result.value == Expand(Wrap(Value(v)), payload)
  {
    hide DecodeFrom, Expand, Wrap, Value;
    v := DecodeSplits(s, 0);
    var tail := DecodeVarInt(s).rest;
    DecodeTerminated(v, tail);
    payload := tail[..PayloadSize(Wrap(Value(v)))];
    assert tail == payload + DecodeScript(s).rest;
  }

  lemma ExpandSpecial(size: uint64, payload: Buf)
    requires size < SPECIAL_SCRIPTS && |payload| == PayloadSize(size)
    ensures EncodeScript(Expand(size, payload)) == EncodeVarInt(size) + payload
  {
    hide EncodeVarInt;
    SmallVarInt(size);
    var s := Expand(size, payload);
    assert size == 0 ==> s[3..23] == payload;
    assert size == 1 ==> s[2..22] == payload;
    assert size == 2 || size == 3 ==> s[2..34] == payload;
  }

  lemma SpecialSize(s: Buf) returns (size: uint64, payload: Buf)
    requires IsSpecial(s)
    ensures size < SPECIAL_SCRIPTS && EncodeScript(s) == EncodeVarInt(size) + payload
  {
    hide EncodeVarInt;
    size := EncodeScript(s)[0];
    payload := EncodeScript(s)[1..];
    SmallVarInt(size);
    assert EncodeScript(s) == [size] + payload;
  }

  /** A script that was read is written back as the bytes it was read from iff its size fits 64 bits and, where it was
      read as plain bytes, it is none of the special scripts. */
  lemma ReprintScriptIff(v: Buf, payload: Buf)
    requires Terminated(v) && |payload| == PayloadSize(Wrap(Value(v))) && Sliceable(|payload|, 1)
    ensures var size := Wrap(Value(v));
            EncodeScript(Expand(size, payload)) == v + payload
            <==> Value(v) < TWO64 && (size < SPECIAL_SCRIPTS || !IsSpecial(payload))
  {
    hide EncodeVarInt, Value, Wrap, EncodeScript, Expand, Terminated;
    var size := Wrap(Value(v));
    var written, bytes := size, payload;
    if size < SPECIAL_SCRIPTS {
      ExpandSpecial(size, payload);
    } else {
      PlainExpand(size, payload);
      if IsSpecial(payload) {
        written, bytes := SpecialSize(payload);
      } else {
        PlainEncode(payload);
      }
    }
    EncodeThenValue(written);
    if Value(v) < TWO64 {
      WrapSmall(Value(v));
      ValueThenEncode(v);
    }
    if EncodeVarInt(written) + bytes == v + payload {
      TerminatedPrefix(EncodeVarInt(written), bytes, v, payload);
    }
  }

  lemma PlainExpand(size: uint64, payload: Buf)
    requires size >= SPECIAL_SCRIPTS
    ensures Expand(size, payload) == payload
  {
  }

  lemma PlainEncode(s: Buf)
    requires !IsSpecial(s)
    ensures EncodeScript(s) == EncodeVarInt(|s| + SPECIAL_SCRIPTS) + s
  {
  }
}

/** Bitcoin CompactSize: a length in one, three, five or nine bytes. */
module CompactSize {
  import opened Bytes
  import opened Streams

  function EncodeCompactSize(n: nat): Buf {
    if n <= 0xFC then [n]
    else if n <= 0xFFFF then [0xFD] + ToLittleEndian(n, 2)
    else if n <= 0xFFFF_FFFF then [0xFE] + ToLittleEndian(n, 4)
    else [0xFF] + ToLittleEndian(n, 8)
  }

  /** How many bytes follow the given first byte. */
  function Width(first: byte): nat {
    if first == 0xFD then 2 else if first == 0xFE then 4 else if first == 0xFF then 8 else 0
  }

  function DecodeCompactSize(s: Buf): Parsed<nat> {
    var Parsed(first, tail) := TakeFull(s, 1);
    if first.Err? then Parsed(Err(first.error), tail)
    else if Width(first.value[0]) == 0 then Parsed(Ok(first.value[0]), tail)
    else
      var Parsed(body, rest) := TakeFull(tail, Width(first.value[0]));
      if body.Err? then Parsed(Err(body.error), rest)
      else Parsed(Ok(FromLittleEndian(body.value)), rest)
  }

  method WriteCompactSize(w: Writer, n: uint64)
    modifies w
    ensures w.out == old(w.out) + EncodeCompactSize(n)
  {
    hide ToLittleEndian;
    if n <= 0xFC {
      w.Write([n]);
    } else if n <= 0xFFFF {
      w.Write([0xFD]);
      w.Write(ToLittleEndian(n, 2));
    } else if n <= 0xFFFF_FFFF {
      w.Write([0xFE]);
      w.Write(ToLittleEndian(n, 4));
    } else {
      w.Write([0xFF]);
      w.Write(ToLittleEndian(n, 8));
    }
  }

  method ReadCompactSize(r: Reader) returns (res: Result<nat>)
    requires r.Valid()
    modifies r
    ensures r.Valid() && Parsed(res, r.Rest()) == DecodeCompactSize(old(r.Rest()))
  {
    var first := r.ReadFull(1);
    if first.Err? {
      return Err(first.error);
    }
    var buf: Result<Buf>;
    match first.value[0] {
      case 0xFD => buf := r.ReadFull(2);
      case 0xFE => buf := r.ReadFull(4);
      case 0xFF => buf := r.ReadFull(8);
      case other => return Ok(other);
    }
    if buf.Err? {
      return Err(buf.error);
    }
    return Ok(FromLittleEndian(buf.value));
  }

  lemma CompactSizeRoundTrip(n: uint64, rest: Buf)
    ensures DecodeCompactSize(EncodeCompactSize(n) + rest) == Parsed(Ok(n), rest)
  {
    FixedWidths();
    var s := EncodeCompactSize(n);
    var tail := s[1..] + rest;
    assert (s + rest)[1..] == tail && (s + rest)[0] == s[0];
    if n > 0xFC {
      var k := Width(s[0]);
      assert s[1..] == ToLittleEndian(n, k);
      LittleEndianRoundTrip(n, k);
      assert tail[..k] == ToLittleEndian(n, k) && tail[k..] == rest;
    } else {
      assert tail == rest;
    }
  }

  /** Decoding accepts longer forms too: a size re-encodes to the bytes it came from iff they were the shortest form. */
  lemma ReencodeIffShortest(s: Buf)
    requires s != [] && |s| == 1 + Width(s[0])
    ensures DecodeCompactSize(s) == Parsed(Ok(if |s| == 1 then s[0] else FromLittleEndian(s[1..])), [])
    ensures DecodeCompactSize(s).result.value < TWO64
    ensures EncodeCompactSize(DecodeCompactSize(s).result.value) == s <==>
            (|s| == 1 || (|s| == 3 && FromLittleEndian(s[1..]) > 0xFC)
             || (|s| == 5 && FromLittleEndian(s[1..]) > 0xFFFF) || (|s| == 9 && FromLittleEndian(s[1..]) > 0xFFFF_FFFF))
  {
    FixedWidths();
    LittleEndianOnto(s[1..]);
    assert s[1..][..|s| - 1] == s[1..];
    assert s == [s[0]] + s[1..];
  }
}

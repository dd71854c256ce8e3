/** Bitcoin Core VARINT: big-endian base-128 digits with a continuation bit, each high digit stored minus one. */
module VarInt {
  import opened Bytes
  import opened Streams

  /** The continuation bytes for the part of the number above its lowest seven bits. */
  function EncodeHigh(n: nat): Buf {
    if n == 0 then [] else EncodeHigh((n - 1) / 128) + [(n - 1) % 128 + 128]
  }

  function EncodeVarInt(n: nat): Buf {
    EncodeHigh(n / 128) + [n % 128]
  }

  /** Shifting seven more bits into the 64-bit accumulator. */
  function ShiftIn(acc: uint64, b: byte): uint64 {
    Wrap(acc * 128 + b % 128)
  }

  /** Decoding with the source's 64-bit accumulator, wrapping at every shift and increment. */
  function DecodeFrom(s: Buf, acc: uint64): Parsed<uint64> {
    if s == [] then Parsed(Err(EndOfFile), [])
    else
      var n := ShiftIn(acc, s[0]);
      if s[0] < 128 then Parsed(Ok(n), s[1..])
      else DecodeFrom(s[1..], Wrap(n + 1))
  }

  function DecodeVarInt(s: Buf): Parsed<uint64> {
    DecodeFrom(s, 0)
  }

  /** The number a run of continuation bytes denotes, without any bound on its size. */
  function HighValue(high: Buf): nat {
    if high == [] then 0
    else HighValue(high[..|high| - 1]) * 128 + high[|high| - 1] % 128 + 1
  }

  /** A complete VARINT: continuation bytes, then one byte without the continuation bit. */
  predicate Terminated(s: Buf) {
    s != [] && s[|s| - 1] < 128 && forall i :: 0 <= i < |s| - 1 ==> s[i] >= 128
  }

  /** The unbounded number that a complete VARINT denotes. */
  function Value(s: Buf): nat
    requires Terminated(s)
  {
    HighValue(s[..|s| - 1]) * 128 + s[|s| - 1]
  }

  /** The largest value that `k` continuation bytes can hold. */
  function MaxHigh(k: nat): nat {
    if k == 0 then 0 else 128 * MaxHigh(k - 1) + 128
  }

  method WriteVarInt(w: Writer, n: uint64)
    modifies w
    ensures w.out == old(w.out) + EncodeVarInt(n)
    ensures |EncodeVarInt(n)| <= 10
  {
    var buf := new byte[10];
    var i := 9;
    buf[i] := n % 128;
    var m := n / 128;
    NineGroups();
    while m > 0
      invariant 0 <= i <= 9 && 0 <= m <= MaxHigh(i)
      invariant EncodeHigh(m) + buf[i..] == EncodeVarInt(n)
      invariant w.out == old(w.out)
    {
      ghost var tail := buf[i..];
      i := i - 1;
      buf[i] := (m - 1) % 128 + 128;
      assert buf[i..] == [(m - 1) % 128 + 128] + tail;
      m := (m - 1) / 128;
    }
    assert EncodeHigh(m) + buf[i..] == buf[i..];
    w.Write(buf[i..]);
  }

  method ReadVarInt(r: Reader) returns (res: Result<uint64>)
    requires r.Valid()
    modifies r
    ensures r.Valid() && Parsed(res, r.Rest()) == DecodeVarInt(old(r.Rest()))
  {
    hide Wrap, ShiftIn;
    var n: uint64 := 0;
    while true
      invariant r.Valid() && DecodeFrom(r.Rest(), n) == DecodeVarInt(old(r.Rest()))
      decreases |r.data| - r.pos
    {
      ghost var before := r.Rest();
      var b := r.ReadFull(1);
      if b.Err? {
        return Err(b.error);
      }
      assert before[..1] == [before[0]];
      n := ShiftIn(n, b.value[0]);
      if b.value[0] < 128 {
        return Ok(n);
      }
      n := Wrap(n + 1);
    }
  }

  lemma NineGroups()
    ensures MaxHigh(9) >= TWO64 / 128
  {
    assert MaxHigh(1) == 128;
    assert MaxHigh(2) == 128 * 128 + 128;
    assert MaxHigh(3) == 128 * MaxHigh(2) + 128;
    assert MaxHigh(4) == 128 * MaxHigh(3) + 128;
    assert MaxHigh(5) == 128 * MaxHigh(4) + 128;
    assert MaxHigh(6) == 128 * MaxHigh(5) + 128;
    assert MaxHigh(7) == 128 * MaxHigh(6) + 128;
    assert MaxHigh(8) == 128 * MaxHigh(7) + 128;
  }

  lemma {:induction false} EncodeHighShape(n: nat)
    ensures HighValue(EncodeHigh(n)) == n
    ensures forall i :: 0 <= i < |EncodeHigh(n)| ==> EncodeHigh(n)[i] >= 128
  {
    if n > 0 {
      EncodeHighShape((n - 1) / 128);
      assert EncodeHigh(n)[..|EncodeHigh(n)| - 1] == EncodeHigh((n - 1) / 128);
    }
  }

  lemma {:induction false} EncodeHighOnto(high: Buf)
    requires forall i :: 0 <= i < |high| ==> high[i] >= 128
    ensures EncodeHigh(HighValue(high)) == high
  {
    if high != [] {
      var front, last := high[..|high| - 1], high[|high| - 1];
      EncodeHighOnto(front);
      var v := HighValue(front);
      assert (v * 128 + last % 128) / 128 == v;
      assert (v * 128 + last % 128) % 128 == last % 128 == last - 128;
      assert high == front + [last];
    }
  }

  /** The encoding of every natural number is a complete VARINT denoting it. */
  lemma EncodeThenValue(n: nat)
    ensures Terminated(EncodeVarInt(n)) && Value(EncodeVarInt(n)) == n
  {
    EncodeHighShape(n / 128);
    var s := EncodeVarInt(n);
    assert s[..|s| - 1] == EncodeHigh(n / 128);
  }

  /** Every complete VARINT is the encoding of the number it denotes: there are no redundant encodings. */
  lemma ValueThenEncode(s: Buf)
    requires Terminated(s)
    ensures EncodeVarInt(Value(s)) == s
  {
    var high, last := s[..|s| - 1], s[|s| - 1];
    EncodeHighOnto(high);
    assert s == high + [last];
  }

  lemma HighValueSnoc(high: Buf, b: byte)
    ensures HighValue(high + [b]) == HighValue(high) * 128 + b % 128 + 1
  {
    assert (high + [b])[..|high|] == high;
  }

  /** Reading one byte with the number read so far in the accumulator. */
  lemma DecodeStep(high: Buf, b: byte, rest: Buf)
    ensures b < 128 ==>
      DecodeFrom([b] + rest, Wrap(HighValue(high))) == Parsed(Ok(Wrap(HighValue(high) * 128 + b)), rest)
    ensures b >= 128 ==>
      DecodeFrom([b] + rest, Wrap(HighValue(high))) == DecodeFrom(rest, Wrap(HighValue(high + [b])))
  {
    hide Wrap;
    var v := HighValue(high);
    WrapLinear(v, 128, b % 128);
    WrapLinear(v * 128 + b % 128, 1, 1);
    HighValueSnoc(high, b);
    assert ([b] + rest)[1..] == rest;
  }

  /** The decoder, started in the middle, computes the denoted number modulo 2^64 and stops after the last byte. */
  lemma {:induction false} DecodeFromSuffix(high: Buf, s: Buf, rest: Buf)
    requires Terminated(high + s) && s != []
    ensures DecodeFrom(s + rest, Wrap(HighValue(high))) == Parsed(Ok(Wrap(Value(high + s))), rest)
    decreases |s|
  {
    hide Wrap, DecodeFrom;
    var whole, tail := high + s, s[1..] + rest;
    assert s[0] == whole[|high|];
    assert s + rest == [s[0]] + tail;
    DecodeStep(high, s[0], tail);
    if |s| == 1 {
      assert whole[..|high|] == high;
      assert tail == rest;
    } else {
      assert (high + [s[0]]) + s[1..] == whole;
      DecodeFromSuffix(high + [s[0]], s[1..], rest);
    }
  }

  /** Reading any complete VARINT yields its value modulo 2^64 and leaves the following bytes unread. */
  lemma DecodeTerminated(s: Buf, rest: Buf)
    requires Terminated(s)
    ensures DecodeVarInt(s + rest) == Parsed(Ok(Wrap(Value(s))), rest)
  {
    hide DecodeFrom;
    WrapSmall(0);
    DecodeFromSuffix([], s, rest);
    assert [] + s == s;
  }

  lemma VarIntRoundTrip(n: uint64, rest: Buf)
    ensures DecodeVarInt(EncodeVarInt(n) + rest) == Parsed(Ok(n), rest)
  {
    hide Wrap, DecodeVarInt, EncodeVarInt, Value;
    EncodeThenValue(n);
    DecodeTerminated(EncodeVarInt(n), rest);
    WrapSmall(n);
  }

  /** A complete VARINT survives decoding and re-encoding exactly when the number it denotes fits 64 bits. */
  lemma ReencodeIffFits(s: Buf)
    requires Terminated(s)
    ensures DecodeVarInt(s) == Parsed(Ok(Wrap(Value(s))), [])
    ensures EncodeVarInt(DecodeVarInt(s).result.value) == s <==> Value(s) < TWO64
  {
    hide Wrap, DecodeVarInt, EncodeVarInt, Value;
    DecodeTerminated(s, []);
    assert s + [] == s;
    ValueThenEncode(s);
    EncodeThenValue(Wrap(Value(s)));
    if Value(s) < TWO64 {
      WrapSmall(Value(s));
    }
  }

  /** An input without a terminating byte is reported as a clean end of file, whatever its length. */
  lemma {:induction false} DecodeUnterminated(s: Buf, acc: uint64)
    requires forall i :: 0 <= i < |s| ==> s[i] >= 128
    ensures DecodeFrom(s, acc) == Parsed(Err(EndOfFile), [])
  {
    if s != [] {
      DecodeUnterminated(s[1..], Wrap(ShiftIn(acc, s[0]) + 1));
    }
  }

  /** Whatever is read successfully is a complete VARINT in front of what is left. */
  lemma {:induction false} DecodeSplits(s: Buf, acc: uint64) returns (v: Buf)
    requires DecodeFrom(s, acc).result.Ok?
    ensures Terminated(v) && s == v + DecodeFrom(s, acc).rest
  {
    hide Wrap;
    if s[0] < 128 {
      v := [s[0]];
    } else {
      var tail := DecodeSplits(s[1..], Wrap(ShiftIn(acc, s[0]) + 1));
      v := [s[0]] + tail;
    }
  }

  /** No complete VARINT is a proper prefix of another. */
  lemma TerminatedPrefix(v: Buf, a: Buf, v': Buf, a': Buf)
    requires Terminated(v) && Terminated(v') && v + a == v' + a'
    ensures v == v' && a == a'
  {
    var s := v + a;
    assert s[|v| - 1] == v[|v| - 1] && s[|v'| - 1] == v'[|v'| - 1];
    assert forall i :: 0 <= i < |v| ==> s[i] == v[i];
    assert forall i :: 0 <= i < |v'| ==> s[i] == v'[i];
    assert s[..|v|] == v && s[..|v'|] == v' && s[|v|..] == a && s[|v'|..] == a';
  }
}

/** Satoshi amount compression: strip up to nine decimal zeros, then pack the last digit and their count. */
module Amount {
  import opened Bytes

  /** n * 10^e */
  function Scale(n: nat, e: nat): nat {
    if e == 0 then n else Scale(n, e - 1) * 10
  }

  /** Divides by ten while the number is divisible and fewer than nine zeros have been removed. */
  function StripZeros(n: nat, e: nat): (r: (nat, nat))
    requires n > 0 && e <= 9
    ensures r.0 > 0 && e <= r.1 <= 9
    ensures r.1 < 9 ==> r.0 % 10 != 0
    decreases 9 - e
  {
    if n % 10 == 0 && e < 9 then StripZeros(n / 10, e + 1) else (n, e)
  }

  function Pack(m: nat, e: nat): nat
    requires m > 0 && (e < 9 ==> m % 10 != 0)
  {
    if e < 9 then 1 + (m / 10 * 9 + m % 10 - 1) * 10 + e else 1 + (m - 1) * 10 + 9
  }

  /** CompressAmount on unbounded numbers. */
  function Compress(n: nat): nat {
    if n == 0 then 0 else
      var (m, e) := StripZeros(n, 0);
      Pack(m, e)
  }

  /** The mantissa and the number of zeros in a positive compressed amount. */
  function Unpack(x: nat): (nat, nat)
    requires x > 0
  {
    var e := (x - 1) % 10;
    var y := (x - 1) / 10;
    (if e < 9 then y / 9 * 10 + y % 9 + 1 else y + 1, e)
  }

  /** DecompressAmount on unbounded numbers. */
  function Decompress(x: nat): nat {
    if x == 0 then 0 else Scale(Unpack(x).0, Unpack(x).1)
  }

  /** The source computes with wrapping 64-bit words: the result is the compressed number modulo 2^64. */
  method CompressAmount(n: uint64) returns (x: uint64)
    ensures x == Wrap(Compress(n))
  {
    if n == 0 {
      return 0;
    }
    var m: uint64, e := n, 0;
    while m % 10 == 0 && e < 9
      invariant m > 0 && 0 <= e <= 9
      invariant StripZeros(m, e) == StripZeros(n, 0)
      decreases 9 - e
    {
      m := m / 10;
      e := e + 1;
    }
    if e < 9 {
      var d := m % 10;
      m := m / 10;
      return Wrap(1 + (m * 9 + d - 1) * 10 + e);
    }
    return Wrap(1 + (m - 1) * 10 + 9);
  }

  method DecompressAmount(x: uint64) returns (n: uint64)
    ensures n == Wrap(Decompress(x))
  {
    if x == 0 {
      return 0;
    }
    var y := x - 1;
    var e := y % 10;
    y := y / 10;
    if e < 9 {
      var d := y % 9 + 1;
      y := y / 9;
      n := y * 10 + d;
    } else {
      n := y + 1;
    }
    assert (n, e) == Unpack(x);
    WrapSmall(n);
    hide Unpack, Wrap;
    ghost var m := n;
    ghost var k := 0;
    while e > 0
      invariant 0 <= e == Unpack(x).1 - k && 0 <= k
      invariant n == Wrap(Scale(m, k))
    {
      WrapLinear(Scale(m, k), 10, 0);
      n := Wrap(n * 10);
      e := e - 1;
      k := k + 1;
    }
  }

  lemma {:induction false} StripScale(n: nat, e: nat)
    requires n > 0 && e <= 9
    ensures Scale(StripZeros(n, e).0, StripZeros(n, e).1 - e) == n
    decreases 9 - e
  {
    if n % 10 == 0 && e < 9 {
      StripScale(n / 10, e + 1);
    }
  }

  lemma {:induction false} StripOfScale(m: nat, k: nat, e: nat)
    requires m > 0 && k + e <= 9 && (k + e < 9 ==> m % 10 != 0)
    ensures Scale(m, k) > 0 && StripZeros(Scale(m, k), e) == (m, k + e)
    decreases k
  {
    if k > 0 {
      StripOfScale(m, k - 1, e + 1);
      assert Scale(m, k) / 10 == Scale(m, k - 1);
      assert Scale(m, k) % 10 == 0;
    }
  }

  lemma {:induction false} ScaleGrows(n: nat, e: nat)
    ensures Scale(n, e) >= n && (e > 0 ==> Scale(n, e) >= 10 * n)
  {
    if e > 0 {
      ScaleGrows(n, e - 1);
    }
  }

  lemma PackUnpack(m: nat, e: nat)
    requires m > 0 && e <= 9 && (e < 9 ==> m % 10 != 0)
    ensures Pack(m, e) > 0 && Unpack(Pack(m, e)) == (m, e)
  {
    if e < 9 {
      var y := m / 10 * 9 + m % 10 - 1;
      assert Pack(m, e) - 1 == y * 10 + e;
      assert y / 9 == m / 10 && y % 9 == m % 10 - 1;
    }
  }

  lemma UnpackPack(x: nat)
    requires x > 0
    ensures var (m, e) := Unpack(x); m > 0 && e <= 9 && (e < 9 ==> m % 10 != 0) && Pack(m, e) == x
  {
    var e, y := (x - 1) % 10, (x - 1) / 10;
    if e < 9 {
      var m := y / 9 * 10 + y % 9 + 1;
      assert m % 10 == y % 9 + 1 && m / 10 == y / 9;
    }
  }

  lemma CompressThenDecompress(n: nat)
    ensures Decompress(Compress(n)) == n
  {
    if n > 0 {
      var (m, e) := StripZeros(n, 0);
      StripScale(n, 0);
      PackUnpack(m, e);
    }
  }

  lemma DecompressThenCompress(x: nat)
    ensures Compress(Decompress(x)) == x
  {
    if x > 0 {
      var (m, e) := Unpack(x);
      UnpackPack(x);
      StripOfScale(m, e, 0);
    }
  }

  lemma CompressBound(n: nat)
    ensures Compress(n) <= 9 * n
  {
    if n > 0 {
      var (m, e) := StripZeros(n, 0);
      StripScale(n, 0);
      ScaleGrows(m, e);
    }
  }

  /** A sufficient range: every amount up to (2^64 - 1) / 9, far above 21 million coins. */
  lemma SafeAmounts(n: nat)
    requires n <= (TWO64 - 1) / 9
    ensures Compress(n) < TWO64
  {
    CompressBound(n);
  }

  /** What an amount must satisfy for its compressed form to fit 64 bits. */
  lemma CompressFitsIff(n: uint64)
    ensures Compress(n) < TWO64 <==> n % 10 == 0 || n / 10 * 90 + n % 10 * 10 - 9 < TWO64
    ensures n % 10 != 0 ==> Compress(n) == n / 10 * 90 + n % 10 * 10 - 9
  {
    if n > 0 && n % 10 == 0 {
      var (m, e) := StripZeros(n, 0);
      StripScale(n, 0);
      ScaleGrows(m, e);
    }
  }

  /** On those amounts the 64-bit code neither wraps nor loses anything. */
  lemma AmountRoundTrip(n: uint64)
    requires Compress(n) < TWO64
    ensures Wrap(Decompress(Wrap(Compress(n)))) == n
  {
    hide Compress, Decompress, Wrap;
    CompressThenDecompress(n);
    WrapSmall(Compress(n));
    WrapSmall(n);
  }

  /** The largest int64 is beyond that range: its compressed form wraps and decompresses to something else. */
  lemma LargestInt64Lost()
    ensures Compress(TWO63 - 1) >= TWO64
    ensures Wrap(Decompress(Wrap(Compress(TWO63 - 1)))) != TWO63 - 1
  {
    assert StripZeros(9223372036854775807, 0) == (9223372036854775807, 0);
    assert Compress(9223372036854775807) == 83010348331692982261;
    assert 83010348331692982261 % TWO64 == 9223372036854775797;
    assert Unpack(9223372036854775797) == (1024819115206086199, 6);
  }
}

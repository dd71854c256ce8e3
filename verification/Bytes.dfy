/** Bytes, fixed-width little-endian integers and the result type shared by the codecs. */
module Bytes {
  type byte = x: int | 0 <= x < 256
  type Buf = seq<byte>

  const TWO32: int := 0x1_0000_0000
  const TWO63: int := 0x8000_0000_0000_0000
  const TWO64: int := 0x1_0000_0000_0000_0000

  type uint32 = x: int | 0 <= x < TWO32
  type uint64 = x: int | 0 <= x < TWO64
  type int64 = x: int | -TWO63 <= x < TWO63

  /** The 32 bytes of a SHA-256 digest. */
  type Digest = d: Buf | |d| == 32 witness seq(32, _ => 0)

  /** SHA-256 is a parameter everywhere: nothing depends on how it is computed. */
  type Sha = Buf -> Digest

  function Sha256d(sha: Sha, data: Buf): Digest { sha(sha(data)) }

  datatype Option<+T> = None | Some(value: T)

  /** How reading can fail: at a clean end of input, in the middle of an item, on bad content, or, with the whole
      program, on a length that no slice can have. */
  datatype ReadError = EndOfFile | UnexpectedEndOfFile | Malformed | Panic

  datatype Result<+T> = Ok(value: T) | Err(error: ReadError)

  /** The two's-complement reading of 64 bits, in both directions. */
  function ToUnsigned(v: int64): uint64 { if v < 0 then v + TWO64 else v }

  function ToSigned(u: uint64): int64 { if u >= TWO63 then u - TWO64 else u }

  /** What Go makes of the sum of two int64 that may leave the range upwards. */
  function Sum64(x: int): int { if x < TWO63 then x else x - TWO64 }

  /** A 64-bit word: what is left of a number when the bits above are lost. */
  function Wrap(n: nat): uint64 { n % TWO64 }

  lemma WrapSmall(n: nat)
    requires n < TWO64
    ensures Wrap(n) == n
  {
  }

  /** A multiplication and an addition can be carried out on the wrapped word. */
  lemma WrapLinear(n: nat, k: nat, d: nat)
    ensures Wrap(Wrap(n) * k + d) == Wrap(n * k + d)
  {
    var q := n / TWO64;
    assert n * k == (q * TWO64 + Wrap(n)) * k == q * k * TWO64 + Wrap(n) * k;
    ModMultiple(Wrap(n) * k + d, q * k);
  }

  lemma {:induction false} ModMultiple(x: nat, q: nat)
    ensures (q * TWO64 + x) % TWO64 == x % TWO64
  {
    if q > 0 {
      ModMultiple(x, q - 1);
      assert q * TWO64 + x == ((q - 1) * TWO64 + x) + TWO64;
    }
  }

  function Min(a: int, b: int): int { if a < b then a else b }

  function Max(a: int, b: int): int { if a < b then b else a }

  /** What a positional read of `len` bytes at `off` delivers from a file: the slice clipped at its end. */
  function Clip(file: Buf, off: nat, len: nat): Buf {
    if off >= |file| then [] else file[off..Min(off + len, |file|)]
  }

  function Pow256(k: nat): (p: nat)
    ensures p > 0
  {
    if k == 0 then 1 else 256 * Pow256(k - 1)
  }

  /** The low `k` bytes of `n`, least significant first. */
  function ToLittleEndian(n: nat, k: nat): (s: Buf)
    ensures |s| == k
  {
    if k == 0 then [] else [n % 256] + ToLittleEndian(n / 256, k - 1)
  }

  function FromLittleEndian(s: Buf): nat {
    if s == [] then 0 else s[0] + 256 * FromLittleEndian(s[1..])
  }

  lemma {:induction false} LittleEndianRoundTrip(n: nat, k: nat)
    requires n < Pow256(k)
    ensures FromLittleEndian(ToLittleEndian(n, k)) == n
  {
    if k > 0 {
      LittleEndianRoundTrip(n / 256, k - 1);
      assert ToLittleEndian(n, k)[1..] == ToLittleEndian(n / 256, k - 1);
    }
  }

  lemma {:induction false} LittleEndianOnto(s: Buf)
    ensures FromLittleEndian(s) < Pow256(|s|)
    ensures ToLittleEndian(FromLittleEndian(s), |s|) == s
  {
    if s != [] {
      LittleEndianOnto(s[1..]);
      var v := FromLittleEndian(s[1..]);
      assert (s[0] + 256 * v) % 256 == s[0];
      assert (s[0] + 256 * v) / 256 == v;
      assert s == [s[0]] + s[1..];
    }
  }

  /** The bytes are the digits of the number to base 256, the lowest first. */
  lemma {:induction false} LittleEndianDigit(n: nat, k: nat, i: nat)
    requires i < k
    ensures ToLittleEndian(n, k)[i] == n / Pow256(i) % 256
    decreases k
  {
    if i > 0 {
      LittleEndianDigit(n / 256, k - 1, i - 1);
      DividedTwice(n, Pow256(i - 1));
    }
  }

  lemma DividedTwice(n: nat, p: nat)
    requires p > 0
    ensures n / 256 / p == n / (256 * p)
  {
    var q, r := n / 256, n % 256;
    var q', r' := q / p, q % p;
    assert n == 256 * (q' * p + r') + r == q' * (256 * p) + (256 * r' + r);
    assert 256 * r' + r < 256 * p;
    QuotientIs(n, 256 * p, q', 256 * r' + r);
  }

  lemma QuotientIs(n: nat, d: nat, q: nat, r: nat)
    requires n == q * d + r && r < d
    ensures n / d == q
  {
    var q' := n / d;
    assert (q - q') * d == n % d - r;
    if q' < q {
      MultipleAtLeast(q - q', d);
    } else if q' > q {
      MultipleAtLeast(q' - q, d);
    }
  }

  lemma MultipleAtLeast(a: nat, d: nat)
    requires a >= 1
    ensures a * d >= d
  {
  }

  lemma FixedWidths()
    ensures Pow256(2) == 0x1_0000 && Pow256(4) == TWO32 && Pow256(8) == TWO64
  {
    assert Pow256(1) == 256;
    assert Pow256(2) == 0x1_0000;
    assert Pow256(3) == 0x100_0000;
    assert Pow256(4) == TWO32;
    assert Pow256(5) == 0x100_0000_0000;
    assert Pow256(6) == 0x1_0000_0000_0000;
    assert Pow256(7) == 0x100_0000_0000_0000;
  }
}

/** Fixed-width integers and byte orders. `BitConverter.GetBytes` writes the
    two's-complement bytes of a value least significant first (the byte order
    of every host .NET runs the controller on), `Enumerable.Reverse` turns that
    into most-significant-first order. */
module Bytes {

  newtype uint8 = x: int | 0 <= x < 0x100
  newtype uint16 = x: int | 0 <= x < 0x1_0000
  newtype int32 = x: int | -0x8000_0000 <= x < 0x8000_0000
  newtype int64 = x: int | -0x8000_0000_0000_0000 <= x < 0x8000_0000_0000_0000

  function Pow256(k: nat): (r: nat)
    ensures r > 0
  {
    if k == 0 then 1 else 256 * Pow256(k - 1)
  }

  /** The k low-order bytes of n in two's complement, least significant first.
      Dafny's `/` and `%` round towards negative infinity for a positive
      divisor, so a negative n yields its two's-complement bytes. */
  function LittleEndian(n: int, k: nat): (r: seq<uint8>)
    ensures |r| == k
    decreases k
  {
    if k == 0 then [] else [(n % 256) as uint8] + LittleEndian(n / 256, k - 1)
  }

  /** The k low-order bytes of n in two's complement, most significant first. */
  function BigEndian(n: int, k: nat): (r: seq<uint8>)
    ensures |r| == k
    decreases k
  {
    if k == 0 then [] else BigEndian(n / 256, k - 1) + [(n % 256) as uint8]
  }

  /** The unsigned number a least-significant-first byte string denotes. */
  function LittleEndianValue(s: seq<uint8>): (v: nat)
    ensures v < Pow256(|s|)
  {
    if s == [] then 0 else s[0] as nat + 256 * LittleEndianValue(s[1..])
  }

  /** The unsigned number a most-significant-first byte string denotes. */
  function BigEndianValue(s: seq<uint8>): (v: nat)
    ensures v < Pow256(|s|)
  {
    if s == [] then 0 else 256 * BigEndianValue(s[..|s| - 1]) + s[|s| - 1] as nat
  }

  function Reverse<T>(s: seq<T>): (r: seq<T>)
    ensures |r| == |s|
    ensures forall i | 0 <= i < |s| :: r[i] == s[|s| - 1 - i]
  {
    if s == [] then [] else Reverse(s[1..]) + [s[0]]
  }

  /** `BitConverter.GetBytes(long)`: the eight bytes of v, least significant first. */
  function LongBytes(v: int64): (r: seq<uint8>)
    ensures |r| == 8
  {
    LittleEndian(v as int, 8)
  }

  /** `BitConverter.GetBytes(int)`: the four bytes of v, least significant first. */
  function IntBytes(v: int32): (r: seq<uint8>)
    ensures |r| == 4
  {
    LittleEndian(v as int, 4)
  }

  lemma {:induction false} MulAtLeast(d: int, x: int)
    requires d > 0 && x >= 1
    ensures d * x >= d
  {
    assert d * x == d + d * (x - 1);
  }

  lemma {:induction false} DivModUnique(n: int, d: int, q: int, r: int)
    requires d > 0 && 0 <= r < d && n == d * q + r
    ensures n / d == q && n % d == r
  {
    var q', r' := n / d, n % d;
    assert n == d * q' + r';
    assert d * (q' - q) == r - r' by {
      assert d * q' - d * q == d * (q' - q);
    }
    if q' > q {
      MulAtLeast(d, q' - q);
    } else if q' < q {
      MulAtLeast(d, q - q');
    }
  }

  /** Taking n apart one byte at a time: the remainder modulo 256 * m is the
      low byte plus 256 times the remainder of the rest modulo m. */
  lemma {:induction false} ModSplit(n: int, m: int)
    requires m > 0
    ensures n % (256 * m) == n % 256 + 256 * ((n / 256) % m)
  {
    var q, r := n / 256, n % 256;
    var t, u := q / m, q % m;
    assert n == 256 * q + r;
    assert q == m * t + u;
    assert 256 * q == (256 * m) * t + 256 * u;
    DivModUnique(n, 256 * m, t, 256 * u + r);
  }

  lemma {:induction false} LittleEndianRoundTrip(n: int, k: nat)
    decreases k
    ensures LittleEndianValue(LittleEndian(n, k)) == n % Pow256(k)
  {
    if k > 0 {
      var s := LittleEndian(n, k);
      assert s[1..] == LittleEndian(n / 256, k - 1);
      LittleEndianRoundTrip(n / 256, k - 1);
      ModSplit(n, Pow256(k - 1));
    }
  }

  lemma {:induction false} BigEndianRoundTrip(n: int, k: nat)
    decreases k
    ensures BigEndianValue(BigEndian(n, k)) == n % Pow256(k)
  {
    if k > 0 {
      var s := BigEndian(n, k);
      assert s[..k - 1] == BigEndian(n / 256, k - 1);
      BigEndianRoundTrip(n / 256, k - 1);
      ModSplit(n, Pow256(k - 1));
    }
  }

  /** Reversing the little-endian bytes gives the big-endian ones. */
  lemma {:induction false} ReverseLittleEndian(n: int, k: nat)
    decreases k
    ensures Reverse(LittleEndian(n, k)) == BigEndian(n, k)
  {
    if k > 0 {
      ReverseLittleEndian(n / 256, k - 1);
      var s := LittleEndian(n, k);
      assert s[1..] == LittleEndian(n / 256, k - 1);
      assert Reverse(s) == Reverse(s[1..]) + [s[0]];
    }
  }

  /** The first j little-endian bytes of n do not depend on how many more follow. */
  lemma {:induction false} LittleEndianPrefix(n: int, j: nat, k: nat)
    requires j <= k
    decreases j
    ensures LittleEndian(n, k)[..j] == LittleEndian(n, j)
  {
    if j > 0 {
      LittleEndianPrefix(n / 256, j - 1, k - 1);
      assert LittleEndian(n, k)[1..] == LittleEndian(n / 256, k - 1);
    }
  }

  /** The last j big-endian bytes of n do not depend on how many more precede them. */
  lemma {:induction false} BigEndianSuffix(n: int, j: nat, k: nat)
    requires j <= k
    decreases j
    ensures BigEndian(n, k)[k - j..] == BigEndian(n, j)
  {
    if j > 0 {
      BigEndianSuffix(n / 256, j - 1, k - 1);
      var s := BigEndian(n, k);
      assert s[..k - 1] == BigEndian(n / 256, k - 1);
      assert s[k - j..] == s[..k - 1][k - j..] + [s[k - 1]];
    }
  }

  /** The bytes 4..7 of `BitConverter.GetBytes(v).Reverse()` are the low 32 bits
      of v, most significant first. */
  lemma {:induction false} LongLowWordBigEndian(v: int64)
    ensures Reverse(LongBytes(v))[4..8] == BigEndian(v as int, 4)
  {
    ReverseLittleEndian(v as int, 8);
    BigEndianSuffix(v as int, 4, 8);
  }

  /** `BitConverter.GetBytes(v).Reverse()` of an int is its big-endian encoding. */
  lemma {:induction false} IntBigEndian(v: int32)
    ensures Reverse(IntBytes(v)) == BigEndian(v as int, 4)
  {
    ReverseLittleEndian(v as int, 4);
  }

  /** The first six bytes of `BitConverter.GetBytes(v)` are the low 48 bits of v,
      least significant first. */
  lemma {:induction false} LongLow48LittleEndian(v: int64)
    ensures LongBytes(v)[..6] == LittleEndian(v as int, 6)
  {
    LittleEndianPrefix(v as int, 6, 8);
  }

  /** Concatenation regrouped: a, then b and c together, then d. */
  lemma {:induction false} ConcatRegroup<T>(a: seq<T>, b: seq<T>, c: seq<T>, d: seq<T>)
    ensures a + (b + c) + d == a + b + c + d
  {
  }
}

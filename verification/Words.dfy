/** Options, machine words, wrap-around arithmetic, shifts and the little-endian byte codec. */
module Words {

  datatype Option<+T> = None | Some(value: T)

  type u8 = x: int | 0 <= x < 0x100
  type u16 = x: int | 0 <= x < 0x1_0000
  type u32 = x: int | 0 <= x < 0x1_0000_0000
  type u64 = x: int | 0 <= x < 0x1_0000_0000_0000_0000

  const MAX16: u16 := 0xffff
  const MAX64: u64 := 0xffff_ffff_ffff_ffff
  const TWO64: nat := 0x1_0000_0000_0000_0000

  /** `a + b` on uint64_t, written without a modulus. */
  function Add64(a: u64, b: u64): u64 {
    if a + b <= MAX64 then a + b else a + b - TWO64
  }

  /** `a - b` on uint64_t. */
  function Sub64(a: u64, b: u64): u64 {
    if b <= a then a - b else a - b + TWO64
  }

  function Pow2(n: nat): (p: nat)
    ensures p >= 1
  {
    if n == 0 then 1 else 2 * Pow2(n - 1)
  }

  /** `n >> d` as `d` halvings. */
  function Shr(n: nat, d: nat): nat {
    if d == 0 then n else Shr(n, d - 1) / 2
  }

  lemma MulMonotone(a: nat, b: nat, m: nat)
    requires a <= b
    ensures a * m <= b * m
  {
    assert (b - a) * m >= 0;
  }

  lemma DoubleFactor(k: nat, p: nat)
    ensures k * (2 * p) == (2 * k) * p
  {
  }

  lemma HalveBracket(n: nat, q: nat, p: nat)
    requires q * p <= n < (q + 1) * p
    ensures (q / 2) * (2 * p) <= n < (q / 2 + 1) * (2 * p)
  {
    var k := q / 2;
    DoubleFactor(k, p);
    DoubleFactor(k + 1, p);
    MulMonotone(2 * k, q, p);
    MulMonotone(q + 1, 2 * k + 2, p);
  }

  lemma {:induction false} ShrBounds(n: nat, d: nat)
    ensures Shr(n, d) * Pow2(d) <= n < (Shr(n, d) + 1) * Pow2(d)
  {
    if d > 0 {
      ShrBounds(n, d - 1);
      HalveBracket(n, Shr(n, d - 1), Pow2(d - 1));
    }
  }

  /** A quotient is the only number whose multiple of `m` brackets `n`. */
  lemma BracketIsUnique(n: nat, m: nat, q: nat, r: nat)
    requires q * m <= n < (q + 1) * m
    requires r * m <= n < (r + 1) * m
    ensures q == r
  {
    if q < r {
      MulMonotone(q + 1, r, m);
    }
    if r < q {
      MulMonotone(r + 1, q, m);
    }
  }

  lemma {:induction false} ShrAdds(n: nat, a: nat, b: nat)
    ensures Shr(Shr(n, a), b) == Shr(n, a + b)
  {
    if b > 0 {
      ShrAdds(n, a, b - 1);
    }
  }

  lemma {:induction false} ShrMonotone(m: nat, n: nat, d: nat)
    requires m <= n
    ensures Shr(m, d) <= Shr(n, d)
  {
    if d > 0 {
      ShrMonotone(m, n, d - 1);
    }
  }

  lemma {:induction false} ShrZero(n: nat, d: nat)
    requires n < Pow2(d)
    ensures Shr(n, d) == 0
  {
    ShrBounds(n, d);
    BracketIsUnique(n, Pow2(d), Shr(n, d), 0);
  }

  lemma {:induction false} Pow2Adds(a: nat, b: nat)
    ensures Pow2(a) * Pow2(b) == Pow2(a + b)
  {
    if a > 0 {
      Pow2Adds(a - 1, b);
      assert Pow2(a) * Pow2(b) == 2 * (Pow2(a - 1) * Pow2(b));
    }
  }

  lemma {:induction false} Pow2Monotone(a: nat, b: nat)
    requires a <= b
    ensures Pow2(a) <= Pow2(b)
  {
    if a < b {
      Pow2Monotone(a, b - 1);
    }
  }

  /** The position of the highest set bit (Util_log2floor). */
  function Log2Floor(x: nat): (h: nat)
    requires x >= 1
    ensures Pow2(h) <= x < 2 * Pow2(h)
  {
    if x == 1 then 0 else 1 + Log2Floor(x / 2)
  }

  /** Util_log2ceil: `x & (x - 1)` is zero exactly on the powers of two. */
  function Log2Ceil(x: nat): (h: nat)
    requires x >= 1
    ensures x <= Pow2(h)
    ensures x > 1 ==> h > 0 && Pow2(h - 1) < x
    ensures x == 1 ==> h == 0
  {
    var f := Log2Floor(x);
    if x == Pow2(f) then f else f + 1
  }

  lemma HeightBound(count: nat)
    requires 2 <= count <= Pow2(63)
    ensures 0 < Log2Ceil(count) <= 63
  {
    var h := Log2Ceil(count);
    if h > 63 {
      Pow2Monotone(63, h - 1);
    }
  }

  /** The `n` low bytes of `x`, least significant first. */
  function LittleEndian(x: nat, n: nat): (s: seq<u8>)
    ensures |s| == n
  {
    if n == 0 then [] else [x % 256] + LittleEndian(x / 256, n - 1)
  }

  function FromLittleEndian(s: seq<u8>): nat {
    if |s| == 0 then 0 else s[0] + 256 * FromLittleEndian(s[1..])
  }

  lemma {:induction false} FromLittleEndianBound(s: seq<u8>)
    ensures FromLittleEndian(s) < Pow2(8 * |s|)
  {
    if |s| > 0 {
      FromLittleEndianBound(s[1..]);
      assert 8 * |s| == 8 + 8 * |s[1..]|;
      Pow2Adds(8, 8 * |s[1..]|);
      assert Pow2(8) == 256;
    }
  }

  lemma {:induction false} LittleEndianRoundTrip(x: nat, n: nat)
    requires x < Pow2(8 * n)
    ensures FromLittleEndian(LittleEndian(x, n)) == x
  {
    if n > 0 {
      Pow2Adds(8, 8 * (n - 1));
      assert Pow2(8) == 256;
      assert x / 256 < Pow2(8 * (n - 1));
      LittleEndianRoundTrip(x / 256, n - 1);
      assert LittleEndian(x, n)[1..] == LittleEndian(x / 256, n - 1);
    }
  }

  lemma Pow2Of64()
    ensures Pow2(64) == TWO64
  {
    assert Pow2(8) == 256;
    hide Pow2;
    Pow2Adds(8, 8);
    Pow2Adds(16, 16);
    Pow2Adds(32, 32);
  }

  /** An 8-byte read of a uint64_t on a little-endian host. */
  function ReadU64(s: seq<u8>): u64
    requires |s| == 8
  {
    FromLittleEndianBound(s);
    Pow2Of64();
    FromLittleEndian(s)
  }

  function WriteU64(x: u64): (s: seq<u8>)
    ensures |s| == 8
  {
    LittleEndian(x, 8)
  }

  lemma ReadWriteU64(x: u64)
    ensures ReadU64(WriteU64(x)) == x
  {
    Pow2Of64();
    LittleEndianRoundTrip(x, 8);
  }
}

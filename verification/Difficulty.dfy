/**
 * Compact targets and difficulty arithmetic (difficulty.rs) over unbounded integers.
 */
module Difficulty {
  import opened Words

  const TWO24: nat := 0x100_0000
  const SIGN: nat := 0x80_0000
  const MAX_COMPACT: u32 := 0x207f_ffff
  const NO_TARGET: u32 := 0xffff_ffff
  const ANN_WAIT_PERIOD: nat := 3

  function Size(compact: u32): nat { compact / TWO24 }
  function Word(compact: u32): nat { compact % SIGN }
  predicate Negative(compact: u32) { compact / SIGN % 2 == 1 }

  /** bn_for_compact; a set sign bit makes it panic. */
  function BnForCompact(compact: u32): nat
    requires !Negative(compact)
  {
    var size := Size(compact);
    if size <= 3 then Shr(Word(compact), 8 * (3 - size)) else Word(compact) * Pow2(8 * (size - 3))
  }

  /** The number of significant bits. */
  function Bits(n: nat): nat { if n == 0 then 0 else Log2Floor(n) + 1 }

  function ByteLength(n: nat): nat { Bits(n) / 8 + if Bits(n) % 8 == 0 then 0 else 1 }

  /** The three leading bytes of an integer `size` bytes long. */
  function Leading(n: nat, size: nat): nat {
    if size <= 3 then n * Pow2(8 * (3 - size)) else Shr(n, 8 * (size - 3))
  }

  lemma BitsBracket(n: nat, k: nat)
    ensures Bits(n) <= k <==> n < Pow2(k)
  {
    if n > 0 {
      var h := Log2Floor(n);
      if h + 1 <= k { Pow2Monotone(h + 1, k); }
      if k <= h { Pow2Monotone(k, h); }
    }
  }

  lemma ByteBracket(n: nat)
    ensures n < Pow2(8 * ByteLength(n))
    ensures n > 0 ==> ByteLength(n) > 0 && Pow2(8 * (ByteLength(n) - 1)) <= n
  {
    BitsBracket(n, 8 * ByteLength(n));
    if n > 0 {
      BitsBracket(n, 8 * (ByteLength(n) - 1));
    }
  }

  lemma SmallPowers()
    ensures Pow2(8) == 0x100 && Pow2(16) == 0x1_0000 && Pow2(24) == TWO24
  {
    assert Pow2(4) == 16;
    Pow2Adds(4, 4);
    Pow2Adds(8, 8);
    Pow2Adds(16, 8);
  }

  lemma TwentyFourBits()
    ensures Pow2(24) == 0x100_0000
  {
    SmallPowers();
  }

  /** The leading bytes of an integer fill two to three bytes, and it lies just above them. */
  lemma LeadingBracket(n: nat)
    requires n > 0
    ensures var size, v := ByteLength(n), Leading(n, ByteLength(n));
            && 0x1_0000 <= v < TWO24
            && (size <= 3 ==> v == n * Pow2(8 * (3 - size)))
            && (size >= 3 ==> v * Pow2(8 * (size - 3)) <= n < (v + 1) * Pow2(8 * (size - 3)))
  {
    hide *;
    ByteBracket(n);
    var size := ByteLength(n);
    LeadingIs(n, size);
    if size <= 3 { ShortLeading(n, size); }
    if size >= 3 { LongLeading(n, size); }
  }

  lemma LeadingIs(n: nat, size: nat)
    ensures size <= 3 ==> Leading(n, size) == n * Pow2(8 * (3 - size))
    ensures size >= 3 ==> Leading(n, size) == Shr(n, 8 * (size - 3))
  {
    assert Shr(n, 0) == n && Pow2(0) == 1;
    hide Pow2, Shr;
  }

  lemma ShortLeading(n: nat, size: nat)
    requires 0 < size <= 3 && Pow2(8 * (size - 1)) <= n < Pow2(8 * size)
    ensures 0x1_0000 <= n * Pow2(8 * (3 - size)) < TWO24
  {
    SmallPowers();
    var p := Pow2(8 * (3 - size));
    Pow2Adds(8 * (size - 1), 8 * (3 - size));
    Pow2Adds(8 * size, 8 * (3 - size));
    MulMonotone(Pow2(8 * (size - 1)), n, p);
    MulMonotone(n + 1, Pow2(8 * size), p);
    assert (n + 1) * p == n * p + p;
  }

  lemma LongLeading(n: nat, size: nat)
    requires size >= 3 && Pow2(8 * (size - 1)) <= n < Pow2(8 * size)
    ensures var v, p := Shr(n, 8 * (size - 3)), Pow2(8 * (size - 3));
            0x1_0000 <= v < TWO24 && v * p <= n < (v + 1) * p
  {
    SmallPowers();
    var v, p := Shr(n, 8 * (size - 3)), Pow2(8 * (size - 3));
    ShrBounds(n, 8 * (size - 3));
    Pow2Adds(16, 8 * (size - 3));
    Pow2Adds(24, 8 * (size - 3));
    if v < 0x1_0000 { MulMonotone(v + 1, 0x1_0000, p); }
    if v >= TWO24 { MulMonotone(TWO24, v, p); }
  }

  /** compact_for_bn: three leading bytes and a length, moved up one byte if the sign bit would be set. */
  function CompactForBn(n: nat): u32
    requires ByteLength(n) < 255
  {
    var size := ByteLength(n);
    var v := Leading(n, size);
    if n > 0 then LeadingBracket(n); if v >= SIGN then v / 0x100 + (size + 1) * TWO24 else v + size * TWO24
    else size * TWO24
  }

  // ---------- the compact form is a floating-point number ----------

  /** `n` times 2^24 lies in the interval of a three-byte mantissa and a byte exponent. */
  predicate Rounds(n: nat, m: nat, e: nat) {
    0x8000 <= m < SIGN && m * Pow2(8 * e) <= n * TWO24 < (m + 1) * Pow2(8 * e)
  }

  lemma CompactFields(m: nat, e: nat)
    requires m < SIGN && e < 0x100
    ensures var c: u32 := m + e * TWO24;
            Word(c) == m && Size(c) == e && !Negative(c)
  {
  }

  lemma FieldsOf(c: u32)
    requires !Negative(c)
    ensures c == Word(c) + Size(c) * TWO24 && Word(c) < SIGN && Size(c) < 0x100
  {
  }

  lemma LeadingRounds(n: nat)
    requires n > 0
    ensures var size, v := ByteLength(n), Leading(n, ByteLength(n));
            v * Pow2(8 * size) <= n * TWO24 < (v + 1) * Pow2(8 * size) && 0x1_0000 <= v < TWO24
  {
    LeadingBracket(n);
    var size, v := ByteLength(n), Leading(n, ByteLength(n));
    hide ByteLength, Leading;
    if size <= 3 { ShortRounds(n, v, size); } else { LongRounds(n, v, size); }
  }

  lemma ShortRounds(n: nat, v: nat, size: nat)
    requires size <= 3 && v == n * Pow2(8 * (3 - size))
    ensures v * Pow2(8 * size) <= n * TWO24 < (v + 1) * Pow2(8 * size)
  {
    SmallPowers();
    Pow2Adds(8 * (3 - size), 8 * size);
    Swap(n, Pow2(8 * (3 - size)), Pow2(8 * size));
    assert (v + 1) * Pow2(8 * size) == v * Pow2(8 * size) + Pow2(8 * size);
  }

  lemma LongRounds(n: nat, v: nat, size: nat)
    requires size >= 3 && v * Pow2(8 * (size - 3)) <= n < (v + 1) * Pow2(8 * (size - 3))
    ensures v * Pow2(8 * size) <= n * TWO24 < (v + 1) * Pow2(8 * size)
  {
    PowerAbove(size);
    hide Pow2;
    ScaleBracket(n, v, Pow2(8 * (size - 3)), TWO24);
  }

  lemma PowerAbove(size: nat)
    requires size >= 3
    ensures Pow2(8 * size) == Pow2(8 * (size - 3)) * TWO24
  {
    SmallPowers();
    Pow2Adds(8 * (size - 3), 24);
  }

  lemma ScaleBracket(n: nat, v: nat, p: nat, t: nat)
    requires v * p <= n < (v + 1) * p && t > 0
    ensures v * (p * t) <= n * t < (v + 1) * (p * t)
  {
    MulMonotone(v * p, n, t);
    MulMonotone(n + 1, (v + 1) * p, t);
    Swap(v, p, t);
    Swap(v + 1, p, t);
    assert (n + 1) * t == n * t + t;
  }

  lemma Swap(a: nat, b: nat, c: nat)
    ensures a * b * c == a * (b * c)
  {
  }

  /** compact_for_bn gives the normalized form. */
  lemma CompactRounds(n: nat)
    requires n > 0 && ByteLength(n) < 255
    ensures var c := CompactForBn(n);
            !Negative(c) && Rounds(n, Word(c), Size(c))
  {
    LeadingRounds(n);
    var size, v := ByteLength(n), Leading(n, ByteLength(n));
    if v >= SIGN {
      CompactFields(v / 0x100, size + 1);
      OneByteUp(v, size, n);
    } else {
      CompactFields(v, size);
    }
  }

  lemma OneByteUp(v: nat, size: nat, n: nat)
    requires SIGN <= v < TWO24 && v * Pow2(8 * size) <= n * TWO24 < (v + 1) * Pow2(8 * size)
    ensures Rounds(n, v / 0x100, size + 1)
  {
    SmallPowers();
    var m, p := v / 0x100, Pow2(8 * size);
    Pow2Adds(8, 8 * size);
    Swap(m, 0x100, p);
    Swap(m + 1, 0x100, p);
    MulMonotone(m * 0x100, v, p);
    MulMonotone(v + 1, (m + 1) * 0x100, p);
  }

  /** Larger integers do not have smaller normalized forms. */
  lemma RoundsOrdered(a: nat, m: nat, e: nat, b: nat, k: nat, f: nat)
    requires Rounds(a, m, e) && Rounds(b, k, f) && a <= b
    ensures e < f || (e == f && m <= k)
  {
    if e > f {
      SmallPowers();
      Pow2Adds(8, 8 * f);
      Pow2Monotone(8 * (f + 1), 8 * e);
      MulMonotone(0x8000, m, Pow2(8 * e));
      Scale(Pow2(8 * (f + 1)), Pow2(8 * e), 0x8000);
      Swap(0x8000, 0x100, Pow2(8 * f));
      MulMonotone(k + 1, SIGN, Pow2(8 * f));
    } else if e == f && m > k {
      MulMonotone(k + 1, m, Pow2(8 * e));
    }
  }

  lemma Scale(a: nat, b: nat, m: nat)
    requires a <= b
    ensures m * a <= m * b
  {
    MulMonotone(a, b, m);
  }

  lemma SmallIsZero(n: nat)
    ensures n == 0 ==> ByteLength(n) == 0
  {
  }

  lemma ByteLengthMonotone(a: nat, b: nat)
    requires a <= b
    ensures ByteLength(a) <= ByteLength(b)
  {
    ByteBracket(b);
    BitsBracket(a, 8 * ByteLength(b));
  }

  /** compact_for_bn is monotone. */
  lemma CompactIsMonotone(a: nat, b: nat)
    requires a <= b && ByteLength(b) < 255
    ensures ByteLength(a) < 255 && CompactForBn(a) <= CompactForBn(b)
  {
    ByteLengthMonotone(a, b);
    if a > 0 {
      CompactRounds(a);
      CompactRounds(b);
      var c, d := CompactForBn(a), CompactForBn(b);
      RoundsOrdered(a, Word(c), Size(c), b, Word(d), Size(d));
      FieldsOf(c);
      FieldsOf(d);
      hide CompactForBn, Word, Size, Rounds;
    } else {
      assert CompactForBn(a) == 0;
    }
  }

  /** Up to three bytes nothing is lost; beyond, the mantissa times a power of two is the value. */
  lemma ValueOfRounded(n: nat, c: u32)
    requires !Negative(c) && Rounds(n, Word(c), Size(c))
    ensures Size(c) <= 3 ==> Word(c) == n * Pow2(8 * (3 - Size(c))) && BnForCompact(c) == n
    ensures Size(c) >= 3 ==> BnForCompact(c) <= n < BnForCompact(c) + Pow2(8 * (Size(c) - 3))
  {
    var m, e := Word(c), Size(c);
    hide Word, Size, Negative, Rounds, Shr, Pow2;
    if e <= 3 { ShortValue(n, m, e); }
    if e >= 3 { LongValue(n, m, e); }
    assert e == 3 ==> Shr(m, 0) == m * Pow2(0) by { ShrNothing(m); }
  }

  lemma ShrNothing(m: nat)
    ensures Shr(m, 0) == m * Pow2(0)
  {
  }

  lemma ShortValue(n: nat, m: nat, e: nat)
    requires Rounds(n, m, e) && e <= 3
    ensures m == n * Pow2(8 * (3 - e)) && Shr(m, 8 * (3 - e)) == n
  {
    SmallPowers();
    var p, q := Pow2(8 * e), Pow2(8 * (3 - e));
    Pow2Adds(8 * (3 - e), 8 * e);
    Swap(n, q, p);
    assert (n * q + 1) * p == n * q * p + p;
    BracketIsUnique(n * TWO24, p, m, n * q);
    ShrBounds(m, 8 * (3 - e));
    assert (n + 1) * q == n * q + q;
    BracketIsUnique(m, q, n, Shr(m, 8 * (3 - e)));
  }

  lemma LongValue(n: nat, m: nat, e: nat)
    requires Rounds(n, m, e) && e >= 3
    ensures m * Pow2(8 * (e - 3)) <= n < m * Pow2(8 * (e - 3)) + Pow2(8 * (e - 3))
  {
    SmallPowers();
    var p := Pow2(8 * (e - 3));
    Pow2Adds(8 * (e - 3), 24);
    Swap(m, p, TWO24);
    Swap(m + 1, p, TWO24);
    Unscale(m * p, n, (m + 1) * p);
    assert (m + 1) * p == m * p + p;
  }

  lemma Unscale(a: nat, n: nat, b: nat)
    requires a * TWO24 <= n * TWO24 < b * TWO24
    ensures a <= n < b
  {
  }

  /** Rounding is downwards and loses less than one part in 2^15. */
  lemma CompactRoundsDown(n: nat)
    requires ByteLength(n) < 255
    ensures !Negative(CompactForBn(n))
    ensures var r := BnForCompact(CompactForBn(n));
            r <= n && (n > 0 ==> (n - r) * 0x8000 < n) && (n == 0 ==> r == 0)
  {
    if n > 0 {
      CompactRounds(n);
      var c := CompactForBn(n);
      ValueOfRounded(n, c);
      if Size(c) > 3 {
        MulMonotone(0x8000, Word(c), Pow2(8 * (Size(c) - 3)));
      }
    } else {
      assert CompactForBn(n) == 0;
      ShrZero(0, 24);
    }
  }

  /** The compact values that are the compact form of something. */
  predicate Canonical(c: u32) {
    || c == 0
    || (!Negative(c) && Word(c) >= 0x8000 && (Size(c) < 3 ==> Word(c) % Pow2(8 * (3 - Size(c))) == 0))
  }

  lemma CanonicalIsExact(c: u32)
    requires Canonical(c) && c != 0
    ensures Rounds(BnForCompact(c), Word(c), Size(c))
  {
    var m, e, n := Word(c), Size(c), BnForCompact(c);
    assert m < SIGN;
    hide Word, Size, Negative, Shr, Pow2;
    if e < 3 {
      ShortExact(m, e, n);
    } else {
      LongExact(m, e);
      ShrNothing(m);
    }
    NextMultiple(m, Pow2(8 * e));
  }

  lemma NextMultiple(m: nat, p: nat)
    requires p > 0
    ensures m * p < (m + 1) * p
  {
  }

  lemma ShortExact(m: nat, e: nat, n: nat)
    requires e < 3 && m % Pow2(8 * (3 - e)) == 0 && n == Shr(m, 8 * (3 - e))
    ensures m * Pow2(8 * e) == n * TWO24
  {
    SmallPowers();
    var p, q := Pow2(8 * e), Pow2(8 * (3 - e));
    Pow2Adds(8 * (3 - e), 8 * e);
    ShrBounds(m, 8 * (3 - e));
    MultipleBracket(m, q, n);
    Swap(n, q, p);
  }

  lemma LongExact(m: nat, e: nat)
    requires e >= 3
    ensures m * Pow2(8 * e) == m * Pow2(8 * (e - 3)) * TWO24
  {
    SmallPowers();
    Pow2Adds(8 * (e - 3), 24);
    Swap(m, Pow2(8 * (e - 3)), TWO24);
  }

  lemma MultipleBracket(m: nat, q: nat, n: nat)
    requires q > 0 && m % q == 0 && n * q <= m < (n + 1) * q
    ensures m == n * q
  {
    var k := m / q;
    assert m == k * q;
    assert (k + 1) * q == k * q + q;
    BracketIsUnique(m, q, k, n);
  }

  lemma BnFits(c: u32)
    requires !Negative(c) && Size(c) <= 254
    ensures ByteLength(BnForCompact(c)) < 255
  {
    FieldsOf(c);
    var m, e, n := Word(c), Size(c), BnForCompact(c);
    hide Word, Size, Negative, Pow2, Shr, Bits, ByteLength;
    if e <= 3 { ShortFits(m, e); } else { LongFits(m, e); }
  }

  lemma ShortFits(m: nat, e: nat)
    requires m < SIGN && e <= 3
    ensures ByteLength(Shr(m, 8 * (3 - e))) < 255
  {
    SmallPowers();
    ShrBounds(m, 8 * (3 - e));
    Below(m, Shr(m, 8 * (3 - e)), Pow2(8 * (3 - e)));
    BitsBracket(Shr(m, 8 * (3 - e)), 24);
  }

  lemma LongFits(m: nat, e: nat)
    requires m < SIGN && 3 <= e <= 254
    ensures ByteLength(m * Pow2(8 * (e - 3))) < 255
  {
    PowerAbove(e);
    hide Pow2;
    MantissaBelow(m, Pow2(8 * (e - 3)));
    BitsBracket(m * Pow2(8 * (e - 3)), 8 * e);
  }

  lemma MantissaBelow(m: nat, p: nat)
    requires m < SIGN && p > 0
    ensures m * p < p * TWO24
  {
    MulMonotone(m + 1, TWO24, p);
    assert (m + 1) * p == m * p + p;
  }

  lemma Below(m: nat, s: nat, p: nat)
    requires p >= 1 && s * p <= m
    ensures s <= m
  {
    MulMonotone(1, p, s);
  }

  /** compact_for_bn inverts bn_for_compact on exactly the canonical values. */
  lemma CompactInverts(c: u32)
    requires !Negative(c) && Size(c) <= 254
    ensures ByteLength(BnForCompact(c)) < 255
    ensures CompactForBn(BnForCompact(c)) == c <==> Canonical(c)
  {
    BnFits(c);
    var n := BnForCompact(c);
    if n == 0 {
      SmallIsZero(n);
      assert CompactForBn(n) == 0;
      if Canonical(c) && c != 0 {
        CanonicalIsExact(c);
        RoundsPositive(n, Word(c), Size(c));
      }
    } else {
      if Canonical(c) { InvertsCanonical(c, n); }
      if CompactForBn(n) == c { InvertedIsCanonical(c, n); }
    }
  }

  lemma ZeroCompact()
    ensures !Negative(0) && BnForCompact(0) == 0
  {
    ShrZero(0, 24);
  }

  lemma InvertsCanonical(c: u32, n: nat)
    requires Canonical(c) && n == BnForCompact(c) && n > 0 && ByteLength(n) < 255
    ensures CompactForBn(n) == c
  {
    ZeroCompact();
    assert c != 0 && !Negative(c);
    hide CompactForBn, BnForCompact, Word, Size, Negative, Rounds, Canonical, ByteLength;
    var d := CompactForBn(n);
    CompactRounds(n);
    FieldsOf(c);
    FieldsOf(d);
    CanonicalIsExact(c);
    RoundsOrdered(n, Word(c), Size(c), n, Word(d), Size(d));
    RoundsOrdered(n, Word(d), Size(d), n, Word(c), Size(c));
  }

  lemma InvertedIsCanonical(c: u32, n: nat)
    requires n > 0 && ByteLength(n) < 255 && CompactForBn(n) == c
    ensures Canonical(c)
  {
    CompactRounds(n);
    ValueOfRounded(n, c);
    hide CompactForBn, BnForCompact, Word, Size, Negative;
    if Size(c) < 3 {
      MultipleModulo(n, Pow2(8 * (3 - Size(c))));
    }
  }

  lemma RoundsPositive(n: nat, m: nat, e: nat)
    requires Rounds(n, m, e)
    ensures n > 0
  {
    MulMonotone(0x8000, m, Pow2(8 * e));
  }

  lemma MultipleModulo(n: nat, q: nat)
    requires q > 0
    ensures n * q % q == 0
  {
    var r := n * q % q;
    var k := n * q / q;
    assert n * q == k * q + r;
    BracketIsUnique(n * q, q, n, k);
    assert (k + 1) * q == k * q + q && (n + 1) * q == n * q + q;
  }

  // ---------- work and effective difficulty ----------

  function Bn256(): nat { Pow2(256) }

  function Quotient(n: nat, m: nat): nat
    requires m > 0
  {
    n / m
  }

  function WorkForTar(target: nat): nat { Quotient(Bn256(), target + 1) }

  function TarForWork(work: nat): nat {
    if work == 0 then Bn256()
    else if Bits(work) > 256 then 0
    else
      BitsBracket(work, 256);
      Quotient(Bn256() - work, work)
  }

  function Cube(n: nat): nat { n * n * n }
  function Square(n: nat): nat { n * n }

  /** get_effective_work: infinite when there is nothing to multiply with. */
  function EffectiveWork(blkWork: nat, annWork: nat, annCount: nat): nat {
    if annWork == 0 || annCount == 0 then Bn256()
    else
      SquarePositive(annCount);
      Quotient(Quotient(Quotient(Cube(blkWork), 1024), annWork), Square(annCount))
  }

  lemma SquarePositive(n: nat)
    requires n > 0
    ensures Square(n) > 0
  {
  }

  function GetEffectiveTarget(blockTar: u32, annTar: u32, annCount: nat): u32
    requires !Negative(blockTar) && !Negative(annTar)
  {
    var work := EffectiveWork(WorkForTar(BnForCompact(blockTar)), WorkForTar(BnForCompact(annTar)), annCount);
    TarBounded(work);
    var out := CompactForBn(TarForWork(work));
    if out <= MAX_COMPACT then out else MAX_COMPACT
  }

  lemma QuotientMonotone(a: nat, b: nat, m: nat)
    requires a <= b && m > 0
    ensures Quotient(a, m) <= Quotient(b, m)
  {
    var q, r := a / m, b / m;
    assert a == q * m + a % m && b == r * m + b % m;
    assert (r + 1) * m == r * m + m;
    if r < q {
      MulMonotone(r + 1, q, m);
    }
  }

  lemma QuotientAntitone(n: nat, a: nat, b: nat)
    requires 0 < a <= b
    ensures Quotient(n, b) <= Quotient(n, a)
  {
    var q, r := n / b, n / a;
    assert n == q * b + n % b && n == r * a + n % a;
    assert (r + 1) * a == r * a + a;
    if r < q {
      MulMonotone(r + 1, q, a);
      Scale(a, b, q);
    }
  }

  lemma TarBounded(work: nat)
    ensures TarForWork(work) <= Bn256() && ByteLength(TarForWork(work)) < 255
  {
    var t := TarForWork(work);
    TarSmall(work);
    assert Pow2(257) == 2 * Pow2(256);
    hide Pow2, TarForWork;
    BitsBracket(t, 257);
  }

  lemma TarSmall(work: nat)
    ensures TarForWork(work) <= Bn256()
  {
    hide Pow2, Quotient;
    if work > 0 && Bits(work) <= 256 {
      BitsBracket(work, 256);
      QuotientAntitone(Bn256() - work, 1, work);
      ByOne(Bn256() - work);
    }
  }

  lemma ByOne(n: nat)
    ensures Quotient(n, 1) == n
  {
  }

  lemma WorkForTarAntitone(a: nat, b: nat)
    requires a <= b
    ensures WorkForTar(b) <= WorkForTar(a)
  {
    hide Bn256;
    QuotientAntitone(Bn256(), a + 1, b + 1);
  }

  lemma TarForWorkAntitone(a: nat, b: nat)
    requires a <= b
    ensures TarForWork(b) <= TarForWork(a)
  {
    hide Pow2, Quotient, Bits;
    TarSmall(b);
    if a > 0 && Bits(b) <= 256 {
      BitsBracket(a, 256);
      BitsBracket(b, 256);
      QuotientMonotone(Bn256() - b, Bn256() - a, b);
      QuotientAntitone(Bn256() - a, a, b);
    }
  }

  lemma InfiniteWork()
    ensures TarForWork(Bn256()) == 0
  {
    BitsBracket(Bn256(), 256);
  }

  lemma CubeMonotone(a: nat, b: nat)
    requires a <= b
    ensures Cube(a) <= Cube(b)
  {
    MulMonotone(a, b, a);
    MulMonotone(a, b, b);
    MulMonotone(a * a, b * b, a);
    Scale(a, b, b * b);
  }

  lemma SquareMonotone(a: nat, b: nat)
    requires a <= b
    ensures Square(a) <= Square(b)
  {
    MulMonotone(a, b, a);
    MulMonotone(a, b, b);
  }

  /**
   * More work per block, less work per announcement or fewer announcements never make the target
   * easier: stated on the target, which also covers the cases where work is infinite.
   */
  lemma EffectiveTarOrdered(w1: nat, a1: nat, n1: nat, w2: nat, a2: nat, n2: nat)
    requires w1 <= w2 && a2 <= a1 && n2 <= n1
    ensures TarForWork(EffectiveWork(w2, a2, n2)) <= TarForWork(EffectiveWork(w1, a1, n1))
  {
    hide Quotient, TarForWork, Cube, Square;
    if a2 == 0 || n2 == 0 {
      InfiniteWork();
    } else {
      CubeMonotone(w1, w2);
      QuotientMonotone(Cube(w1), Cube(w2), 1024);
      var x, y := Quotient(Cube(w1), 1024), Quotient(Cube(w2), 1024);
      QuotientMonotone(x, y, a1);
      QuotientAntitone(y, a2, a1);
      SquareMonotone(n2, n1);
      SquarePositive(n1);
      SquarePositive(n2);
      QuotientMonotone(Quotient(x, a1), Quotient(y, a2), Square(n1));
      QuotientAntitone(Quotient(y, a2), Square(n2), Square(n1));
      TarForWorkAntitone(EffectiveWork(w1, a1, n1), EffectiveWork(w2, a2, n2));
    }
  }

  /**
   * The effective target never falls with more announcements or a higher block target, and never
   * rises with a higher announcement target.
   */
  lemma EffectiveTargetIsMonotone(b1: u32, t1: u32, n1: nat, b2: u32, t2: u32, n2: nat)
    requires !Negative(b1) && !Negative(b2) && !Negative(t1) && !Negative(t2)
    requires BnForCompact(b1) <= BnForCompact(b2) && BnForCompact(t2) <= BnForCompact(t1) && n1 <= n2
    ensures GetEffectiveTarget(b1, t1, n1) <= GetEffectiveTarget(b2, t2, n2)
  {
    var w1, w2 := WorkForTar(BnForCompact(b1)), WorkForTar(BnForCompact(b2));
    var a1, a2 := WorkForTar(BnForCompact(t1)), WorkForTar(BnForCompact(t2));
    WorkForTarAntitone(BnForCompact(b1), BnForCompact(b2));
    WorkForTarAntitone(BnForCompact(t2), BnForCompact(t1));
    hide WorkForTar, TarForWork, EffectiveWork, CompactForBn, BnForCompact;
    EffectiveTarOrdered(w2, a2, n2, w1, a1, n1);
    TarBounded(EffectiveWork(w1, a1, n1));
    TarBounded(EffectiveWork(w2, a2, n2));
    CompactIsMonotone(TarForWork(EffectiveWork(w1, a1, n1)), TarForWork(EffectiveWork(w2, a2, n2)));
  }

  /** On canonical targets, compact order is the order of the integers. */
  lemma CanonicalOrder(c: u32, d: u32)
    requires Canonical(c) && Canonical(d) && Size(c) <= 254 && Size(d) <= 254
    ensures !Negative(c) && !Negative(d) && (c <= d <==> BnForCompact(c) <= BnForCompact(d))
  {
    hide *;
    CanonicalIsPlain(c);
    CanonicalIsPlain(d);
    CompactInverts(c);
    CompactInverts(d);
    if BnForCompact(c) <= BnForCompact(d) { CompactIsMonotone(BnForCompact(c), BnForCompact(d)); }
    if BnForCompact(d) <= BnForCompact(c) { CompactIsMonotone(BnForCompact(d), BnForCompact(c)); }
  }

  lemma CanonicalIsPlain(c: u32)
    requires Canonical(c)
    ensures !Negative(c)
  {
  }

  // ---------- ageing of announcements ----------

  function DegradeAnnouncementTarget(annTar: u32, age: nat): u32
    requires !Negative(annTar)
  {
    if age < ANN_WAIT_PERIOD || age > 256 + ANN_WAIT_PERIOD then NO_TARGET
    else if age == ANN_WAIT_PERIOD then annTar
    else
      var bn := BnForCompact(annTar) * Pow2(age - ANN_WAIT_PERIOD);
      if Bits(bn) < 256 then
        var out := CompactForBn(bn);
        if out <= MAX_COMPACT then out else NO_TARGET
      else NO_TARGET
  }

  /** After the first halving the target only gets easier, whatever it was. */
  lemma DegradingFromFour(annTar: u32, a: nat, b: nat)
    requires !Negative(annTar) && ANN_WAIT_PERIOD < a <= b
    ensures DegradeAnnouncementTarget(annTar, a) <= DegradeAnnouncementTarget(annTar, b)
  {
    if DegradeAnnouncementTarget(annTar, b) != NO_TARGET {
      var n := BnForCompact(annTar);
      var x, y := n * Pow2(a - ANN_WAIT_PERIOD), n * Pow2(b - ANN_WAIT_PERIOD);
      hide Pow2, BnForCompact, CompactForBn, Bits;
      ShiftsOrdered(n, a - ANN_WAIT_PERIOD, b - ANN_WAIT_PERIOD);
      CompactIsMonotone(x, y);
    }
  }

  lemma ShiftsOrdered(n: nat, a: nat, b: nat)
    requires a <= b && Bits(n * Pow2(b)) < 256
    ensures n * Pow2(a) <= n * Pow2(b) && Bits(n * Pow2(a)) < 256 && ByteLength(n * Pow2(b)) < 255
  {
    Pow2Monotone(a, b);
    Scale(Pow2(a), Pow2(b), n);
    BitsBracket(n * Pow2(b), 255);
    BitsBracket(n * Pow2(a), 255);
  }

  /** The value 2n still has a compact form that is small enough: the target degrades at all. */
  predicate Degrades(n: nat) {
    Bits(2 * n) < 256 && CompactForBn(2 * n) <= MAX_COMPACT
  }

  lemma AgeFour(annTar: u32)
    requires !Negative(annTar)
    ensures var n := BnForCompact(annTar);
            DegradeAnnouncementTarget(annTar, 4) == if Degrades(n) then CompactForBn(2 * n) else NO_TARGET
  {
    hide BnForCompact, CompactForBn, Bits;
    var n := BnForCompact(annTar);
    FirstPower();
    hide Pow2;
    assert n * Pow2(4 - ANN_WAIT_PERIOD) == 2 * n;
  }

  lemma FirstPower()
    ensures Pow2(1) == 2
  {
  }

  /** The mantissa of what is left of a target when its low bytes are shifted out. */
  lemma KeptMantissa(c: u32) returns (k: nat)
    requires !Negative(c) && BnForCompact(c) > 0
    ensures BnForCompact(c) * TWO24 == k * Pow2(8 * Size(c))
    ensures k <= Word(c) <= 2 * k && (Word(c) >= 0x4000 ==> k >= 0x4000)
  {
    var m, e, n := Word(c), Size(c), BnForCompact(c);
    hide Word, Size, Negative, Shr, Pow2;
    if e < 3 {
      k := n * Pow2(8 * (3 - e));
      WordBelow(c);
      ShortKept(m, e, n);
    } else {
      k := m;
      LongExact(m, e);
      ShrNothing(m);
    }
  }

  lemma WordBelow(c: u32)
    ensures Word(c) < SIGN
  {
  }

  lemma ShortKept(m: nat, e: nat, n: nat)
    requires e < 3 && m < SIGN && n == Shr(m, 8 * (3 - e)) > 0
    ensures var k := n * Pow2(8 * (3 - e));
            n * TWO24 == k * Pow2(8 * e) && k <= m <= 2 * k && (m >= 0x4000 ==> k >= 0x4000)
  {
    SmallPowers();
    var p, q := Pow2(8 * e), Pow2(8 * (3 - e));
    Pow2Adds(8 * (3 - e), 8 * e);
    ShrBounds(m, 8 * (3 - e));
    Swap(n, q, p);
    MulMonotone(1, n, q);
    assert (n + 1) * q == n * q + q;
    if e == 2 && m >= 0x4000 && n < 0x40 {
      MulMonotone(n + 1, 0x40, q);
    }
  }

  /** A target that degrades does not fall when it first does exactly when its mantissa is 0x4000 or more. */
  lemma FirstStepIff(c: u32, n: nat)
    requires !Negative(c) && n == BnForCompact(c) && n > 0 && Bits(2 * n) < 256
    ensures ByteLength(2 * n) < 255 && (c <= CompactForBn(2 * n) <==> Word(c) >= 0x4000)
  {
    var k := KeptMantissa(c);
    CompactRounds(2 * n);
    var d := CompactForBn(2 * n);
    FieldsOf(c);
    FieldsOf(d);
    hide CompactForBn, BnForCompact, Word, Size, Negative, Bits, ByteLength;
    FirstStep(n, k, Word(c), Size(c), Word(d), Size(d));
  }

  /** The same on mantissas and exponents. */
  lemma FirstStep(n: nat, k: nat, m: nat, e: nat, r: nat, f: nat)
    requires n * TWO24 == k * Pow2(8 * e) && k <= m <= 2 * k && m < SIGN && (m >= 0x4000 ==> k >= 0x4000)
    requires Rounds(2 * n, r, f)
    ensures m >= 0x4000 ==> e < f || (e == f && m <= r)
    ensures m < 0x4000 ==> f < e
  {
    var p := Pow2(8 * e);
    assert 2 * n * TWO24 == 2 * k * p by { Swap(2, k, p); }
    hide Pow2;
    NextMultiple(2 * k, p);
    if m < 0x4000 {
      TooSmall(2 * n, 2 * k, e, r, f);
    } else if 2 * k < SIGN {
      assert Rounds(2 * n, 2 * k, e);
      RoundsOrdered(2 * n, 2 * k, e, 2 * n, r, f);
    } else {
      OneByteUp(2 * k, e, 2 * n);
      RoundsOrdered(2 * n, 2 * k / 0x100, e + 1, 2 * n, r, f);
    }
  }

  lemma TooSmall(x: nat, k: nat, e: nat, r: nat, f: nat)
    requires x * TWO24 == k * Pow2(8 * e) && k < 0x8000 && Rounds(x, r, f)
    ensures f < e
  {
    if f >= e {
      MulMonotone(0x8000, r, Pow2(8 * f));
      NextMultiple(k, Pow2(8 * e));
      MulMonotone(k + 1, 0x8000, Pow2(8 * e));
      Pow2Monotone(8 * e, 8 * f);
      Scale(Pow2(8 * e), Pow2(8 * f), 0x8000);
    }
  }

  ghost predicate OnlyGetsEasier(annTar: u32)
    requires !Negative(annTar)
  {
    forall a, b :: ANN_WAIT_PERIOD <= a <= b ==>
                     DegradeAnnouncementTarget(annTar, a) <= DegradeAnnouncementTarget(annTar, b)
  }

  /**
   * From the waiting period on an announcement only gets easier exactly when its target is zero, or
   * has a value and a mantissa of at least 0x4000, or is too large to degrade at all.
   */
  lemma DegradingIsMonotoneIff(annTar: u32)
    requires !Negative(annTar)
    ensures OnlyGetsEasier(annTar) <==>
              || annTar == 0
              || (BnForCompact(annTar) > 0 && Word(annTar) >= 0x4000)
              || !Degrades(BnForCompact(annTar))
  {
    hide *;
    var n := BnForCompact(annTar);
    AgeFour(annTar);
    DegradesMeans(n);
    EasierIff(annTar);
    if Degrades(n) {
      if n > 0 { FirstStepIff(annTar, n); } else { ZeroDegrades(); }
    } else {
      NoTargetIsLargest(annTar);
    }
    ZeroCompact();
  }

  lemma DegradesMeans(n: nat)
    ensures Degrades(n) ==> Bits(2 * n) < 256 && ByteLength(2 * n) < 255 && CompactForBn(2 * n) <= MAX_COMPACT
  {
    hide CompactForBn, Bits;
  }

  lemma ZeroDegrades()
    ensures ByteLength(2 * 0) < 255 && CompactForBn(2 * 0) == 0
  {
  }

  lemma NoTargetIsLargest(c: u32)
    ensures c <= NO_TARGET
  {
  }

  /** Everything hangs on the first step. */
  lemma EasierIff(annTar: u32)
    requires !Negative(annTar)
    ensures OnlyGetsEasier(annTar) <==> annTar <= DegradeAnnouncementTarget(annTar, 4)
  {
    assert DegradeAnnouncementTarget(annTar, 3) == annTar;
    hide DegradeAnnouncementTarget;
    if annTar <= DegradeAnnouncementTarget(annTar, 4) {
      forall a, b | ANN_WAIT_PERIOD <= a <= b
        ensures DegradeAnnouncementTarget(annTar, a) <= DegradeAnnouncementTarget(annTar, b)
      {
        if a > ANN_WAIT_PERIOD {
          DegradingFromFour(annTar, a, b);
        } else if b > a {
          DegradingFromFour(annTar, 4, b);
        }
      }
    }
  }

  /** Canonical targets are among them. */
  lemma CanonicalOnlyGetsEasier(annTar: u32)
    requires Canonical(annTar)
    ensures !Negative(annTar) && OnlyGetsEasier(annTar)
  {
    ZeroCompact();
    hide BnForCompact, OnlyGetsEasier;
    if annTar != 0 {
      CanonicalIsExact(annTar);
      RoundsPositive(BnForCompact(annTar), Word(annTar), Size(annTar));
    }
    DegradingIsMonotoneIff(annTar);
  }

  /** A target that is not canonical can get harder: here it drops when it first degrades. */
  lemma DegradingCanFall()
    ensures !Negative(0x0400_0001)
    ensures DegradeAnnouncementTarget(0x0400_0001, 4) < DegradeAnnouncementTarget(0x0400_0001, 3)
  {
    SmallPowers();
    assert BnForCompact(0x0400_0001) == 0x100;
    assert Pow2(1) == 2;
    BitsBracket(0x200, 9);
    BitsBracket(0x200, 10);
    BitsBracket(0x200, 255);
    assert Pow2(9) == 2 * Pow2(8) && Pow2(10) == 2 * Pow2(9);
    assert Bits(0x200) == 10 && ByteLength(0x200) == 2;
  }

  /** pc_is_min_ann_diff_ok */
  predicate IsMinAnnDiffOk(annTar: u32) {
    && 0 < annTar <= MAX_COMPACT && !Negative(annTar)
    && BnForCompact(annTar) > 0
    && WorkForTar(BnForCompact(annTar)) > 0 && Bits(WorkForTar(BnForCompact(annTar))) < 257
  }

  /** Every non-zero target up to the largest compact one is acceptable. */
  lemma MinAnnDiffOkIff(annTar: u32)
    ensures IsMinAnnDiffOk(annTar) <==> annTar <= MAX_COMPACT && !Negative(annTar) && BnForCompact(annTar) > 0
  {
    ZeroCompact();
    hide BnForCompact, Negative, Pow2, Bits, Quotient;
    if annTar <= MAX_COMPACT && !Negative(annTar) && BnForCompact(annTar) > 0 {
      var n := BnForCompact(annTar);
      BelowBn256(annTar);
      QuotientAntitone(Bn256(), n + 1, Bn256());
      QuotientAntitone(Bn256(), 2, n + 1);
      HalfOf(Bn256());
      BitsBracket(WorkForTar(n), 256);
    }
  }

  lemma HalfOf(n: nat)
    requires n > 0
    ensures Quotient(n, n) == 1 && Quotient(n, 2) < n
  {
    BracketIsUnique(n, n, n / n, 1);
    assert n == n / n * n + n % n;
    assert (n / n + 1) * n == n / n * n + n && (1 + 1) * n == n + n;
  }

  lemma BelowBn256(c: u32)
    requires c <= MAX_COMPACT && !Negative(c)
    ensures BnForCompact(c) < Bn256()
  {
    FieldsOf(c);
    var m, e := Word(c), Size(c);
    assert e <= 0x20;
    hide Word, Size, Negative, Pow2, Shr;
    if e <= 3 { ShortBelow(m, e); } else { LongBelow(m, e); }
  }

  lemma ShortBelow(m: nat, e: nat)
    requires m < SIGN && e <= 3
    ensures Shr(m, 8 * (3 - e)) < Bn256()
  {
    SmallPowers();
    ShrBounds(m, 8 * (3 - e));
    Below(m, Shr(m, 8 * (3 - e)), Pow2(8 * (3 - e)));
    Pow2Monotone(24, 256);
  }

  lemma LongBelow(m: nat, e: nat)
    requires m < SIGN && 3 <= e <= 0x20
    ensures m * Pow2(8 * (e - 3)) < Bn256()
  {
    PowerAbove(e);
    Pow2Monotone(8 * e, 256);
    hide Pow2;
    MantissaBelow(m, Pow2(8 * (e - 3)));
  }
}

/** The proof-of-work check (Work.c) against the integer comparison it stands for, and soft nonces. */
module Work {
  import opened Words
  import opened CycleState
  import opened Difficulty

  /** A hash read as a little-endian integer. */
  function HashValue(hash: seq<byte>): nat {
    if |hash| == 0 then 0 else Value(hash[0]) + 0x100 * HashValue(hash[1..])
  }

  /** Whether a 32-byte hash meets a compact target. */
  predicate IsWork(hash: seq<byte>, target: u32)
    requires !Negative(target)
  {
    HashValue(hash) < BnForCompact(target)
  }

  lemma {:induction false} HashValueSplits(a: seq<byte>, b: seq<byte>)
    ensures HashValue(a + b) == HashValue(a) + HashValue(b) * Pow2(8 * |a|)
  {
    hide Value;
    if |a| == 0 {
      assert a + b == b;
    } else {
      HashValueSplits(a[1..], b);
      assert (a + b)[1..] == a[1..] + b;
      SmallPowers();
      Pow2Adds(8, 8 * |a[1..]|);
      assert 8 + 8 * |a[1..]| == 8 * |a|;
      Rescale(HashValue(b), Pow2(8 * |a[1..]|), Pow2(8 * |a|), Value(a[0]), HashValue(a[1..]));
    }
  }

  lemma Rescale(v: nat, p: nat, q: nat, x: nat, y: nat)
    requires q == 0x100 * p
    ensures x + 0x100 * (y + v * p) == x + 0x100 * y + v * q
  {
  }

  lemma {:induction false} HashValueBound(h: seq<byte>)
    ensures HashValue(h) < Pow2(8 * |h|)
  {
    hide Value;
    if |h| > 0 {
      HashValueBound(h[1..]);
      SmallPowers();
      Pow2Adds(8, 8 * |h[1..]|);
      assert 8 + 8 * |h[1..]| == 8 * |h|;
    }
  }

  lemma {:induction false} ZeroValue(h: seq<byte>)
    ensures HashValue(h) == 0 <==> forall i :: 0 <= i < |h| ==> h[i] == 0
  {
    hide Value;
    if |h| > 0 {
      ZeroValue(h[1..]);
      assert forall i :: 1 <= i < |h| ==> h[i] == h[1..][i - 1];
      if forall i :: 0 <= i < |h[1..]| ==> h[1..][i] == 0 {
        assert forall i :: 1 <= i < |h| ==> h[i] == 0;
      }
    }
  }

  /** The three bytes that face the mantissa. */
  function Significant(hash: seq<byte>, e: nat): nat
    requires 3 <= e <= |hash|
  {
    Value(hash[e - 1]) * 0x1_0000 + Value(hash[e - 2]) * 0x100 + Value(hash[e - 3])
  }

  lemma SignificantValue(hash: seq<byte>, e: nat)
    requires 3 <= e <= |hash|
    ensures HashValue(hash[e - 3..e]) == Significant(hash, e)
  {
    hide Value;
    var s := hash[e - 3..e];
    assert s[1..][1..][1..] == [];
    assert HashValue(s[1..][1..]) == Value(s[2]);
    assert HashValue(s[1..]) == Value(s[1]) + 0x100 * Value(s[2]);
  }

  /**
   * The hash is below the target exactly if nothing lies above the significant part and that part is
   * below the mantissa.
   */
  lemma CompareParts(hash: seq<byte>, target: u32)
    requires |hash| == 32 && !Negative(target) && 3 <= Size(target) <= 32
    ensures IsWork(hash, target) <==>
              (forall i :: Size(target) <= i < 32 ==> hash[i] == 0) && Significant(hash, Size(target)) < Word(target)
  {
    var e, m := Size(target), Word(target);
    var low, mid, top := hash[..e - 3], hash[e - 3..e], hash[e..];
    assert hash == low + mid + top;
    HashValueSplits(low + mid, top);
    HashValueSplits(low, mid);
    HashValueBound(low);
    HashValueBound(mid);
    ZeroValue(top);
    SignificantValue(hash, e);
    assert (forall i :: e <= i < 32 ==> hash[i] == 0) <==> (forall i :: 0 <= i < |top| ==> top[i] == 0) by {
      assert forall i :: e <= i < 32 ==> hash[i] == top[i - e];
    }
    var p := Pow2(8 * (e - 3));
    assert BnForCompact(target) == m * p by { ShrNothing(m); }
    MantissaBound(target);
    hide Word, Size, BnForCompact, HashValue, Significant;
    CompareScaled(HashValue(low), HashValue(mid), HashValue(top), p, Pow2(8 * e), e, m);
  }

  lemma MantissaBound(target: u32)
    ensures Word(target) < SIGN
  {
  }

  lemma CompareScaled(low: nat, mid: nat, top: nat, p: nat, q: nat, e: nat, m: nat)
    requires e >= 3 && p == Pow2(8 * (e - 3)) && q == Pow2(8 * e) && low < p && m < SIGN
    ensures low + mid * p + top * q < m * p <==> top == 0 && mid < m
  {
    PowerAbove(e);
    hide Pow2;
    MantissaBelow(m, p);
    if top > 0 {
      MulMonotone(1, top, q);
      MulMonotone(0, mid, p);
    } else {
      CompareMantissa(low, mid, p, m);
    }
  }

  lemma CompareMantissa(low: nat, mid: nat, p: nat, m: nat)
    requires low < p
    ensures low + mid * p < m * p <==> mid < m
  {
    if mid < m {
      MulMonotone(mid + 1, m, p);
      assert (mid + 1) * p == mid * p + p;
    } else {
      MulMonotone(m, mid, p);
    }
  }

  /** The exponent, as the top byte of an `int`. */
  function ZeroBytes(target: u32): int { if Size(target) < 0x80 then Size(target) else Size(target) - 0x100 }

  /**
   * What Work_check is defined for: with an exponent below 3, negative ones included, it goes on to
   * read in front of the hash, unless the sign of the mantissa or a byte above the significant part
   * has already settled the matter.
   */
  predicate WorkDefined(hash: seq<byte>, target: u32)
    requires |hash| == 32
  {
    Negative(target) || 3 <= ZeroBytes(target) || exists i :: 0 <= i < 32 && ZeroBytes(target) <= i && hash[i] != 0
  }

  /** Work_check. */
  method WorkCheck(hash: seq<byte>, target: u32) returns (ok: bool)
    requires |hash| == 32 && WorkDefined(hash, target)
    ensures ok <==> target <= MAX_COMPACT && !Negative(target) && IsWork(hash, target)
  {
    var zeroBytes := ZeroBytes(target);
    SignBit(target);
    hide Negative, Word, Size, ZeroBytes, IsWork, Value;
    if zeroBytes >= 0 && target > MAX_COMPACT { return false; }
    var mantissa := target % TWO24;
    if mantissa > 0x7f_ffff { return false; }
    if target <= MAX_COMPACT {
      if zeroBytes >= 3 { CompareParts(hash, target); } else { TooLarge(hash, target); }
    }
    var x := 0;
    while x < 32 - zeroBytes
      invariant 0 <= x <= 32 - zeroBytes && x <= 32
      invariant forall i :: 0 <= i < 32 && 32 - x <= i ==> hash[i] == 0
    {
      if hash[31 - x] != 0 { return false; }
      x := x + 1;
    }
    var significantPart :=
      Value(hash[zeroBytes - 1]) * 0x1_0000 + Value(hash[zeroBytes - 2]) * 0x100 + Value(hash[zeroBytes - 3]);
    if significantPart >= mantissa { return false; }
    ok := true;
  }

  /** With so small an exponent, a byte above the significant part makes the hash exceed the target. */
  lemma TooLarge(hash: seq<byte>, target: u32)
    requires |hash| == 32 && Size(target) < 3 && !Negative(target)
    ensures (exists i :: Size(target) <= i < 32 && hash[i] != 0) ==> !IsWork(hash, target)
  {
    var e := Size(target);
    var low, top := hash[..e], hash[e..];
    assert hash == low + top;
    HashValueSplits(low, top);
    ZeroValue(top);
    if i :| e <= i < 32 && hash[i] != 0 {
      assert top[i - e] == hash[i];
      MulMonotone(1, HashValue(top), Pow2(8 * e));
      hide HashValue;
      SmallTarget(target);
    }
  }

  lemma SmallTarget(target: u32)
    requires Size(target) < 3 && !Negative(target)
    ensures BnForCompact(target) < Pow2(8 * Size(target))
  {
    var m, e := Word(target), Size(target);
    assert m < SIGN;
    hide Word, Size;
    SmallPowers();
    ShrBounds(m, 8 * (3 - e));
    Pow2Adds(8 * e, 8 * (3 - e));
    var n, p, q := Shr(m, 8 * (3 - e)), Pow2(8 * (3 - e)), Pow2(8 * e);
    if n >= q { MulMonotone(q, n, p); }
  }

  lemma SignBit(target: u32)
    ensures Negative(target) <==> target % TWO24 > 0x7f_ffff
    ensures !Negative(target) ==> target % TWO24 == Word(target)
    ensures target <= MAX_COMPACT <==> 0 <= ZeroBytes(target) && target <= 0x207f_ffff
    ensures target <= MAX_COMPACT ==> ZeroBytes(target) == Size(target) <= 32
    ensures ZeroBytes(target) < 0x80
    ensures ZeroBytes(target) < 0 ==> target > MAX_COMPACT
  {
  }

  // ---------- soft nonces (Util.h) ----------

  lemma MantissaLog(target: u32)
    requires Word(target) > 0
    ensures Log2Floor(Word(target)) <= 22
  {
    var h := Log2Floor(Word(target));
    MantissaBound(target);
    SmallPowers();
    assert Pow2(24) == 2 * Pow2(23);
    if h >= 23 { Pow2Monotone(23, h); }
  }

  /** The number of bits Util_annSoftNonceMax computes; exponents above 0x20 bring it down, and below zero. */
  function NonceBits(target: u32): int
    requires Word(target) > 0
  {
    (22 - Log2Floor(Word(target))) + (0x20 - Size(target)) * 8 + 10
  }

  /** The logarithm of an empty mantissa is undefined, and so is a shift by 32 bits or more. */
  predicate NonceMaxDefined(target: u32) { Word(target) > 0 && 24 - NonceBits(target) < 32 }

  /** Util_annSoftNonceMax */
  function AnnSoftNonceMax(target: u32): (r: u32)
    requires NonceMaxDefined(target)
    ensures r <= 0xff_ffff && (Size(target) <= 0x20 ==> 1023 <= r)
  {
    MantissaLog(target);
    var bits := NonceBits(target);
    if bits >= 24 then 0xff_ffff else ShrOfMask(24 - bits); Shr(0xff_ffff, 24 - bits)
  }

  /** It is defined for every exponent up to 0x20, and for a few more. */
  lemma NonceMaxDefinedFor(target: u32)
    ensures Word(target) > 0 && Size(target) <= 0x22 ==> NonceMaxDefined(target)
    ensures NonceMaxDefined(target) ==> Word(target) > 0 && Size(target) <= 0x24
  {
    if Word(target) > 0 { MantissaLog(target); }
  }

  lemma {:induction false} ShrOfMask(k: nat)
    ensures Shr(0xff_ffff, k) <= 0xff_ffff
    ensures k <= 24 ==> Shr(0xff_ffff, k) == Pow2(24 - k) - 1
    ensures k <= 14 ==> 1023 <= Shr(0xff_ffff, k)
  {
    SmallPowers();
    if k > 0 {
      ShrOfMask(k - 1);
      assert k <= 24 ==> Pow2(24 - (k - 1)) == 2 * Pow2(24 - k);
    }
    if k <= 14 {
      Pow2Monotone(10, 24 - k);
      assert Pow2(10) == 4 * Pow2(8) by { assert Pow2(9) == 2 * Pow2(8); }
    }
  }

  /** The target read as an integer, whatever its sign. */
  function Magnitude(target: u32): nat
    requires Size(target) >= 3
  {
    Word(target) * Pow2(8 * (Size(target) - 3))
  }

  /**
   * There are 256 soft nonces for each hash that the target is expected to take, rounded down to a
   * power of two and never more than three bytes hold: 2^(264 - j) for a target of 2^j and up.
   */
  lemma SoftNonceMaxIs(target: u32, j: nat)
    requires NonceMaxDefined(target) && Size(target) >= 3
    requires Pow2(j) <= Magnitude(target) < 2 * Pow2(j)
    ensures AnnSoftNonceMax(target) == if j <= 240 then Pow2(24) - 1 else if j <= 264 then Pow2(264 - j) - 1 else 0
  {
    hide *;
    SoftNonceBits(target);
    MagnitudeLog(target, j);
    TwentyFourBits();
    if j > 264 { ZeroShift(NonceBits(target)); }
    if 240 < j <= 264 { ShrOfMask(24 - NonceBits(target)); }
  }

  lemma ZeroShift(bits: int)
    requires bits < 0
    ensures Shr(0xff_ffff, 24 - bits) == 0
  {
    TwentyFourBits();
    Pow2Monotone(24, 24 - bits);
    hide Pow2, Shr;
    ShrZero(0xff_ffff, 24 - bits);
  }

  lemma SoftNonceBits(target: u32)
    requires NonceMaxDefined(target)
    ensures Word(target) > 0
    ensures var bits := NonceBits(target);
            AnnSoftNonceMax(target) == if bits >= 24 then 0xff_ffff else Shr(0xff_ffff, 24 - bits)
  {
    hide NonceBits, Word, Shr;
  }

  lemma MagnitudeLog(target: u32, j: nat)
    requires Size(target) >= 3 && Word(target) > 0 && Pow2(j) <= Magnitude(target) < 2 * Pow2(j)
    ensures NonceBits(target) == 264 - j
  {
    hide *;
    MagnitudeIs(target);
    NonceBitsIs(target);
    var h, e := Log2Floor(Word(target)), 8 * (Size(target) - 3);
    Pow2Adds(h, e);
    ScaledLog(Word(target), Pow2(h), Pow2(e));
    SameLog(Magnitude(target), h + e, j);
  }

  lemma NonceBitsIs(target: u32)
    requires Word(target) > 0
    ensures NonceBits(target) == 288 - Log2Floor(Word(target)) - 8 * Size(target)
  {
    hide Word, Size, Log2Floor;
  }

  lemma MagnitudeIs(target: u32)
    requires Size(target) >= 3
    ensures Magnitude(target) == Word(target) * Pow2(8 * (Size(target) - 3))
  {
    hide Word, Size, Pow2;
  }

  lemma ScaledLog(m: nat, h: nat, p: nat)
    requires h <= m < 2 * h && p >= 1
    ensures h * p <= m * p < 2 * (h * p)
  {
    MulMonotone(h, m, p);
    MulMonotone(m + 1, 2 * h, p);
    assert (m + 1) * p == m * p + p;
    DoubleFactor(h, p);
  }

  lemma SameLog(n: nat, i: nat, j: nat)
    requires Pow2(i) <= n < 2 * Pow2(i) && Pow2(j) <= n < 2 * Pow2(j)
    ensures i == j
  {
    hide Pow2;
    PowersOrdered(i, j);
    PowersOrdered(j, i);
  }

  lemma PowersOrdered(i: nat, j: nat)
    ensures i < j ==> 2 * Pow2(i) <= Pow2(j)
  {
    if i < j { Pow2Monotone(i + 1, j); }
  }

  /** With an exponent below 3 the bound is always all of three bytes. */
  lemma TinyTargetNonces(target: u32)
    requires NonceMaxDefined(target) && Size(target) < 3
    ensures AnnSoftNonceMax(target) == 0xff_ffff
  {
    MantissaLog(target);
  }
}

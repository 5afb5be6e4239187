/**
 * What the difficulty arithmetic comes to: quotients as brackets, the effective target as the one
 * value they leave, and a degraded target as a power of two times the original.
 */
module EffectiveTarget {
  import opened Words
  import opened Difficulty

  // ---------- quotients ----------

  /** `w` is how often `d` goes into `n`. */
  predicate Goes(w: nat, d: nat, n: nat) { w * d <= n < (w + 1) * d }

  lemma GoesOnce(w: nat, v: nat, d: nat, n: nat)
    requires Goes(w, d, n) && Goes(v, d, n)
    ensures w == v
  {
    BracketIsUnique(n, d, w, v);
  }

  lemma QuotientGoes(n: nat, m: nat)
    requires m > 0
    ensures Goes(Quotient(n, m), m, n)
  {
    var q := n / m;
    assert n == q * m + n % m;
    assert (q + 1) * m == q * m + m;
  }

  /** Dividing twice is dividing by the product. */
  lemma GoesTwice(n: nat, a: nat, q: nat, b: nat, r: nat)
    requires Goes(q, a, n) && Goes(r, b, q)
    ensures Goes(r, a * b, n)
  {
    MulMonotone(r * b, q, a);
    MulMonotone(q + 1, (r + 1) * b, a);
    Regroup(r, b, a);
    Regroup(r + 1, b, a);
  }

  lemma Regroup(r: nat, b: nat, a: nat)
    ensures r * b * a == r * (a * b)
  {
  }

  lemma ThreeQuotients(n: nat, a: nat, b: nat, c: nat)
    requires a > 0 && b > 0 && c > 0 && a * b > 0
    ensures Goes(Quotient(Quotient(Quotient(n, a), b), c), a * b * c, n)
  {
    hide Quotient, Goes;
    var x := Quotient(n, a);
    var y := Quotient(x, b);
    QuotientGoes(n, a);
    QuotientGoes(x, b);
    QuotientGoes(y, c);
    GoesTwice(n, a, x, b, y);
    GoesTwice(n, a * b, y, c, Quotient(y, c));
  }

  // ---------- what each quantity is ----------

  /** One hash in `target + 1` out of 2^256 meets a target. */
  predicate IsWorkOf(w: nat, target: nat) { Goes(w, target + 1, Pow2(256)) }

  /** The target that an amount of work stands for: everything without work, nothing from 2^256 on. */
  predicate IsTargetOf(t: nat, work: nat) {
    if work == 0 then t == Pow2(256)
    else if work >= Pow2(256) then t == 0
    else (t + 1) * work <= Pow2(256) < (t + 2) * work
  }

  /** The cube of the block's work, over 1024 times the work of an announcement times the square of their count. */
  predicate IsEffectiveWork(w: nat, blkWork: nat, annWork: nat, annCount: nat) {
    if annWork == 0 || annCount == 0 then w == Pow2(256)
    else Goes(w, 1024 * annWork * (annCount * annCount), blkWork * blkWork * blkWork)
  }

  lemma WorkForTarIff(w: nat, target: nat)
    ensures w == WorkForTar(target) <==> IsWorkOf(w, target)
  {
    hide *;
    WorkForTarIs(target);
    QuotientGoes(Pow2(256), target + 1);
    IsWorkOfIs(w, target);
    if IsWorkOf(w, target) { GoesOnce(w, WorkForTar(target), target + 1, Pow2(256)); }
  }

  lemma WorkForTarIs(target: nat)
    ensures WorkForTar(target) == Quotient(Pow2(256), target + 1)
  {
    hide Pow2, Quotient;
  }

  lemma IsWorkOfIs(w: nat, target: nat)
    ensures IsWorkOf(w, target) <==> Goes(w, target + 1, Pow2(256))
  {
    hide Pow2, Goes;
  }

  lemma TarForWorkIff(t: nat, work: nat)
    ensures t == TarForWork(work) <==> IsTargetOf(t, work)
  {
    hide Pow2, Quotient, Bits;
    BitsBracket(work, 256);
    if 0 < work < Pow2(256) {
      var q := Quotient(Bn256() - work, work);
      QuotientGoes(Bn256() - work, work);
      OneMore(q, work);
      OneMore(t, work);
      if IsTargetOf(t, work) { GoesOnce(t, q, work, Bn256() - work); }
    }
  }

  lemma OneMore(t: nat, work: nat)
    ensures (t + 1) * work == t * work + work && (t + 2) * work == (t + 1) * work + work
  {
  }

  lemma EffectiveWorkIff(w: nat, blkWork: nat, annWork: nat, annCount: nat)
    ensures w == EffectiveWork(blkWork, annWork, annCount) <==> IsEffectiveWork(w, blkWork, annWork, annCount)
  {
    hide Quotient, Pow2, Goes;
    if annWork > 0 && annCount > 0 {
      var n, c := blkWork * blkWork * blkWork, annCount * annCount;
      SquarePositive(annCount);
      ThreeQuotients(n, 1024, annWork, c);
      if IsEffectiveWork(w, blkWork, annWork, annCount) {
        GoesOnce(w, EffectiveWork(blkWork, annWork, annCount), 1024 * annWork * c, n);
      }
    }
  }

  // ---------- the compact form of an integer ----------

  lemma CompactIsCanonical(n: nat)
    requires ByteLength(n) < 255
    ensures Canonical(CompactForBn(n)) && Size(CompactForBn(n)) <= ByteLength(n) + 1
  {
    if n > 0 {
      InvertedIsCanonical(CompactForBn(n), n);
      LeadingBracket(n);
      var size, v := ByteLength(n), Leading(n, ByteLength(n));
      if v >= SIGN { CompactFields(v / 0x100, size + 1); } else { CompactFields(v, size); }
    } else {
      assert CompactForBn(n) == 0;
    }
  }

  /** `c` is the compact form of `n`: the largest canonical value, up to the largest target, that is not above it. */
  ghost predicate IsLargestUpTo(c: u32, n: nat) {
    && Canonical(c) && c <= MAX_COMPACT
    && forall k: u32 :: Canonical(k) && k <= MAX_COMPACT ==> (k <= c <==> Below(k, n))
  }

  predicate Below(c: u32, n: nat)
    requires Canonical(c)
  {
    CanonicalIsPlain(c);
    BnForCompact(c) <= n
  }

  /** Canonical values below the compact form of an integer are those of integers below it. */
  lemma CompactIsLargest(n: nat, k: u32)
    requires ByteLength(n) < 254 && Canonical(k) && Size(k) <= 254
    ensures k <= CompactForBn(n) <==> Below(k, n)
  {
    hide *;
    var d := CompactForBn(n);
    CompactIsCanonical(n);
    CanonicalIsPlain(k);
    CompactInverts(k);
    BelowIs(k, n);
    if BnForCompact(k) <= n { CompactIsMonotone(BnForCompact(k), n); }
    if k <= d {
      CanonicalOrder(k, d);
      CompactRoundsDown(n);
    }
  }

  lemma BelowIs(k: u32, n: nat)
    requires Canonical(k)
    ensures !Negative(k) && (Below(k, n) <==> BnForCompact(k) <= n)
  {
    CanonicalIsPlain(k);
    hide Canonical, BnForCompact;
  }

  lemma MaxIsCanonical()
    ensures Canonical(MAX_COMPACT) && Size(MAX_COMPACT) == 0x20 && Word(MAX_COMPACT) == 0x7f_ffff
  {
  }

  lemma SmallSize(c: u32)
    requires c <= MAX_COMPACT
    ensures Size(c) <= 0x20
  {
  }

  /** Cutting the compact form down to the largest target keeps that. */
  lemma CutIsLargest(n: nat, c: u32)
    requires ByteLength(n) < 254 && c == if CompactForBn(n) <= MAX_COMPACT then CompactForBn(n) else MAX_COMPACT
    ensures IsLargestUpTo(c, n)
  {
    MaxIsCanonical();
    CompactIsCanonical(n);
    hide Canonical, CompactForBn, Below, Size, ByteLength;
    forall k: u32 | Canonical(k) && k <= MAX_COMPACT ensures k <= c <==> Below(k, n) {
      SmallSize(k);
      CompactIsLargest(n, k);
    }
  }

  /** Only one value can be that. */
  lemma LargestIsUnique(c: u32, d: u32, n: nat)
    requires IsLargestUpTo(c, n) && IsLargestUpTo(d, n)
    ensures c == d
  {
    hide Canonical, Below;
  }

  // ---------- the effective target ----------

  /**
   * pc_get_effective_target, from what each quantity on the way is: `b` and `a` the work of the two
   * targets, `w` the effective work, `t` its target.
   */
  lemma EffectiveTargetIs(blockTar: u32, annTar: u32, annCount: nat, b: nat, a: nat, w: nat, t: nat)
    requires !Negative(blockTar) && !Negative(annTar)
    requires IsWorkOf(b, BnForCompact(blockTar)) && IsWorkOf(a, BnForCompact(annTar))
    requires IsEffectiveWork(w, b, a, annCount) && IsTargetOf(t, w)
    ensures IsLargestUpTo(GetEffectiveTarget(blockTar, annTar, annCount), t)
  {
    hide *;
    WorkForTarIff(b, BnForCompact(blockTar));
    WorkForTarIff(a, BnForCompact(annTar));
    EffectiveWorkIff(w, b, a, annCount);
    TarForWorkIff(t, w);
    EffectiveSteps(blockTar, annTar, annCount);
    TarIsShort(w);
    CutIsLargest(t, GetEffectiveTarget(blockTar, annTar, annCount));
  }

  lemma EffectiveSteps(blockTar: u32, annTar: u32, annCount: nat)
    requires !Negative(blockTar) && !Negative(annTar)
    ensures var t := TarForWork(EffectiveWork(WorkForTar(BnForCompact(blockTar)), WorkForTar(BnForCompact(annTar)),
                                              annCount));
            && ByteLength(t) < 255
            && GetEffectiveTarget(blockTar, annTar, annCount) ==
                 if CompactForBn(t) <= MAX_COMPACT then CompactForBn(t) else MAX_COMPACT
  {
    hide TarForWork, EffectiveWork, WorkForTar, BnForCompact, ByteLength, CompactForBn, Negative;
    TarBounded(EffectiveWork(WorkForTar(BnForCompact(blockTar)), WorkForTar(BnForCompact(annTar)), annCount));
  }

  lemma TarIsShort(work: nat)
    ensures ByteLength(TarForWork(work)) < 254
  {
    TarSmall(work);
    assert Pow2(257) == 2 * Pow2(256);
    hide Pow2, TarForWork;
    BitsBracket(TarForWork(work), 257);
  }

  // ---------- ageing ----------

  /**
   * pc_degrade_announcement_target: four blocks on the integer has doubled, and with each block it
   * doubles again, until it needs 256 bits.
   */
  lemma DegradedTargetIs(annTar: u32, age: nat)
    requires !Negative(annTar)
    ensures var d := DegradeAnnouncementTarget(annTar, age);
            if age == 3 then d == annTar
            else if 3 < age <= 259 && BnForCompact(annTar) * Pow2(age - 3) < Pow2(255) then
              IsLargestUpTo(d, BnForCompact(annTar) * Pow2(age - 3))
            else d == NO_TARGET
  {
    hide BnForCompact, CompactForBn, Bits, Pow2, IsLargestUpTo;
    if 3 < age <= 259 {
      var m := BnForCompact(annTar) * Pow2(age - 3);
      BitsBracket(m, 255);
      if m < Pow2(255) {
        FitsTarget(m);
        CutIsLargest(m, CompactForBn(m));
      }
    }
  }

  /** 2^255 is where the compact forms pass the largest target. */
  lemma FitsTarget(m: nat)
    requires m < Pow2(255)
    ensures ByteLength(m) < 254 && CompactForBn(m) <= MAX_COMPACT
  {
    BitsBracket(m, 255);
    if m > 0 {
      CompactRounds(m);
      var c := CompactForBn(m);
      FieldsOf(c);
      hide CompactForBn, Word, Size, Bits;
      ExponentFits(m, Word(c), Size(c));
    } else {
      assert CompactForBn(m) == 0;
    }
  }

  lemma ExponentFits(m: nat, k: nat, e: nat)
    requires m < Pow2(255) && Rounds(m, k, e)
    ensures e <= 0x20
  {
    if e > 0x20 {
      hide *;
      LargePower(e);
      RoundsIs(m, k, e);
      TooLarge(m, k, Pow2(8 * e), Pow2(255));
    }
  }

  lemma RoundsIs(n: nat, m: nat, e: nat)
    requires Rounds(n, m, e)
    ensures 0x8000 <= m && m * Pow2(8 * e) <= n * 0x100_0000
  {
    hide Pow2;
  }

  lemma TooLarge(m: nat, k: nat, p: nat, q: nat)
    requires q * 0x100_0000 <= p * 0x8000 && 0x8000 <= k && m < q
    ensures m * 0x100_0000 < k * p
  {
    MulMonotone(0x8000, k, p);
  }

  lemma LargePower(e: nat)
    requires e > 0x20
    ensures Pow2(255) * 0x100_0000 <= Pow2(8 * e) * 0x8000
  {
    hide *;
    TwentyFourBits();
    FifteenBits();
    Pow2Adds(255, 24);
    Pow2Adds(8 * e, 15);
    Pow2Monotone(279, 8 * e + 15);
  }

  lemma FifteenBits()
    ensures Pow2(15) == 0x8000
  {
    SmallPowers();
    assert Pow2(16) == 2 * Pow2(15);
  }
}

/** The high half of a 64-bit product from 32-bit limbs (OpTemplate2.h), unsigned, signed and mixed. */
module MulHigh {
  import opened Words

  const B: nat := 0x1_0000_0000
  type i64 = x: int | -0x8000_0000_0000_0000 <= x < 0x8000_0000_0000_0000

  /** Conversion to uint64_t. */
  function Wrap64(x: int): u64 { x % TWO64 }

  function LNot(x: u64): u64 { MAX64 - x }
  function Neg(x: int): int { 0 - x }
  function Magnitude(x: int): nat { if x < 0 then 0 - x else x }

  function Mulhu64(a: u64, b: u64): u64 {
    var a0, a1, b0, b1 := a % B, a / B, b % B, b / B;
    LimbBound(a0, b0);
    LimbBound(a0, b1);
    LimbBound(a1, b0);
    LimbBound(a1, b1);
    var r00, r01, r10, r11 := a0 * b0, a0 * b1, a1 * b0, a1 * b1;
    var c := Wrap64(r00 / B + r01 % B + r10 % B);
    var c' := Wrap64(c / B + r01 / B + r10 / B + r11 % B);
    var r2, r3 := c' % B, (c' / B + r11 / B) % B;
    r3 * B + r2
  }

  lemma LimbBound(x: nat, y: nat)
    requires x < B && y < B
    ensures 0 <= x * y <= 0xffff_fffe_0000_0001
  {
    MulMonotone(x, 0xffff_ffff, y);
  }

  lemma ProductBound(a: u64, b: u64)
    ensures 0 <= a * b <= MAX64 * MAX64
  {
    MulMonotone(a, MAX64, b);
    MulMonotone(b, MAX64, MAX64);
  }

  lemma LimbProduct(a0: nat, a1: nat, b0: nat, b1: nat)
    ensures (a1 * B + a0) * (b1 * B + b0) == a1 * b1 * TWO64 + (a0 * b1 + a1 * b0) * B + a0 * b0
  {
    assert (a1 * B + a0) * (b1 * B + b0) == a1 * B * (b1 * B) + a1 * B * b0 + a0 * (b1 * B) + a0 * b0;
    assert a1 * B * (b1 * B) == a1 * b1 * TWO64;
    assert a1 * B * b0 == a1 * b0 * B;
    assert a0 * (b1 * B) == a0 * b1 * B;
  }

  /** Limb products written with their halves add up column by column. */
  lemma Columns(h00: nat, l00: nat, h01: nat, l01: nat, h10: nat, l10: nat, h11: nat, l11: nat, hc: nat, lc: nat)
    requires h00 + l01 + l10 == hc * 0x1_0000_0000 + lc
    ensures (h11 * 0x1_0000_0000 + l11) * TWO64
              + (h01 * 0x1_0000_0000 + l01 + h10 * 0x1_0000_0000 + l10) * 0x1_0000_0000
              + h00 * 0x1_0000_0000 + l00
         == (h11 * 0x1_0000_0000 + (hc + h01 + h10 + l11)) * TWO64 + lc * 0x1_0000_0000 + l00
  {
  }

  lemma Quotient(total: nat, q: nat, low: nat)
    requires total == q * TWO64 + low && low < TWO64
    ensures total / TWO64 == q
  {
  }

  lemma Halves(r: nat)
    ensures r == r / B * 0x1_0000_0000 + r % B
  {
  }

  /** Adding up limb products with carries. */
  lemma Carries(r00: nat, r01: nat, r10: nat, r11: nat)
    requires r00 <= 0xffff_fffe_0000_0001 && r01 <= 0xffff_fffe_0000_0001 && r10 <= 0xffff_fffe_0000_0001
    requires r11 <= 0xffff_fffe_0000_0001
    requires r11 * TWO64 + (r01 + r10) * B + r00 <= MAX64 * MAX64
    ensures var c := Wrap64(r00 / B + r01 % B + r10 % B);
            var c' := Wrap64(c / B + r01 / B + r10 / B + r11 % B);
            (c' / B + r11 / B) % B * B + c' % B == (r11 * TWO64 + (r01 + r10) * B + r00) / TWO64
  {
    var c := r00 / B + r01 % B + r10 % B;
    Small(c);
    var c' := c / B + r01 / B + r10 / B + r11 % B;
    Small(c');
    Halves(r00); Halves(r01); Halves(r10); Halves(r11); Halves(c); Halves(c');
    Columns(r00 / B, r00 % B, r01 / B, r01 % B, r10 / B, r10 % B, r11 / B, r11 % B, c / B, c % B);
    var total := r11 * TWO64 + (r01 + r10) * 0x1_0000_0000 + r00;
    var q := r11 / B * 0x1_0000_0000 + c';
    Quotient(total, q, c % B * 0x1_0000_0000 + r00 % B);
    TopLimb(r11 / B, c', total);
  }

  lemma Small(c: nat)
    requires c < TWO64
    ensures Wrap64(c) == c
  {
  }

  lemma TopLimb(h: nat, c: nat, total: nat)
    requires total <= MAX64 * MAX64 && total / TWO64 == h * 0x1_0000_0000 + c
    ensures (c / B + h) % B * B + c % B == h * 0x1_0000_0000 + c
  {
    assert total / TWO64 < TWO64;
    assert c / B + h < B;
  }

  /** Bits 64 to 127 of the product. */
  lemma MulhuIsHighHalf(a: u64, b: u64)
    ensures Mulhu64(a, b) == a * b / TWO64
  {
    hide Wrap64;
    var a0, a1, b0, b1 := a % B, a / B, b % B, b / B;
    LimbBound(a0, b0);
    LimbBound(a0, b1);
    LimbBound(a1, b0);
    LimbBound(a1, b1);
    LimbProduct(a0, a1, b0, b1);
    ProductBound(a, b);
    Carries(a0 * b0, a0 * b1, a1 * b0, a1 * b1);
  }

  function Mulh64(a: i64, b: i64): u64 {
    var negate := (a < 0) != (b < 0);
    var a', b' := Wrap64(if a < 0 then Neg(a) else a), Wrap64(if b < 0 then Neg(b) else b);
    var res := Mulhu64(a', b');
    if negate then (if Wrap64(a * b) == 0 then Wrap64(LNot(res) + 1) else LNot(res)) else res
  }

  function Mulhsu64(a: i64, b: u64): u64 {
    var a' := Wrap64(if a < 0 then Neg(a) else a);
    var res := Mulhu64(a', b);
    if a < 0 then (if Wrap64(Wrap64(a) * b) == 0 then Wrap64(LNot(res) + 1) else LNot(res)) else res
  }

  /** Negating a double word: complement the high half, and carry in if the low half is zero. */
  lemma NegatedHighHalf(p: nat)
    requires p < TWO64 * TWO64
    ensures Wrap64(Neg(p) / TWO64) == if p % TWO64 == 0 then Wrap64(LNot(p / TWO64) + 1) else LNot(p / TWO64)
  {
    var q, r := p / TWO64, p % TWO64;
    assert p == q * TWO64 + r;
    if r == 0 {
      assert Neg(p) / TWO64 == -q;
    } else {
      assert Neg(p) / TWO64 == -q - 1;
    }
  }

  lemma WrappedProduct(a: int, b: int)
    ensures Wrap64(Wrap64(a) * b) == Wrap64(a * b)
  {
    var k := a / TWO64;
    assert a == k * TWO64 + Wrap64(a);
    assert a * b == k * b * TWO64 + Wrap64(a) * b;
    AddMultiple(Wrap64(a) * b, k * b);
  }

  lemma AddMultiple(x: int, k: int)
    ensures Wrap64(k * TWO64 + x) == Wrap64(x)
  {
  }

  lemma NegatedWrap(p: nat)
    ensures Wrap64(Neg(p)) == 0 <==> p % TWO64 == 0
  {
  }

  lemma SignedProduct(a: int, b: int)
    ensures a * b == if (a < 0) != (b < 0) then Neg(Magnitude(a) * Magnitude(b)) else Magnitude(a) * Magnitude(b)
  {
  }

  lemma HighFits(p: nat)
    requires p <= MAX64 * MAX64
    ensures Wrap64(p / TWO64) == p / TWO64
  {
  }

  /** Bits 64 to 127 of the signed product, as two's complement. */
  lemma MulhIsHighHalf(a: i64, b: i64)
    ensures Mulh64(a, b) == Wrap64(a * b / TWO64)
  {
    var a', b' := Magnitude(a), Magnitude(b);
    MulhuIsHighHalf(a', b');
    ProductBound(a', b');
    SignedProduct(a, b);
    var p := a' * b';
    NegatedHighHalf(p);
    NegatedWrap(p);
    HighFits(p);
    Small(a');
    Small(b');
    hide Mulhu64, Wrap64;
  }

  /** Bits 64 to 127 of the product of a signed and an unsigned word, as two's complement. */
  lemma MulhsuIsHighHalf(a: i64, b: u64)
    ensures Mulhsu64(a, b) == Wrap64(a * b / TWO64)
  {
    var a' := Magnitude(a);
    MulhuIsHighHalf(a', b);
    ProductBound(a', b);
    WrappedProduct(a, b);
    SignedProduct(a, b);
    var p := a' * b;
    NegatedHighHalf(p);
    NegatedWrap(p);
    HighFits(p);
    Small(a');
    hide Mulhu64, Wrap64;
  }
}

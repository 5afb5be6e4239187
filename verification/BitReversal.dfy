/** pathForNum: the reversal of the low `h` bits of a number, as arithmetic. */
module BitReversal {
  import opened Words

  function Rev(n: nat, h: nat): (r: nat)
    ensures r < Pow2(h)
  {
    if h == 0 then 0 else
      assert (n % 2) * Pow2(h - 1) <= Pow2(h - 1);
      (n % 2) * Pow2(h - 1) + Rev(n / 2, h - 1)
  }

  lemma {:induction false} RevZero(h: nat)
    ensures Rev(0, h) == 0
  {
    if h > 0 {
      RevZero(h - 1);
    }
  }

  lemma {:induction false} RevInjective(m: nat, n: nat, h: nat)
    requires m < Pow2(h) && n < Pow2(h)
    requires Rev(m, h) == Rev(n, h)
    ensures m == n
  {
    if h > 0 {
      var p := Pow2(h - 1);
      assert (m % 2) * p == (if m % 2 == 0 then 0 else p);
      assert (n % 2) * p == (if n % 2 == 0 then 0 else p);
      RevInjective(m / 2, n / 2, h - 1);
    }
  }

  lemma Distribute(a: nat, b: nat, c: nat)
    ensures (a + b) * c == a * c + b * c
  {
  }

  lemma HalfOfSum(lo: nat, c: nat, m: nat)
    requires m > 0
    ensures (lo + c * Pow2(m)) % 2 == lo % 2
    ensures (lo + c * Pow2(m)) / 2 == lo / 2 + c * Pow2(m - 1)
  {
    var q := c * Pow2(m - 1);
    DoubleFactor(c, Pow2(m - 1));
    assert c * Pow2(m) == 2 * q;
  }

  /** The reversal of `c * 2^m + lo` swaps the two parts. */
  lemma {:induction false} RevSplits(lo: nat, c: nat, m: nat, n: nat)
    requires lo < Pow2(m)
    ensures Rev(lo + c * Pow2(m), m + n) == Rev(lo, m) * Pow2(n) + Rev(c, n)
  {
    if m > 0 {
      HalfOfSum(lo, c, m);
      RevSplits(lo / 2, c, m - 1, n);
      Pow2Adds(m - 1, n);
      if lo % 2 == 0 {
        assert Rev(lo, m) == Rev(lo / 2, m - 1);
      } else {
        Distribute(Pow2(m - 1), Rev(lo / 2, m - 1), Pow2(n));
      }
    }
  }

  lemma RevOneBit(b: nat)
    requires b < 2
    ensures Rev(b, 1) == b && Pow2(1) == 2
  {
  }

  lemma {:induction false} RevInvolutive(k: nat, h: nat)
    requires k < Pow2(h)
    ensures Rev(Rev(k, h), h) == k
  {
    if h > 0 {
      var lo := Rev(k / 2, h - 1);
      RevInvolutive(k / 2, h - 1);
      RevSplits(lo, k % 2, h - 1, 1);
      RevOneBit(k % 2);
      assert Rev(k, h) == lo + (k % 2) * Pow2(h - 1);
      hide Rev, Pow2;
      assert Rev(lo, h - 1) * 2 + k % 2 == k;
    }
  }

  /** A path of `j` bits, read back at height `h`, is the number of the leftmost leaf below it. */
  lemma RevOfPath(k: nat, j: nat, h: nat)
    requires k < Pow2(j) && j <= h
    ensures Rev(Rev(k, j), h) == k * Pow2(h - j)
  {
    var b := Rev(k, j);
    RevInvolutive(k, j);
    RevSplits(b, 0, j, h - j);
    RevZero(h - j);
    assert b + 0 * Pow2(j) == b;
  }

  /** The first step of a path is the top bit of the number. */
  lemma {:induction false} RevFirstStep(n: nat, h: nat)
    requires h > 0
    ensures Rev(n, h) == 2 * Rev(n, h - 1) + Shr(n, h - 1) % 2
  {
    if h > 1 {
      RevFirstStep(n / 2, h - 1);
      ShrAdds(n, 1, h - 2);
      assert Shr(n, 1) == n / 2;
      DoubleFactor(n % 2, Pow2(h - 2));
    } else {
      assert Pow2(0) == 1 && Rev(n, 0) == 0 && Rev(n / 2, 0) == 0;
    }
  }

  /** The low `j` bits of a path are the path to the ancestor `j` steps below the root. */
  lemma {:induction false} RevPrefix(n: nat, j: nat, h: nat)
    requires j <= h
    ensures Rev(n, h) % Pow2(j) == Rev(Shr(n, h - j), j)
    decreases h
  {
    if j == h {
      ModSmall(Rev(n, h), Pow2(h));
    } else {
      RevPrefix(n / 2, j, h - 1);
      ShrAdds(n, 1, h - 1 - j);
      assert Shr(n, 1) == n / 2;
      Pow2Adds(h - 1 - j, j);
      ModOfSum(n % 2, Pow2(h - 1 - j), Pow2(j), Rev(n / 2, h - 1));
    }
  }

  lemma ModSmall(a: nat, m: nat)
    requires a < m
    ensures a % m == a
  {
  }

  lemma ModOfSum(b: nat, c: nat, m: nat, x: nat)
    requires b < 2 && m > 0
    ensures (b * (c * m) + x) % m == x % m
  {
    if b == 1 {
      ModOfMultiple(c, m, x);
    }
  }

  lemma {:induction false} ModOfMultiple(c: nat, m: nat, x: nat)
    requires m > 0
    ensures (c * m + x) % m == x % m
  {
    var q, r := x / m, x % m;
    assert x == q * m + r;
    Distribute(c, q, m);
    var y := c * m + x;
    assert y == (c + q) * m + r;
    assert y == (y / m) * m + y % m;
    BracketIsUnique(y, m, c + q, y / m);
  }
}

/** 32-bit machine words as bounded integers, with the bitwise operators of C
    defined bit by bit.  `unsigned int`, `size_t`, `mut_reg` and `mut_exec_addr`
    are all 32 bits wide on the platforms the tracker supports. */
module Words {
  const WORD: int := 0x1_0000_0000

  type Word = x: int | 0 <= x < 0x1_0000_0000
  type Byte = x: int | 0 <= x < 256

  datatype Option<+T> = None | Some(value: T)

  /** Conversion to an unsigned 32-bit type. */
  function Wrap(x: int): Word {
    x % WORD
  }

  lemma WrapSame(x: int)
    ensures 0 <= x < WORD ==> Wrap(x) == x
  {
  }

  /** Wrapping a summand first makes no difference. */
  lemma WrapSum(x: int, y: int)
    ensures Wrap(Wrap(x) + y) == Wrap(x + y) == Wrap(x + Wrap(y))
  {
  }

  /** The least multiple of four not below a size. */
  function Ceiling(n: nat): (c: nat)
    ensures n <= c < n + 4
  {
    (n + 3) / 4 * 4
  }

  function Pow2(k: nat): (p: nat)
    ensures p >= 1
  {
    if k == 0 then 1 else 2 * Pow2(k - 1)
  }

  /** Bitwise `&`. */
  function And(x: nat, y: nat): nat
    decreases x
  {
    if x == 0 || y == 0 then 0
    else (if x % 2 == 1 && y % 2 == 1 then 1 else 0) + 2 * And(x / 2, y / 2)
  }

  /** Bitwise `|`. */
  function Or(x: nat, y: nat): nat
    decreases x + y
  {
    if x == 0 && y == 0 then 0
    else (if x % 2 == 1 || y % 2 == 1 then 1 else 0) + 2 * Or(x / 2, y / 2)
  }

  /** Bitwise `~` on a word. */
  function Not(x: Word): Word {
    WORD - 1 - x
  }

  function Shl(x: nat, k: nat): Word {
    Wrap(x * Pow2(k))
  }

  function Shr(x: nat, k: nat): nat {
    Quot(x, Pow2(k))
  }

  lemma {:induction false} OrZero(x: nat)
    ensures Or(x, 0) == x && Or(0, x) == x
  {
    if x != 0 {
      OrZero(x / 2);
    }
  }

  lemma {:induction false} AndZero(x: nat)
    ensures And(x, 0) == 0 && And(0, x) == 0
  {
  }

  /** Powers of two multiply by adding exponents. */
  lemma {:induction false} Pow2Add(j: nat, k: nat)
    ensures Pow2(j + k) == Pow2(j) * Pow2(k)
  {
    if j != 0 {
      Pow2Add(j - 1, k);
      assert Pow2(j + k) == 2 * (Pow2(j - 1) * Pow2(k)) == (2 * Pow2(j - 1)) * Pow2(k);
    }
  }

  lemma Pow2Values()
    ensures Pow2(1) == 2 && Pow2(3) == 8 && Pow2(4) == 16 && Pow2(8) == 256
    ensures Pow2(16) == 65536 && Pow2(24) == 0x100_0000 && Pow2(28) == 0x1000_0000 && Pow2(32) == WORD
  {
    assert Pow2(2) == 4 && Pow2(4) == 16;
    Pow2Add(4, 4);
    Pow2Add(8, 8);
    Pow2Add(16, 8);
    Pow2Add(24, 4);
    Pow2Add(16, 16);
  }

  /** Bitwise operators work separately on the part below bit `k` and the part above it. */
  lemma {:induction false} BitwiseSplit(x: nat, y: nat, a: nat, b: nat, c: nat, d: nat, k: nat)
    requires b < Pow2(k) && d < Pow2(k)
    requires x == a * Pow2(k) + b && y == c * Pow2(k) + d
    ensures And(x, y) == And(a, c) * Pow2(k) + And(b, d)
    ensures Or(x, y) == Or(a, c) * Pow2(k) + Or(b, d)
  {
    hide And, Or;
    if k == 0 {
      OrZero(0);
      AndZero(0);
    } else {
      var p := Pow2(k - 1);
      MulTwice(a, p);
      MulTwice(c, p);
      MulTwice(And(a, c), p);
      MulTwice(Or(a, c), p);
      assert x / 2 == a * p + b / 2 && y / 2 == c * p + d / 2;
      BitwiseSplit(x / 2, y / 2, a, b / 2, c, d / 2, k - 1);
      BitwiseStep(x / 2, x % 2, y / 2, y % 2);
      BitwiseStep(b / 2, b % 2, d / 2, d % 2);
    }
  }

  lemma MulTwice(a: int, p: int)
    ensures a * (2 * p) == 2 * (a * p)
  {
  }

  lemma BitwiseStep(x: nat, i: nat, y: nat, j: nat)
    requires i < 2 && j < 2
    ensures And(2 * x + i, 2 * y + j) == 2 * And(x, y) + (if i == 1 && j == 1 then 1 else 0)
    ensures Or(2 * x + i, 2 * y + j) == 2 * Or(x, y) + (if i == 1 || j == 1 then 1 else 0)
  {
    assert (2 * x + i) / 2 == x && (2 * y + j) / 2 == y;
    assert (2 * x + i) % 2 == i && (2 * y + j) % 2 == j;
    AndZero(x);
    AndZero(y);
  }

  /** Masking with a run of `k` low ones is reduction modulo 2^k. */
  lemma {:induction false} AndLowMask(x: nat, k: nat)
    ensures And(x, Pow2(k) - 1) == Rem(x, Pow2(k))
  {
    hide And, Rem;
    if k == 0 {
      AndZero(x);
      RemSmall(0, 1);
      DivModUnique(x, 1, x, 0);
    } else {
      assert Pow2(k) == 2 * Pow2(k - 1);
      hide Pow2;
      AndLowMask(x / 2, k - 1);
      BitwiseStep(x / 2, x % 2, Pow2(k - 1) - 1, 1);
      RemSplit(x, 2, Pow2(k - 1), Pow2(k));
    }
  }

  // Quotient and remainder by a divisor that is not a literal.

  function Quot(x: nat, d: nat): nat
    requires d > 0
  {
    DivNonNegative(x, d);
    x / d
  }

  function Rem(x: nat, d: nat): (r: nat)
    requires d > 0
    ensures r < d
  {
    x % d
  }

  lemma QuotRem(x: nat, d: nat)
    requires d > 0
    ensures x == Quot(x, d) * d + Rem(x, d)
  {
  }

  /** Quotient and remainder are determined by the division equation. */
  lemma DivModUnique(n: nat, d: nat, q: nat, r: nat)
    requires 0 < d && n == q * d + r && r < d
    ensures Quot(n, d) == q && Rem(n, d) == r
  {
    var q', r' := Quot(n, d), Rem(n, d);
    QuotRem(n, d);
    hide Quot, Rem;
    assert (q - q') * d == r' - r;
    if q' < q {
      MulLe(1, q - q', d);
    } else if q < q' {
      MulLe(1, q' - q, d);
    }
  }

  lemma RemSmall(x: nat, d: nat)
    requires x < d
    ensures Rem(x, d) == x && Quot(x, d) == 0
  {
    DivModUnique(x, d, 0, x);
  }

  lemma DivNonNegative(x: nat, d: nat)
    requires d > 0
    ensures x / d >= 0
  {
  }

  lemma MulLe(a: int, b: int, c: int)
    requires a <= b && 0 <= c
    ensures a * c <= b * c
  {
  }

  /** Dividing by `p` and then by `q` is dividing by pq; a residue modulo pq has its last base-`p`
      digit and the rest. */
  lemma QuotQuot(n: nat, p: nat, q: nat, pq: nat)
    requires 0 < p && 0 < q && pq == p * q && 0 < pq
    ensures Quot(Quot(n, p), q) == Quot(n, pq)
    ensures Rem(n, pq) == Rem(Quot(n, p), q) * p + Rem(n, p)
  {
    var u, low := Quot(n, p), Rem(n, p);
    QuotRem(n, p);
    QuotRem(u, q);
    var v, w := Quot(u, q), Rem(u, q);
    hide Quot, Rem;
    assert n == v * pq + (w * p + low) by {
      assert n == (v * q + w) * p + low;
      assert (v * q) * p == v * (p * q);
    }
    assert w * p + low < pq by {
      MulLe(w, q - 1, p);
    }
    MulLe(0, w, p);
    DivModUnique(n, pq, v, w * p + low);
  }

  /** The same with a literal first divisor. */
  lemma RemSplit(y: nat, d: nat, m: nat, dm: nat)
    requires d == 2 || d == 16
    requires 0 < m && dm == d * m
    ensures Rem(y, dm) == Rem(y / d, m) * d + y % d
    ensures Quot(y / d, m) == Quot(y, dm)
  {
    assert Quot(y, d) == y / d && Rem(y, d) == y % d;
    hide Quot, Rem;
    QuotQuot(y, d, m, dm);
  }

  /** The same with sixteen as the second divisor. */
  lemma RemSplit16(n: nat, p: nat, p16: nat)
    requires 0 < p && p16 == 16 * p
    ensures Quot(n, p) / 16 == Quot(n, p16)
    ensures Rem(n, p16) == (Quot(n, p) % 16) * p + Rem(n, p)
  {
    assert Quot(Quot(n, p), 16) == Quot(n, p) / 16 && Rem(Quot(n, p), 16) == Quot(n, p) % 16;
    hide Quot, Rem;
    QuotQuot(n, p, 16, p16);
  }
}

/** The two-word 64-bit counter: src/uint64/struct/mut_uint64.c. */
module Uint64 {
  import opened Words

  datatype TwoWord = TwoWord(hi: Word, lo: Word)

  function Value(x: TwoWord): nat {
    x.hi * WORD + x.lo
  }

  function FromUint(ui: Word): (x: TwoWord)
    ensures Value(x) == ui
  {
    TwoWord(0, ui)
  }

  /** `stale` is whatever the uninitialised `ans.hi` happens to hold in the carry branch. */
  function Inc(x: TwoWord, ui: Word, stale: Word): TwoWord {
    if WORD - 1 - x.lo < ui then
      TwoWord(Wrap(stale + 1),
              if x.lo > ui then Wrap(ui - (WORD - 1 - x.lo) - 1) else Wrap(x.lo - (WORD - 1 - ui) - 1))
    else
      TwoWord(x.hi, x.lo + ui)
  }

  /** `None` is the failed underflow assertion; `stale` as in `Inc`. */
  function Dec(x: TwoWord, ui: Word, stale: Word): Option<TwoWord> {
    if x.lo < ui then
      if x.hi > 0 then Some(TwoWord(Wrap(stale - 1), Wrap(WORD - 1 - (ui - x.lo) + 1))) else None
    else
      Some(TwoWord(x.hi, x.lo - ui))
  }

  predicate Lt(a: TwoWord, b: TwoWord) {
    a.hi <= b.hi && a.lo < b.lo
  }

  /** The low word of a sum is right modulo 2^32, and the whole sum is right whatever the
      uninitialised word holds exactly when there is no carry. */
  lemma IncExactIffNoCarry(x: TwoWord, ui: Word)
    ensures forall stale :: Inc(x, ui, stale).lo == Wrap(x.lo + ui)
    ensures (forall stale :: Value(Inc(x, ui, stale)) == Value(x) + ui) <==> x.lo + ui < WORD
  {
    if x.lo + ui >= WORD {
      var other := Wrap(x.hi + 1);
      assert Inc(x, ui, x.hi).lo == Inc(x, ui, other).lo;
      assert Value(Inc(x, ui, x.hi)) != Value(Inc(x, ui, other));
    }
  }

  /** The same for differences: no borrow is needed; with a borrow the low word is still right
      modulo 2^32, and the assertion stops exactly the true underflows. */
  lemma DecExactIffNoBorrow(x: TwoWord, ui: Word)
    ensures forall stale :: Dec(x, ui, stale).None? <==> Value(x) < ui
    ensures forall stale :: Dec(x, ui, stale).Some? ==> Dec(x, ui, stale).value.lo == Wrap(x.lo - ui)
    ensures (forall stale :: Dec(x, ui, stale).Some? && Value(Dec(x, ui, stale).value) == Value(x) - ui) <==> ui <= x.lo
  {
    if x.lo < ui {
      if x.hi == 0 {
        assert Dec(x, ui, 0).None?;
      } else {
        var other := Wrap(x.hi + 1);
        assert Dec(x, ui, x.hi).value.lo == Dec(x, ui, other).value.lo;
        assert Value(Dec(x, ui, x.hi).value) != Value(Dec(x, ui, other).value);
      }
    }
  }

  /** `Lt` never claims too much, and it misses exactly the pairs whose high words differ
      while the low words are not increasing. */
  lemma LtExactIff(a: TwoWord, b: TwoWord)
    ensures Lt(a, b) ==> Value(a) < Value(b)
    ensures (Lt(a, b) <==> Value(a) < Value(b)) <==> !(a.hi < b.hi && b.lo <= a.lo)
  {
  }

  // ---- division by ten --------------------------------------------------

  /** After the bits from `t` upwards are consumed: `ans` and `r` are quotient and remainder of
      the carry-in `c` followed by the top 32-t bits of `orig`. */
  ghost predicate Divided(ans: nat, r: nat, c: nat, orig: Word, t: nat)
    requires t <= 32
  {
    && r < 10 && c < 10
    && ans * 10 + r == c * Pow2(32 - t) + Quot(orig, Pow2(t))
    && ans < Pow2(32 - t)
  }

  /** What the working word holds: the unread low `t` bits of `orig`, and above them, as far as a
      mask of `m` bits placed at the next nibble can see, the remainder `r` and otherwise zeros. */
  ghost predicate Exposed(n: Word, orig: Word, t: nat, m: nat, r: nat)
    requires t <= 32
  {
    && 4 <= m <= 32 && m % 4 == 0
    && Rem(Quot(n, Pow2(t)), Pow2(m - 4)) == r
    && Rem(n, Pow2(t)) == Rem(orig, Pow2(t))
  }

  function NextMask(mask: nat, x: nat): nat {
    if x == 0 then Or(Shl(mask, 4), mask) else 255
  }

  function NextN(n: Word, r: nat, shift: nat): nat {
    Or(Shl(r, shift), And(n, Not(Shl(15, shift))))
  }

  ghost function NextBits(m: nat, x: nat): nat {
    if x != 0 then 8 else if m < 32 then m + 4 else 32
  }

  /** The nibble of `n` at bit `s`. */
  ghost function Nibble(n: nat, s: nat): nat {
    Quot(n, Pow2(s)) % 16
  }

  lemma Pow2By4(k: nat)
    ensures Pow2(k + 4) == 16 * Pow2(k)
  {
    assert Pow2(k + 4) == 2 * Pow2(k + 3);
    assert Pow2(k + 3) == 2 * Pow2(k + 2);
  }

  lemma Pow2Bound(k: nat)
    requires k <= 32
    ensures Pow2(k) <= WORD && Pow2(k) * Pow2(32 - k) == WORD
  {
    Pow2Values();
    hide Pow2;
    Pow2Add(k, 32 - k);
    MulLe(1, Pow2(32 - k), Pow2(k));
  }

  lemma MaskWidens(m: nat, x: nat)
    requires 4 <= m <= 32 && m % 4 == 0
    ensures Pow2(m) <= WORD
    ensures NextMask(Pow2(m) - 1, x) == Pow2(NextBits(m, x)) - 1
  {
    hide And, Or, Pow2, Shl;
    Pow2Bound(m);
    if x == 0 {
      WidenedMask(if m < 32 then m else 28, m);
    } else {
      Pow2Values();
    }
  }

  lemma WidenedMask(high: nat, m: nat)
    requires 4 <= m <= 32 && m % 4 == 0
    requires high == if m < 32 then m else 28
    ensures Or(Shl(Pow2(m) - 1, 4), Pow2(m) - 1) == Pow2(high + 4) - 1
  {
    Pow2Values();
    hide And, Or, Pow2;
    Pow2By4(m - 4);
    Pow2By4(high);
    Pow2Bound(high + 4);
    BitwiseSplit(Shl(Pow2(m) - 1, 4), Pow2(m) - 1, Pow2(high) - 1, 0, Pow2(m - 4) - 1, 15, 4);
    OrLowMasks(high, m - 4);
    OrZero(15);
  }

  /** Of two runs of low ones the longer absorbs the shorter. */
  lemma {:induction false} OrLowMasks(j: nat, k: nat)
    requires k <= j
    ensures Or(Pow2(j) - 1, Pow2(k) - 1) == Pow2(j) - 1
  {
    hide Or;
    if k == 0 {
      OrZero(Pow2(j) - 1);
    } else {
      OrLowMasks(j - 1, k - 1);
      BitwiseStep(Pow2(j - 1) - 1, 1, Pow2(k - 1) - 1, 1);
    }
  }

  /** The bits selected at the next nibble are the remainder followed by that nibble. */
  lemma SelectedBits(n: Word, orig: Word, t: nat, m: nat, r: nat)
    requires 4 <= t <= 32 && Exposed(n, orig, t, m, r)
    ensures And(Shr(n, t - 4), Pow2(m) - 1) == 16 * r + Nibble(orig, t - 4)
  {
    hide And, Or, Pow2, Quot, Rem;
    var p := Pow2(t - 4);
    Pow2By4(t - 4);
    Pow2By4(m - 4);
    AndLowMask(Quot(n, p), m);
    RemSplit(Quot(n, p), 16, Pow2(m - 4), Pow2(m));
    RemSplit16(n, p, Pow2(t));
    SameNibble(n, orig, p, Pow2(t));
  }

  /** Words that agree below 16p agree on the nibble at p, and below p. */
  lemma SameNibble(n: nat, orig: nat, p: nat, p16: nat)
    requires 0 < p && p16 == 16 * p && Rem(n, p16) == Rem(orig, p16)
    ensures Quot(n, p) % 16 == Quot(orig, p) % 16 && Rem(n, p) == Rem(orig, p)
  {
    hide Quot, Rem;
    RemSplit16(n, p, p16);
    RemSplit16(orig, p, p16);
    DivModUnique(Rem(n, p16), p, Quot(n, p) % 16, Rem(n, p));
    DivModUnique(Rem(n, p16), p, Quot(orig, p) % 16, Rem(orig, p));
  }

  /** The low nibble of `top` is cleared by a mask that ends in a zero nibble. */
  lemma ClearNibble(top: nat, keep: nat, k: nat)
    requires top / 16 < Pow2(k) && keep == (Pow2(k) - 1) * 16
    ensures And(top, keep) == 16 * (top / 16)
  {
    Pow2Values();
    hide And, Pow2, Rem;
    BitwiseSplit(top, keep, top / 16, top % 16, Pow2(k) - 1, 0, 4);
    AndZero(top % 16);
    AndLowMask(top / 16, k);
    RemSmall(top / 16, Pow2(k));
  }

  /** Clearing the nibble at `shift` in n = top * 2^shift + low and writing `r` there. */
  lemma ReplaceBits(n: nat, hole: nat, digit: nat, top: nat, keep: nat, low: nat, r: nat, shift: nat)
    requires shift <= 28 && r < 16 && low < Pow2(shift)
    requires top / 16 < Pow2(28 - shift) && keep == (Pow2(28 - shift) - 1) * 16
    requires n == top * Pow2(shift) + low
    requires hole == keep * Pow2(shift) + (Pow2(shift) - 1)
    requires digit == r * Pow2(shift)
    ensures Or(digit, And(n, hole)) == (16 * (top / 16) + r) * Pow2(shift) + low
  {
    hide And, Or, Pow2, Rem;
    var u := top / 16;
    BitwiseSplit(n, hole, top, low, keep, Pow2(shift) - 1, shift);
    ClearNibble(top, keep, 28 - shift);
    AndLowMask(low, shift);
    RemSmall(low, Pow2(shift));
    AppendNibble(u, r, 16 * u);
    BitwiseSplit(digit, And(n, hole), r, 0, 16 * u, low, shift);
    OrZero(low);
  }

  /** Putting a nibble under a multiple of sixteen. */
  lemma AppendNibble(a: nat, q: nat, shifted: nat)
    requires q < 16 && shifted == 16 * a
    ensures Or(shifted, q) == 16 * a + q == Or(q, shifted)
  {
    Pow2Values();
    hide Or, Pow2;
    BitwiseSplit(shifted, q, a, 0, 0, q, 4);
    BitwiseSplit(q, shifted, 0, q, a, 0, 4);
    OrZero(a);
    OrZero(q);
  }

  /** The masks used at `shift`, and the size of the word above it. */
  lemma WordParts(n: Word, top: nat, low: nat, r: nat, p: nat, above: nat)
    requires p >= 1 && above >= 1 && p * (16 * above) == WORD && r < 16 && low < p
    requires n == top * p + low
    ensures top / 16 < above
    ensures Wrap(r * p) == r * p && Wrap(15 * p) == 15 * p
    ensures WORD - 1 - 15 * p == ((above - 1) * 16) * p + (p - 1)
    ensures (16 * (top / 16) + r) * p + low < WORD
  {
    hide Wrap;
    TopFits(n, top, low, p, above);
    NibbleFits(r, p, above);
    WrapSame(r * p);
    WrapSame(15 * p);
    MaskParts(p, above);
    BelowTop(16 * (top / 16) + r, 16 * above, p, low);
  }

  lemma MaskParts(p: nat, above: nat)
    requires above >= 1 && p * (16 * above) == WORD
    ensures WORD - 1 - 15 * p == ((above - 1) * 16) * p + (p - 1)
  {
    MinusTimes(16 * above, 16, p);
    assert ((above - 1) * 16) * p == (16 * above - 16) * p;
  }

  lemma BelowTop(x: nat, y: nat, p: nat, low: nat)
    requires x < y && p * y == WORD && low < p
    ensures x * p + low < WORD
  {
    MulLe(x, y - 1, p);
    MinusTimes(y, 1, p);
  }

  lemma TopFits(n: Word, top: nat, low: nat, p: nat, above: nat)
    requires p * (16 * above) == WORD && n == top * p + low
    ensures top < 16 * above
  {
    if 16 * above <= top {
      MulLe(16 * above, top, p);
    }
  }

  lemma NibbleFits(r: nat, p: nat, above: nat)
    requires p >= 1 && above >= 1 && p * (16 * above) == WORD && r < 16
    ensures 0 <= r * p <= 15 * p < WORD
  {
    MulLe(r, 15, p);
    MulLe(1, above, 16 * p);
    assert above * (16 * p) == p * (16 * above);
  }

  lemma MinusTimes(a: int, b: int, c: int)
    ensures (a - b) * c == a * c - b * c
  {
  }

  /** Replacing the nibble at `shift` changes nothing else. */
  lemma ReplaceNibble(n: Word, r: nat, shift: nat)
    requires shift <= 28 && r < 16
    ensures NextN(n, r, shift) < WORD
    ensures Rem(NextN(n, r, shift), Pow2(shift)) == Rem(n, Pow2(shift))
    ensures Quot(NextN(n, r, shift), Pow2(shift)) == 16 * (Quot(n, Pow2(shift)) / 16) + r
  {
    hide And, Or, Pow2, Quot, Rem;
    var p, above := Pow2(shift), Pow2(28 - shift);
    var top, low := Quot(n, p), Rem(n, p);
    assert n == top * p + low by {
      QuotRem(n, p);
    }
    assert p * (16 * above) == WORD by {
      Pow2Bound(shift);
      Pow2By4(28 - shift);
    }
    WordParts(n, top, low, r, p, above);
    assert NextN(n, r, shift) == (16 * (top / 16) + r) * p + low by {
      ReplaceBits(n, Not(Shl(15, shift)), Shl(r, shift), top, (above - 1) * 16, low, r, shift);
    }
    hide NextN;
    DivModUnique(NextN(n, r, shift), p, 16 * (top / 16) + r, low);
  }

  /** One nibble further: the exposed window moves down and nothing stale enters it. */
  lemma ExposedStep(n: Word, orig: Word, t: nat, m: nat, r: nat, x: nat)
    requires 4 <= t <= 32 && Exposed(n, orig, t, m, r) && r < 10
    requires x == 16 * r + Nibble(orig, t - 4)
    ensures NextN(n, x % 10, t - 4) < WORD
    ensures Exposed(NextN(n, x % 10, t - 4), orig, t - 4, NextBits(m, x), x % 10)
  {
    hide And, Or, Pow2, NextN, Quot, Rem;
    var p := Pow2(t - 4);
    Pow2By4(t - 4);
    ReplaceNibble(n, x % 10, t - 4);
    SameNibble(n, orig, p, Pow2(t));
    RemSplit16(n, p, Pow2(t));
    NextWindow(Quot(n, Pow2(t)), Quot(NextN(n, x % 10, t - 4), p), m, r, x);
  }

  /** If everything the old mask saw was zero, the wider mask sees the cleared nibble and zeros. */
  lemma NextWindow(y: nat, z: nat, m: nat, r: nat, x: nat)
    requires 4 <= m <= 32 && m % 4 == 0 && 16 * r <= x
    requires Rem(y, Pow2(m - 4)) == r
    requires z == 16 * y + x % 10
    ensures Rem(z, Pow2(NextBits(m, x) - 4)) == x % 10
  {
    hide Pow2, Quot, Rem;
    if x == 0 {
      var seen := if m < 32 then m - 4 else 24;
      if m == 32 {
        LowBitsOfZero(y, 24, 4);
      }
      Pow2By4(seen);
      RemSplit(z, 16, Pow2(seen), Pow2(seen + 4));
    } else {
      Pow2Values();
      LastNibble(z);
    }
  }

  lemma LastNibble(z: nat)
    ensures Rem(z, 16) == z % 16
  {
  }

  /** A residue that vanishes modulo a power of two vanishes modulo every smaller one. */
  lemma LowBitsOfZero(y: nat, j: nat, k: nat)
    requires Rem(y, Pow2(j + k)) == 0
    ensures Rem(y, Pow2(j)) == 0
  {
    hide Pow2, Quot, Rem;
    Pow2Add(j, k);
    QuotQuot(y, Pow2(j), Pow2(k), Pow2(j + k));
    MulLe(0, Rem(Quot(y, Pow2(j)), Pow2(k)), Pow2(j));
  }

  /** One nibble further: the quotient gains a digit in base sixteen. */
  lemma DividedStep(ans: nat, r: nat, c: nat, orig: Word, t: nat, x: nat)
    requires 4 <= t <= 32 && Divided(ans, r, c, orig, t)
    requires x == 16 * r + Nibble(orig, t - 4)
    ensures Or(Shl(ans, 4), x / 10) < WORD
    ensures Divided(Or(Shl(ans, 4), x / 10), x % 10, c, orig, t - 4)
  {
    hide And, Or, Pow2, Shl, Quot, Rem;
    NextDigit(ans, r, c, Pow2(32 - t), Quot(orig, Pow2(t)), Nibble(orig, t - 4));
    Pow2By4(t - 4);
    RemSplit16(orig, Pow2(t - 4), Pow2(t));
    Pow2By4(32 - t);
    Pow2Bound(36 - t);
    ShlNibble(ans);
    AppendNibble(ans, x / 10, 16 * ans);
  }

  lemma ShlNibble(a: nat)
    requires 16 * a < WORD
    ensures Shl(a, 4) == 16 * a
  {
    Pow2Values();
  }

  /** Long division in base sixteen: one more digit of dividend gives one more digit of quotient. */
  lemma NextDigit(ans: nat, r: nat, c: nat, before: nat, prefix: nat, nib: nat)
    requires r < 10 && nib < 16 && ans < before && ans * 10 + r == c * before + prefix
    ensures (16 * ans + (16 * r + nib) / 10) * 10 + (16 * r + nib) % 10 == c * (16 * before) + (16 * prefix + nib)
    ensures 16 * ans + (16 * r + nib) / 10 < 16 * before
  {
    assert c * (16 * before) == 16 * (c * before);
  }

  /** All a nibble step needs, in one place. */
  lemma NibbleStep(n: Word, orig: Word, t: nat, m: nat, r: nat, ans: nat, c: nat, x: nat)
    requires 4 <= t <= 32 && Exposed(n, orig, t, m, r) && Divided(ans, r, c, orig, t)
    requires x == And(Shr(n, t - 4), Pow2(m) - 1)
    ensures NextMask(Pow2(m) - 1, x) == Pow2(NextBits(m, x)) - 1
    ensures NextN(n, x % 10, t - 4) < WORD && Or(Shl(ans, 4), x / 10) < WORD
    ensures Exposed(NextN(n, x % 10, t - 4), orig, t - 4, NextBits(m, x), x % 10)
    ensures Divided(Or(Shl(ans, 4), x / 10), x % 10, c, orig, t - 4)
  {
    hide And, Or, Pow2, NextN, NextMask, Shl, Shr, Quot, Rem, Nibble;
    SelectedBits(n, orig, t, m, r);
    ExposedStep(n, orig, t, m, r, x);
    DividedStep(ans, r, c, orig, t, x);
    MaskWidens(m, x);
  }

  /** Divides `n` by ten in place: returns the quotient that overwrites `n`, and the remainder. */
  method Udiv10(n: TwoWord) returns (q: TwoWord, r: Word)
    ensures Value(n) == 10 * Value(q) + r && r < 10
  {
    hide And, Or, Pow2, NextN, NextMask, NextBits, Shl, Shr, Exposed, Divided, Value;
    HighWordStart(n.hi);
    var nHi: Word, nLo: Word := n.hi, n.lo;
    var ansHi: Word, ansLo: Word := 0, 0;
    var shift, mask := 28, 15;
    ghost var m := 4;
    r := 0;
    while shift != 0
      invariant 0 <= shift <= 28 && shift % 4 == 0
      invariant Exposed(nHi, n.hi, shift + 4, m, r) && mask == Pow2(m) - 1
      invariant Divided(ansHi, r, 0, n.hi, shift + 4)
    {
      var x := And(Shr(nHi, shift), mask);
      NibbleStep(nHi, n.hi, shift + 4, m, r, ansHi, 0, x);
      r := x % 10;
      ansHi := Or(Shl(ansHi, 4), x / 10);
      mask, m := NextMask(mask, x), NextBits(m, x);
      nHi := NextN(nHi, r, shift);
      shift := shift - 4;
    }
    // least significant nibble of the high word
    var x := And(nHi, mask);
    LastHighNibble(nHi, n.hi, m, r, ansHi, x);
    r := x % 10;
    ansHi := Or(Shl(ansHi, 4), x / 10);
    ghost var c := r;

    // most significant nibble of the low word
    mask, shift := 255, 28;
    x := And(Or(Shl(r, 4), Shr(nLo, shift)), mask);
    FirstLowNibble(c, n.lo, x);
    r := x % 10;
    ansLo := Or(Shl(ansLo, 4), x / 10);
    mask, m := NextMask(mask, x), NextBits(8, x);
    nLo := NextN(nLo, r, shift);
    shift := shift - 4;

    var i := 1;
    while i < 8
      invariant 1 <= i <= 8 && shift == 28 - 4 * i
      invariant Exposed(nLo, n.lo, shift + 4, m, r) && mask == Pow2(m) - 1
      invariant Divided(ansLo, r, c, n.lo, shift + 4)
    {
      x := And(Shr(nLo, shift), mask);
      NibbleStep(nLo, n.lo, shift + 4, m, r, ansLo, c, x);
      r := x % 10;
      ansLo := Or(Shl(ansLo, 4), x / 10);
      mask, m := NextMask(mask, x), NextBits(m, x);
      nLo := NextN(nLo, r, shift);
      shift := shift - 4;
      i := i + 1;
    }
    WholeWord(ansLo, r, c, n.lo);
    q := TwoWord(ansHi, ansLo);
    JoinWords(n, q, c, r);
  }

  lemma HighWordStart(hi: Word)
    ensures Exposed(hi, hi, 32, 4, 0) && Divided(0, 0, 0, hi, 32) && Pow2(4) - 1 == 15
  {
    Pow2Values();
    RemSmall(hi, WORD);
  }

  lemma LastHighNibble(n: Word, hi: Word, m: nat, r: nat, ans: nat, x: nat)
    requires Exposed(n, hi, 4, m, r) && Divided(ans, r, 0, hi, 4) && x == And(n, Pow2(m) - 1)
    ensures Or(Shl(ans, 4), x / 10) < WORD && 10 * Or(Shl(ans, 4), x / 10) + x % 10 == hi
  {
    hide And, Or, Shl, NextN, NextMask, Exposed;
    assert Shr(n, 0) == n && Quot(hi, Pow2(0)) == hi;
    hide Shr, Quot, Rem;
    NibbleStep(n, hi, 4, m, r, ans, 0, x);
  }

  /** The low word starts with the remainder of the high word in front of its top nibble. */
  lemma FirstLowNibble(c: nat, lo: Word, x: nat)
    requires c < 10 && x == And(Or(Shl(c, 4), Shr(lo, 28)), 255)
    ensures NextMask(255, x) == Pow2(NextBits(8, x)) - 1
    ensures NextN(lo, x % 10, 28) < WORD && Or(Shl(0, 4), x / 10) < WORD
    ensures Exposed(NextN(lo, x % 10, 28), lo, 28, NextBits(8, x), x % 10)
    ensures Divided(Or(Shl(0, 4), x / 10), x % 10, c, lo, 28)
  {
    hide And, Or, Pow2, NextN, NextMask, Shl, Shr, Quot, Rem, Divided, Exposed;
    LowWordStart(c, lo, x);
    DividedStep(0, c, c, lo, 32, x);
    MaskWidens(8, x);
    ReplaceNibble(lo, x % 10, 28);
    TopNibbleExposed(NextN(lo, x % 10, 28), lo, NextBits(8, x), x % 10);
  }

  lemma LowWordStart(c: nat, lo: Word, x: nat)
    requires c < 10 && x == And(Or(Shl(c, 4), Shr(lo, 28)), 255)
    ensures Divided(0, c, c, lo, 32)
    ensures x == 16 * c + Nibble(lo, 28)
    ensures Pow2(8) - 1 == 255
  {
    hide And, Or, Quot, Rem, Divided;
    CarryOnly(c, lo);
    TopNibble(lo);
    Pow2Values();
    hide Pow2;
    var top := Quot(lo, Pow2(28));
    ShlNibble(c);
    AppendNibble(c, top, 16 * c);
    AndLowMask(16 * c + top, 8);
    RemSmall(16 * c + top, 256);
  }

  lemma TopNibble(n: Word)
    ensures Quot(n, Pow2(28)) < 16
  {
    Pow2Values();
  }

  lemma CarryOnly(c: nat, lo: Word)
    requires c < 10
    ensures Divided(0, c, c, lo, 32)
  {
    Pow2Values();
  }

  lemma TopNibbleExposed(n: Word, orig: Word, m: nat, r: nat)
    requires 8 <= m <= 32 && m % 4 == 0 && r < 10
    requires Rem(n, Pow2(28)) == Rem(orig, Pow2(28))
    requires Quot(n, Pow2(28)) % 16 == r
    ensures Exposed(n, orig, 28, m, r)
  {
    hide Pow2, Quot, Rem;
    TopNibble(n);
    Pow2By4(m - 8);
    RemSmall(r, Pow2(m - 4));
  }

  lemma WholeWord(ans: nat, r: nat, c: nat, lo: Word)
    requires Divided(ans, r, c, lo, 0)
    ensures 10 * ans + r == c * WORD + lo && r < 10
  {
    Pow2Values();
  }

  lemma JoinWords(n: TwoWord, q: TwoWord, c: nat, r: nat)
    requires 10 * q.hi + c == n.hi && 10 * q.lo + r == c * WORD + n.lo
    ensures Value(n) == 10 * Value(q) + r
  {
  }

  // ---- decimal output ---------------------------------------------------

  function Pow10(k: nat): (p: nat)
    ensures p >= 1
  {
    if k == 0 then 1 else 10 * Pow10(k - 1)
  }

  predicate IsDecimal(s: string) {
    forall i :: 0 <= i < |s| ==> '0' <= s[i] <= '9'
  }

  function Digit(c: char): nat
    requires '0' <= c <= '9'
  {
    c as int - '0' as int
  }

  /** The number a decimal numeral denotes. */
  function Decimal(s: string): nat
    requires IsDecimal(s)
  {
    if s == "" then 0 else Digit(s[0]) * Pow10(|s| - 1) + Decimal(s[1..])
  }

  const MAX_DECIMAL_CHARS := 20

  /** Writes the numeral into a fixed buffer from the right, one digit per division. */
  method Out(ui: TwoWord) returns (text: string)
    ensures 1 <= |text| <= MAX_DECIMAL_CHARS && IsDecimal(text)
    ensures Decimal(text) == Value(ui)
    ensures text[0] == '0' ==> text == "0"
  {
    NothingPrinted(ui);
    hide Decimal, Pow10, IsDecimal, Value;
    var i := MAX_DECIMAL_CHARS;
    var buffer := new char[MAX_DECIMAL_CHARS + 1];
    buffer[i] := '\0';
    assert buffer[i..MAX_DECIMAL_CHARS] == "";
    var n := ui;
    var more := true;
    while more
      invariant 0 <= i <= MAX_DECIMAL_CHARS && buffer.Length == MAX_DECIMAL_CHARS + 1
      invariant more == (i == MAX_DECIMAL_CHARS || n.hi != 0 || n.lo != 0)
      invariant Printed(ui, n, buffer[i..MAX_DECIMAL_CHARS])
      invariant i < MAX_DECIMAL_CHARS && !more && buffer[i] == '0' ==> i == MAX_DECIMAL_CHARS - 1
      decreases i
    {
      ghost var tail := buffer[i..MAX_DECIMAL_CHARS];
      RoomForDigit(ui, n, tail);
      var q, r := Udiv10(n);
      i := i - 1;
      buffer[i] := '0' + r as char;
      assert buffer[i..MAX_DECIMAL_CHARS] == [buffer[i]] + tail;
      PrependDigit(ui, n, q, r, buffer[i], tail);
      LeadingZero(n, q, r);
      n := q;
      more := n.hi != 0 || n.lo != 0;
    }
    text := buffer[i..MAX_DECIMAL_CHARS];
    AllPrinted(ui, n, text);
  }

  /** `tail` is printed and `n` is still to be printed before it. */
  ghost predicate Printed(ui: TwoWord, n: TwoWord, tail: string) {
    IsDecimal(tail) && Value(ui) == Value(n) * Pow10(|tail|) + Decimal(tail)
  }

  lemma NothingPrinted(ui: TwoWord)
    ensures Printed(ui, ui, "")
  {
    assert Pow10(0) == 1;
  }

  lemma AllPrinted(ui: TwoWord, n: TwoWord, text: string)
    requires Printed(ui, n, text) && n.hi == 0 && n.lo == 0
    ensures IsDecimal(text) && Decimal(text) == Value(ui)
  {
    assert Value(n) == 0;
    hide Value, Decimal, IsDecimal, Pow10;
  }

  /** Only zero has a zero for its first digit. */
  lemma LeadingZero(n: TwoWord, q: TwoWord, r: Word)
    requires Value(n) == 10 * Value(q) + r && r < 10
    ensures q.hi == 0 && q.lo == 0 && '0' + r as char == '0' ==> n.hi == 0 && n.lo == 0
  {
  }

  lemma PrependDigit(ui: TwoWord, n: TwoWord, q: TwoWord, r: Word, c: char, tail: string)
    requires Value(n) == 10 * Value(q) + r && r < 10 && c == '0' + r as char && Printed(ui, n, tail)
    ensures Printed(ui, q, [c] + tail)
  {
    FirstDigit(r, c, tail);
    assert Pow10(|tail| + 1) == 10 * Pow10(|tail|);
    hide Decimal, Pow10, IsDecimal, Value;
    ScaleDigit(Value(n), Value(q), r, Pow10(|tail|));
  }

  lemma FirstDigit(r: nat, c: char, tail: string)
    requires r < 10 && c == '0' + r as char && IsDecimal(tail)
    ensures IsDecimal([c] + tail) && Decimal([c] + tail) == r * Pow10(|tail|) + Decimal(tail)
  {
    DigitChar(r, c, tail);
    hide IsDecimal, Digit, Pow10;
    var text := [c] + tail;
    assert text[1..] == tail && text[0] == c;
  }

  lemma DigitChar(r: nat, c: char, tail: string)
    requires r < 10 && c == '0' + r as char && IsDecimal(tail)
    ensures '0' <= c <= '9' && Digit(c) == r && IsDecimal([c] + tail)
  {
  }

  lemma ScaleDigit(n: nat, q: nat, r: nat, p: nat)
    requires n == 10 * q + r
    ensures n * p == q * (10 * p) + r * p
  {
  }

  /** While there is something left to print there is room for another digit. */
  lemma RoomForDigit(ui: TwoWord, n: TwoWord, tail: string)
    requires Printed(ui, n, tail) && |tail| <= MAX_DECIMAL_CHARS
    requires tail == "" || n.hi != 0 || n.lo != 0
    ensures |tail| < MAX_DECIMAL_CHARS
  {
    if |tail| == MAX_DECIMAL_CHARS {
      MulLe(1, Value(n), Pow10(20));
      TwentyDigits();
    }
  }

  lemma TwentyDigits()
    ensures Pow10(20) == 100_000_000_000_000_000_000
  {
    assert Pow10(4) == 10_000 && Pow10(8) == 100_000_000 && Pow10(12) == 1_000_000_000_000;
    assert Pow10(16) == 10_000_000_000_000_000;
  }
}

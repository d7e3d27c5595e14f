/** Memory of the target as the debugger interface sees it: bytes, read and written a word at a
    time, and the merging of a partial word (src/proc/ptrace/mut_process.c). */
module Memory {
  import opened Words

  /** Only mapped addresses are in the domain. */
  type Memory = map<Word, Byte>

  /** The four bytes of a word, lowest address first. */
  datatype Quad = Quad(b0: Byte, b1: Byte, b2: Byte, b3: Byte) {
    function Reverse(): Quad { Quad(b3, b2, b1, b0) }

    function At(i: nat): Byte
      requires i < 4
    {
      if i == 0 then b0 else if i == 1 then b1 else if i == 2 then b2 else b3
    }
  }

  /** `n` bytes from address zero on, all of them `b`. */
  function Filled(b: Byte, n: nat): Memory
    requires n <= WORD
  {
    map x: Word {:trigger Wrap(x)} | 0 <= x < n :: b
  }

  predicate Mapped(m: Memory, a: Word) {
    a + 3 < WORD && a in m && a + 1 in m && a + 2 in m && a + 3 in m
  }

  function Peek(m: Memory, a: Word): Quad
    requires Mapped(m, a)
  {
    Quad(m[a], m[a + 1], m[a + 2], m[a + 3])
  }

  function Poke(m: Memory, a: Word, q: Quad): (m': Memory)
    requires Mapped(m, a)
    ensures m'.Keys == m.Keys
    ensures forall x {:trigger m'[x]} :: x in m ==> m'[x] == if a <= x < a + 4 then q.At(x - a) else m[x]
  {
    m[a := q.b0][a + 1 := q.b1][a + 2 := q.b2][a + 3 := q.b3]
  }

  /** Two addresses whose words have no byte in common. */
  predicate Apart(a: Word, b: Word) {
    a + 4 <= b || b + 4 <= a
  }

  /** Putting the old word back undoes a poke. */
  lemma PokeBack(m: Memory, a: Word, q: Quad)
    requires Mapped(m, a)
    ensures Mapped(Poke(m, a, q), a) && Poke(Poke(m, a, q), a, Peek(m, a)) == m
  {
  }

  /** A poke is seen at its own word and not at any other. */
  lemma PeekPoke(m: Memory, a: Word, q: Quad, b: Word)
    requires Mapped(m, a) && Mapped(m, b)
    ensures Mapped(Poke(m, a, q), b)
    ensures Peek(Poke(m, a, q), a) == q
    ensures Apart(a, b) ==> Peek(Poke(m, a, q), b) == Peek(m, b)
  {
  }

  lemma PokesCommute(m: Memory, a: Word, p: Quad, b: Word, q: Quad)
    requires Mapped(m, a) && Mapped(m, b) && Apart(a, b)
    ensures Mapped(Poke(m, a, p), b) && Mapped(Poke(m, b, q), a)
    ensures Poke(Poke(m, a, p), b, q) == Poke(Poke(m, b, q), a, p)
  {
  }

  // ---- words and bytes --------------------------------------------------

  /** The number a word denotes when its first byte is the most significant one. */
  function BigEndian(q: Quad): Word {
    ((q.b0 * 256 + q.b1) * 256 + q.b2) * 256 + q.b3
  }

  function Number(q: Quad, big: bool): Word {
    BigEndian(if big then q else q.Reverse())
  }

  function Bytes(w: Word, big: bool): (q: Quad)
    ensures Number(q, big) == w
  {
    DigitsOf(w);
    var q := Quad(w / 0x100_0000, w / 0x1_0000 % 256, w / 256 % 256, w % 256);
    if big then q else q.Reverse()
  }

  /** The digits of a word in base 256. */
  lemma DigitsOf(w: Word)
    ensures w / 0x100_0000 < 256
    ensures w == ((w / 0x100_0000 * 256 + w / 0x1_0000 % 256) * 256 + w / 256 % 256) * 256 + w % 256
  {
    var x := w / 256;
    var y := x / 256;
    assert w / 0x1_0000 == y && w / 0x100_0000 == y / 256;
    assert w == 256 * x + w % 256 && x == 256 * y + x % 256 && y == 256 * (y / 256) + y % 256;
  }

  lemma NumberInjective(p: Quad, q: Quad, big: bool)
    requires Number(p, big) == Number(q, big)
    ensures p == q
  {
    if big {
      LastByte(p, q);
    } else {
      LastByte(p.Reverse(), q.Reverse());
    }
  }

  lemma LastByte(p: Quad, q: Quad)
    requires BigEndian(p) == BigEndian(q)
    ensures p == q
  {
    var x, y := (p.b0 * 256 + p.b1) * 256 + p.b2, (q.b0 * 256 + q.b1) * 256 + q.b2;
    assert x == y && p.b3 == q.b3;
    assert p.b0 * 256 + p.b1 == q.b0 * 256 + q.b1 && p.b2 == q.b2;
  }

  /** The low 4-n bytes of a word. */
  function ByteMask(n: nat): nat
    requires 1 <= n <= 3
  {
    Pow2((4 - n) * 8) - 1
  }

  /** The last, partial word of a copy: new bytes combined with what the mask keeps of the old word. */
  function TailNumber(incoming: Word, orig: Word, n: nat): nat
    requires 1 <= n <= 3
  {
    Or(incoming, And(orig, ByteMask(n)))
  }

  /** `|` works byte by byte. */
  lemma OrBytes(p: Quad, q: Quad)
    ensures Or(p.b0, q.b0) < 256 && Or(p.b1, q.b1) < 256 && Or(p.b2, q.b2) < 256 && Or(p.b3, q.b3) < 256
    ensures Or(BigEndian(p), BigEndian(q)) ==
            BigEndian(Quad(Or(p.b0, q.b0), Or(p.b1, q.b1), Or(p.b2, q.b2), Or(p.b3, q.b3)))
  {
    OrByte(p.b0, q.b0);
    OrByte(p.b1, q.b1);
    OrByte(p.b2, q.b2);
    OrByte(p.b3, q.b3);
    Pow2Values();
    hide Or, And, Pow2;
    var p1, q1 := p.b0 * 256 + p.b1, q.b0 * 256 + q.b1;
    var p2, q2 := p1 * 256 + p.b2, q1 * 256 + q.b2;
    BitwiseSplit(p1, q1, p.b0, p.b1, q.b0, q.b1, 8);
    BitwiseSplit(p2, q2, p1, p.b2, q1, q.b2, 8);
    BitwiseSplit(BigEndian(p), BigEndian(q), p2, p.b3, q2, q.b3, 8);
  }

  lemma OrByte(x: Byte, y: Byte)
    ensures Or(x, y) < 256
  {
    Pow2Values();
    OrBound(x, y, 8);
  }

  lemma {:induction false} OrBound(x: nat, y: nat, k: nat)
    requires x < Pow2(k) && y < Pow2(k)
    ensures Or(x, y) < Pow2(k)
  {
    if k != 0 {
      OrBound(x / 2, y / 2, k - 1);
      BitwiseStep(x / 2, x % 2, y / 2, y % 2);
    }
  }

  function OrBy(x: Byte, y: Byte): Byte {
    OrByte(x, y);
    Or(x, y)
  }

  /** The bytes of a word that the mask keeps. */
  lemma MaskedBytes(q: Quad, n: nat)
    requires 1 <= n <= 3
    ensures And(BigEndian(q), ByteMask(n)) ==
            BigEndian(Quad(0, if n == 1 then q.b1 else 0, if n <= 2 then q.b2 else 0, q.b3))
  {
    Pow2Values();
    hide And, Pow2;
    AndLowMask(BigEndian(q), (4 - n) * 8);
    if n == 1 {
      DivModUnique(BigEndian(q), 0x100_0000, q.b0, (q.b1 * 256 + q.b2) * 256 + q.b3);
    } else if n == 2 {
      DivModUnique(BigEndian(q), 0x1_0000, q.b0 * 256 + q.b1, q.b2 * 256 + q.b3);
    } else {
      DivModUnique(BigEndian(q), 0x100, (q.b0 * 256 + q.b1) * 256 + q.b2, q.b3);
    }
  }

  /** Whether the mask of a partial word of `n` bytes reaches byte `i`: the last 4-n bytes with
      big-endian words, the first 4-n bytes with little-endian ones. */
  predicate Masked(n: nat, i: nat, big: bool) {
    if big then n <= i else i + n < 4
  }

  function MergeByte(n: nat, i: nat, big: bool, x: Byte, y: Byte): Byte {
    if Masked(n, i, big) then OrBy(x, y) else x
  }

  /** A partial word byte by byte: new except where the mask reaches. */
  function Tail(incoming: Quad, orig: Quad, n: nat, big: bool): Quad {
    Quad(MergeByte(n, 0, big, incoming.b0, orig.b0), MergeByte(n, 1, big, incoming.b1, orig.b1),
         MergeByte(n, 2, big, incoming.b2, orig.b2), MergeByte(n, 3, big, incoming.b3, orig.b3))
  }

  /** That is what the masked `|` on whole words computes. */
  lemma TailIsMerge(incoming: Quad, orig: Quad, n: nat, big: bool)
    requires 1 <= n <= 3
    ensures TailNumber(Number(incoming, big), Number(orig, big), n) == Number(Tail(incoming, orig, n, big), big)
  {
    var p, q := if big then incoming else incoming.Reverse(), if big then orig else orig.Reverse();
    var kept := Quad(0, if n == 1 then q.b1 else 0, if n <= 2 then q.b2 else 0, q.b3);
    MaskedBytes(q, n);
    OrBytes(p, kept);
    OrZero(p.b0);
    OrZero(p.b1);
    OrZero(p.b2);
    hide Or, And, ByteMask;
  }

  /** Storing a number and reading it back. */
  lemma NumberRoundTrip(q: Quad, big: bool)
    ensures Bytes(Number(q, big), big) == q
  {
    NumberInjective(Bytes(Number(q, big), big), q, big);
  }
}

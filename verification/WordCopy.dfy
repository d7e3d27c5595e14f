/** What the word-at-a-time copy and fill loops of `mut_process_memcpy` and `mut_process_memset`
    do to memory (src/proc/ptrace/mut_process.c), and when that is what a byte-wise copy or fill
    would do. */
module WordCopy {
  import opened Words
  import opened Memory

  predicate Aligned(a: Word) {
    a % 4 == 0
  }

  function CopyWord(m: Memory, d: Word, s: Word): Option<Memory> {
    if Mapped(m, s) && Mapped(m, d) then Some(Poke(m, d, Peek(m, s))) else None
  }

  /** The loop over whole words, after `k` rounds; `None` once a word is not accessible. */
  function CopyWords(m: Memory, dest: Word, src: Word, k: nat): Option<Memory> {
    if k == 0 then Some(m)
    else match CopyWords(m, dest, src, k - 1)
      case None => None
      case Some(m1) => CopyWord(m1, Wrap(dest + 4 * (k - 1)), Wrap(src + 4 * (k - 1)))
  }

  /** The last `r` bytes, merged into a whole word. */
  function CopyTail(m: Memory, d: Word, s: Word, r: nat, big: bool): Option<Memory>
    requires r < 4
  {
    if r == 0 then Some(m)
    else if Mapped(m, d) && Mapped(m, s) then Some(Poke(m, d, Tail(Peek(m, s), Peek(m, d), r, big)))
    else None
  }

  /** `k` whole words, then the last `r` bytes. */
  function CopySplit(m: Memory, dest: Word, src: Word, k: nat, r: nat, big: bool): Option<Memory>
    requires r < 4
  {
    match CopyWords(m, dest, src, k)
    case None => None
    case Some(m1) => CopyTail(m1, Wrap(dest + 4 * k), Wrap(src + 4 * k), r, big)
  }

  function Copy(m: Memory, dest: Word, src: Word, n: Word, big: bool): Option<Memory> {
    CopySplit(m, dest, src, n / 4, n % 4, big)
  }

  function SetWord(m: Memory, d: Word, q: Quad): Option<Memory> {
    if Mapped(m, d) then Some(Poke(m, d, q)) else None
  }

  function SetWords(m: Memory, a: Word, q: Quad, k: nat): Option<Memory> {
    if k == 0 then Some(m)
    else match SetWords(m, a, q, k - 1)
      case None => None
      case Some(m1) => SetWord(m1, Wrap(a + 4 * (k - 1)), q)
  }

  function SetTail(m: Memory, d: Word, q: Quad, r: nat, big: bool): Option<Memory>
    requires r < 4
  {
    if r == 0 then Some(m)
    else if Mapped(m, d) then Some(Poke(m, d, Tail(q, Peek(m, d), r, big)))
    else None
  }

  function FillSplit(m: Memory, a: Word, q: Quad, k: nat, r: nat, big: bool): Option<Memory>
    requires r < 4
  {
    match SetWords(m, a, q, k)
    case None => None
    case Some(m1) => SetTail(m1, Wrap(a + 4 * k), q, r, big)
  }

  function Fill(m: Memory, a: Word, q: Quad, n: Word, big: bool): Option<Memory> {
    FillSplit(m, a, q, n / 4, n % 4, big)
  }

  /** Every byte of a range is accessible, and the range does not run past the last address. */
  ghost predicate Range(m: Memory, a: Word, n: nat) {
    a + n <= WORD && forall x: Word {:trigger x in m} :: a <= x < a + n ==> x in m
  }

  ghost predicate Disjoint(a: Word, b: Word, n: nat) {
    a + n <= b || b + n <= a
  }

  /** Byte `x` of memory after copying whole words from `src` to `dest`. */
  ghost function CopiedByte(m: Memory, dest: Word, src: Word, n: nat, x: Word): Byte
    requires x in m && Range(m, src, n)
  {
    if dest <= x < dest + n then m[src + (x - dest)] else m[x]
  }

  /** A poke of a word taken from elsewhere moves its four bytes. */
  lemma PokePeek(m: Memory, d: Word, m0: Memory, s: Word, x: Word)
    requires Mapped(m, d) && Mapped(m0, s) && x in m
    ensures Poke(m, d, Peek(m0, s))[x] == if d <= x < d + 4 then m0[s + (x - d)] else m[x]
  {
  }

  lemma {:induction false} CopyWordsBytes(m: Memory, dest: Word, src: Word, k: nat)
    requires Range(m, dest, 4 * k) && Range(m, src, 4 * k) && Disjoint(dest, src, 4 * k)
    ensures CopyWords(m, dest, src, k).Some?
    ensures var m' := CopyWords(m, dest, src, k).value;
            m'.Keys == m.Keys && forall x {:trigger m'[x]} :: x in m ==> m'[x] == CopiedByte(m, dest, src, 4 * k, x)
  {
    hide Wrap, CopyWord, Mapped, Poke, Peek;
    if k != 0 {
      var n := 4 * (k - 1);
      CopyWordsBytes(m, dest, src, k - 1);
      var m1 := CopyWords(m, dest, src, k - 1).value;
      WrapSame(dest + n);
      WrapSame(src + n);
      CopyNextWord(m, m1, dest, src, n);
    }
  }

  /** The next words to be copied are accessible and still as they were at the start. */
  lemma NextWords(m: Memory, m1: Memory, dest: Word, src: Word, n: nat)
    requires Range(m, dest, n + 4) && Range(m, src, n + 4) && Disjoint(dest, src, n + 4) && Range(m, src, n)
    requires m1.Keys == m.Keys && forall x {:trigger m1[x]} :: x in m ==> m1[x] == CopiedByte(m, dest, src, n, x)
    ensures Mapped(m, dest + n) && Mapped(m, src + n) && Mapped(m1, dest + n) && Mapped(m1, src + n)
    ensures Peek(m1, dest + n) == Peek(m, dest + n) && Peek(m1, src + n) == Peek(m, src + n)
  {
    WordOfRange(m, dest, n + 4, n);
    WordOfRange(m, src, n + 4, n);
    hide Range;
    assert Mapped(m1, dest + n) && Mapped(m1, src + n);
    hide Peek;
    SameWord(m, m1, dest + n);
    SameWord(m, m1, src + n);
  }

  lemma CopyNextWord(m: Memory, m1: Memory, dest: Word, src: Word, n: nat)
    requires Range(m, dest, n + 4) && Range(m, src, n + 4) && Disjoint(dest, src, n + 4)
    requires m1.Keys == m.Keys && forall x {:trigger m1[x]} :: x in m ==> m1[x] == CopiedByte(m, dest, src, n, x)
    ensures CopyWord(m1, dest + n, src + n).Some?
    ensures var m' := CopyWord(m1, dest + n, src + n).value;
            m'.Keys == m.Keys && forall x {:trigger m'[x]} :: x in m ==> m'[x] == CopiedByte(m, dest, src, n + 4, x)
  {
    ShorterRange(m, src, n + 4, n);
    NextWords(m, m1, dest, src, n);
    hide Poke, Peek, CopiedByte, Disjoint, Range, Mapped;
    var d: Word, s: Word := dest + n, src + n;
    var m' := Poke(m1, d, Peek(m, s));
    assert CopyWord(m1, d, s) == Some(m');
    hide CopyWord;
    forall x | x in m
      ensures m'[x] == CopiedByte(m, dest, src, n + 4, x)
    {
      assert m1[x] == CopiedByte(m, dest, src, n, x);
      PokePeek(m1, d, m, s, x);
      OneWordMore(m, dest, src, n, x);
    }
  }

  lemma OneWordMore(m: Memory, dest: Word, src: Word, n: nat, x: Word)
    requires x in m && Range(m, src, n + 4) && Range(m, src, n) && dest + n + 4 <= WORD
    ensures CopiedByte(m, dest, src, n + 4, x) ==
            if dest + n <= x < dest + n + 4 then m[src + n + (x - (dest + n))] else CopiedByte(m, dest, src, n, x)
  {
  }

  lemma SameWord(m: Memory, m1: Memory, a: Word)
    requires m1.Keys == m.Keys && Mapped(m, a)
    requires forall x: Word {:trigger m1[x]} :: a <= x < a + 4 ==> m1[x] == m[x]
    ensures Peek(m1, a) == Peek(m, a)
  {
    var b: Word, c: Word, d: Word := a + 1, a + 2, a + 3;
    assert m1[a] == m[a] && m1[b] == m[b] && m1[c] == m[c] && m1[d] == m[d];
  }

  lemma ShorterRange(m: Memory, a: Word, n: nat, i: nat)
    requires Range(m, a, n) && i <= n
    ensures Range(m, a, i)
  {
  }

  lemma WordOfRange(m: Memory, a: Word, n: nat, i: nat)
    requires Range(m, a, n) && i + 4 <= n
    ensures Mapped(m, a + i)
  {
    var b: Word, c: Word, d: Word := a + i + 1, a + i + 2, a + i + 3;
    assert a + i in m && b in m && c in m && d in m;
  }

  /** The mask of the last partial word reaches byte `i`. */
  predicate Merged(n: nat, i: nat, big: bool) {
    var r, k := n % 4, n / 4 * 4;
    r != 0 && k <= i && Masked(r, i - k, big)
  }

  /** Byte `x` after a whole copy: source bytes in the words that are written, merged with the old
      byte where the mask of a last partial word reaches. */
  ghost function After(m: Memory, dest: Word, src: Word, n: nat, big: bool, x: Word): Byte
    requires x in m && Range(m, src, Ceiling(n))
  {
    if !(dest <= x < dest + Ceiling(n)) then m[x]
    else if Merged(n, x - dest, big) then OrBy(m[src + (x - dest)], m[x])
    else m[src + (x - dest)]
  }

  /** The whole effect of a copy between ranges that do not overlap. */
  ghost predicate Copied(m: Memory, m': Memory, dest: Word, src: Word, n: nat, big: bool)
    requires Range(m, src, Ceiling(n))
  {
    m'.Keys == m.Keys && forall x {:trigger m'[x]} :: x in m ==> m'[x] == After(m, dest, src, n, big, x)
  }

  /** The arithmetic of `k` whole words and `r` bytes more. */
  lemma Split(n: nat, k: nat, r: nat)
    requires r < 4 && n == 4 * k + r
    ensures Ceiling(n) == (if r == 0 then 4 * k else 4 * k + 4)
    ensures forall i: nat, big :: Merged(n, i, big) <==> r != 0 && 4 * k <= i && Masked(r, i - 4 * k, big)
  {
    assert n % 4 == r && n / 4 == k;
  }

  lemma CopyEffect(m: Memory, dest: Word, src: Word, n: Word, big: bool)
    requires Range(m, dest, Ceiling(n)) && Range(m, src, Ceiling(n)) && Disjoint(dest, src, Ceiling(n))
    ensures Copy(m, dest, src, n, big).Some?
    ensures Copied(m, Copy(m, dest, src, n, big).value, dest, src, n, big)
  {
    hide CopySplit, Ceiling, After;
    CopySplitEffect(m, dest, src, n, n / 4, n % 4, big);
  }

  lemma CopySplitEffect(m: Memory, dest: Word, src: Word, n: nat, k: nat, r: nat, big: bool)
    requires r < 4 && n == 4 * k + r
    requires Range(m, dest, Ceiling(n)) && Range(m, src, Ceiling(n)) && Disjoint(dest, src, Ceiling(n))
    ensures CopySplit(m, dest, src, k, r, big).Some?
    ensures Copied(m, CopySplit(m, dest, src, k, r, big).value, dest, src, n, big)
  {
    hide Range, Disjoint, CopyWords, CopyTail, Ceiling, CopiedByte, Copied;
    CeilingIs(n, k, r);
    ShorterRange(m, dest, Ceiling(n), 4 * k);
    ShorterRange(m, src, Ceiling(n), 4 * k);
    ShorterDisjoint(dest, src, Ceiling(n), 4 * k);
    CopyWordsBytes(m, dest, src, k);
    LastPart(m, CopyWords(m, dest, src, k).value, dest, src, n, k, r, big);
  }

  lemma ShorterDisjoint(a: Word, b: Word, n: nat, i: nat)
    requires Disjoint(a, b, n) && i <= n
    ensures Disjoint(a, b, i)
  {
  }

  lemma CeilingIs(n: nat, k: nat, r: nat)
    requires r < 4 && n == 4 * k + r
    ensures Ceiling(n) == (if r == 0 then 4 * k else 4 * k + 4)
  {
    hide Merged;
    Split(n, k, r);
  }

  /** What follows the whole words. */
  lemma LastPart(m: Memory, m1: Memory, dest: Word, src: Word, n: nat, k: nat, r: nat, big: bool)
    requires r < 4 && n == 4 * k + r && Ceiling(n) == (if r == 0 then 4 * k else 4 * k + 4)
    requires Range(m, dest, Ceiling(n)) && Range(m, src, Ceiling(n)) && Disjoint(dest, src, Ceiling(n))
    requires Range(m, src, 4 * k)
    requires m1.Keys == m.Keys && forall x {:trigger m1[x]} :: x in m ==> m1[x] == CopiedByte(m, dest, src, 4 * k, x)
    ensures CopyTail(m1, Wrap(dest + 4 * k), Wrap(src + 4 * k), r, big).Some?
    ensures Copied(m, CopyTail(m1, Wrap(dest + 4 * k), Wrap(src + 4 * k), r, big).value, dest, src, n, big)
  {
    hide Wrap, Range, Disjoint, CopyTail, CopiedByte, Copied, Ceiling;
    if r != 0 {
      WrapInside(m, dest, 4 * k);
      WrapInside(m, src, 4 * k);
      TailEffect(m, m1, Wrap(dest + 4 * k), Wrap(src + 4 * k), dest, src, n, k, r, big);
    } else {
      NoTail(m1, Wrap(dest + 4 * k), Wrap(src + 4 * k), big);
      WholeWords(m, m1, dest, src, n, k, big);
    }
  }

  /** A word of the range does not wrap around. */
  lemma WrapInside(m: Memory, a: Word, i: nat)
    requires Range(m, a, i + 4)
    ensures Wrap(a + i) == a + i
  {
    WrapSame(a + i);
  }

  lemma WholeWords(m: Memory, m1: Memory, dest: Word, src: Word, n: nat, k: nat, big: bool)
    requires n == 4 * k && Range(m, src, Ceiling(n)) && Range(m, src, n)
    requires m1.Keys == m.Keys && forall x {:trigger m1[x]} :: x in m ==> m1[x] == CopiedByte(m, dest, src, n, x)
    ensures Copied(m, m1, dest, src, n, big)
  {
    hide CopiedByte, After, Range, Ceiling;
    forall x | x in m
      ensures m1[x] == After(m, dest, src, n, big, x)
    {
      WholeWordsByte(m, dest, src, n, k, big, x);
    }
  }

  lemma WholeWordsByte(m: Memory, dest: Word, src: Word, n: nat, k: nat, big: bool, x: Word)
    requires x in m && n == 4 * k && Range(m, src, Ceiling(n)) && Range(m, src, n)
    ensures CopiedByte(m, dest, src, n, x) == After(m, dest, src, n, big, x)
  {
    Split(n, k, 0);
  }

  lemma NoTail(m: Memory, d: Word, s: Word, big: bool)
    ensures CopyTail(m, d, s, 0, big) == Some(m) && SetTail(m, d, ZEROS, 0, big) == Some(m)
  {
  }

  lemma CopyTailIs(m: Memory, d: Word, s: Word, r: nat, big: bool)
    requires 1 <= r <= 3 && Mapped(m, d) && Mapped(m, s)
    ensures CopyTail(m, d, s, r, big) == Some(Poke(m, d, Tail(Peek(m, s), Peek(m, d), r, big)))
  {
  }

  lemma TailEffect(m: Memory, m1: Memory, d: Word, s: Word, dest: Word, src: Word, n: nat, k: nat, r: nat, big: bool)
    requires 1 <= r <= 3 && n == 4 * k + r && d == dest + 4 * k && s == src + 4 * k
    requires Range(m, dest, 4 * k + 4) && Range(m, src, Ceiling(n)) && Ceiling(n) == 4 * k + 4
    requires Disjoint(dest, src, 4 * k + 4) && Range(m, src, 4 * k)
    requires m1.Keys == m.Keys && forall x {:trigger m1[x]} :: x in m ==> m1[x] == CopiedByte(m, dest, src, 4 * k, x)
    ensures CopyTail(m1, d, s, r, big).Some?
    ensures Copied(m, CopyTail(m1, d, s, r, big).value, dest, src, n, big)
  {
    hide Poke, Peek, Tail, CopiedByte, Disjoint, Range, Ceiling, Mapped, CopyTail, Copied;
    NextWords(m, m1, dest, src, 4 * k);
    CopyTailIs(m1, d, s, r, big);
    TailBytes(m, m1, d, s, dest, src, n, k, r, big);
  }

  lemma TailBytes(m: Memory, m1: Memory, d: Word, s: Word, dest: Word, src: Word, n: nat, k: nat, r: nat, big: bool)
    requires 1 <= r <= 3 && n == 4 * k + r && d == dest + 4 * k && s == src + 4 * k
    requires Range(m, src, Ceiling(n)) && Ceiling(n) == 4 * k + 4 && Range(m, src, 4 * k)
    requires Mapped(m1, d) && Mapped(m, d) && Mapped(m, s)
    requires m1.Keys == m.Keys && forall x {:trigger m1[x]} :: x in m ==> m1[x] == CopiedByte(m, dest, src, 4 * k, x)
    ensures Copied(m, Poke(m1, d, Tail(Peek(m, s), Peek(m, d), r, big)), dest, src, n, big)
  {
    hide Poke, Peek, Tail, CopiedByte, After, Range, Ceiling, Mapped, Merged, MergeByte, OrBy;
    var m' := Poke(m1, d, Tail(Peek(m, s), Peek(m, d), r, big));
    forall x | x in m
      ensures m'[x] == After(m, dest, src, n, big, x)
    {
      AfterTail(m, m1, d, s, dest, src, n, k, r, big, x);
    }
  }

  lemma AfterTail(m: Memory, m1: Memory, d: Word, s: Word, dest: Word, src: Word, n: nat, k: nat, r: nat,
                  big: bool, x: Word)
    requires 1 <= r <= 3 && n == 4 * k + r && d == dest + 4 * k && s == src + 4 * k
    requires Range(m, src, Ceiling(n)) && Ceiling(n) == 4 * k + 4 && Range(m, src, 4 * k)
    requires Mapped(m1, d) && Mapped(m, d) && Mapped(m, s) && x in m && x in m1
    requires m1[x] == CopiedByte(m, dest, src, 4 * k, x)
    ensures Poke(m1, d, Tail(Peek(m, s), Peek(m, d), r, big))[x] == After(m, dest, src, n, big, x)
  {
    hide Poke, Peek, Tail, After, CopiedByte, MergeByte, Range, Ceiling;
    MergedByte(m1, d, m, s, r, big, x);
    TailByte(m, m1, dest, src, n, k, r, big, x);
  }

  /** The merged word byte by byte. */
  lemma MergedByte(m1: Memory, d: Word, m: Memory, s: Word, r: nat, big: bool, x: Word)
    requires 1 <= r <= 3 && Mapped(m1, d) && Mapped(m, d) && Mapped(m, s) && x in m1
    ensures Poke(m1, d, Tail(Peek(m, s), Peek(m, d), r, big))[x] ==
            (if d <= x < d + 4 then MergeByte(r, x - d, big, m[s + (x - d)], m[x]) else m1[x])
  {
    hide MergeByte;
  }

  lemma TailByte(m: Memory, m1: Memory, dest: Word, src: Word, n: nat, k: nat, r: nat, big: bool, x: Word)
    requires 1 <= r <= 3 && n == 4 * k + r && Range(m, src, Ceiling(n)) && Ceiling(n) == 4 * k + 4
    requires Range(m, src, 4 * k) && x in m && x in m1 && m1[x] == CopiedByte(m, dest, src, 4 * k, x)
    requires dest + 4 * k < WORD && src + 4 * k < WORD
    ensures var d, s := dest + 4 * k, src + 4 * k;
            After(m, dest, src, n, big, x) ==
            (if d <= x < d + 4 then MergeByte(r, x - d, big, m[s + (x - d)], m[x]) else m1[x])
  {
    Split(n, k, r);
    hide OrBy, Merged, Ceiling;
    if dest <= x {
      assert Merged(n, x - dest, big) <==> 4 * k <= x - dest && Masked(r, x - dest - 4 * k, big);
    }
  }

  /** The first n destination bytes are the first n source bytes. */
  ghost predicate SameBytes(m: Memory, m': Memory, dest: Word, src: Word, n: nat) {
    && Range(m, src, n) && Range(m', dest, n)
    && forall x: Word {:trigger m'[x]} :: dest <= x < dest + n ==> m'[x] == m[src + (x - dest)]
  }

  /** The bytes of the destination under the mask have no bit that the source byte lacks. */
  ghost predicate TailHarmless(m: Memory, dest: Word, src: Word, n: nat, big: bool)
    requires Range(m, dest, Ceiling(n)) && Range(m, src, Ceiling(n))
  {
    forall x: Word {:trigger m[x]} :: dest <= x < dest + n && Merged(n, x - dest, big) ==>
      OrBy(m[src + (x - dest)], m[x]) == m[src + (x - dest)]
  }

  /** That is so with big-endian words, and for a whole number of words. */
  lemma HarmlessTails(m: Memory, dest: Word, src: Word, n: nat, big: bool)
    requires Range(m, dest, Ceiling(n)) && Range(m, src, Ceiling(n))
    ensures big || n % 4 == 0 ==> TailHarmless(m, dest, src, n, big)
  {
    BigNeverMerges(n);
    SmallCeiling(n);
    hide Merged, OrBy, Ceiling;
  }

  /** The content-preservation rule of realloc (section 7.20.3.4 of ISO/IEC 9899:1999) for the
      copied bytes: it holds for every length with big-endian words, and with little-endian words
      exactly when the destination bytes under the mask have no bits of their own; in particular
      for every whole number of words. */
  lemma CopyCorrectIff(m: Memory, dest: Word, src: Word, n: Word, big: bool)
    requires Range(m, dest, Ceiling(n)) && Range(m, src, Ceiling(n)) && Disjoint(dest, src, Ceiling(n))
    ensures Copy(m, dest, src, n, big).Some?
    ensures SameBytes(m, Copy(m, dest, src, n, big).value, dest, src, n) <==> TailHarmless(m, dest, src, n, big)
    ensures big || n % 4 == 0 ==> SameBytes(m, Copy(m, dest, src, n, big).value, dest, src, n)
  {
    CopyEffect(m, dest, src, n, big);
    hide Copy, Ceiling, Disjoint, Copied, SameBytes, Range, TailHarmless;
    HarmlessTails(m, dest, src, n, big);
    RightByteIff(m, Copy(m, dest, src, n, big).value, dest, src, n, big);
  }

  /** Only the ceil(n/4) destination words change, and no address becomes accessible or stops being so. */
  lemma CopyFrame(m: Memory, dest: Word, src: Word, n: Word, big: bool)
    requires Range(m, dest, Ceiling(n)) && Range(m, src, Ceiling(n)) && Disjoint(dest, src, Ceiling(n))
    ensures Copy(m, dest, src, n, big).Some?
    ensures var m' := Copy(m, dest, src, n, big).value;
            && m'.Keys == m.Keys
            && forall x {:trigger m'[x]} :: x in m && !(dest <= x < dest + Ceiling(n)) ==> m'[x] == m[x]
  {
    CopyEffect(m, dest, src, n, big);
    hide Copy, OrBy, Merged, Ceiling;
  }

  lemma RightByteIff(m: Memory, m': Memory, dest: Word, src: Word, n: nat, big: bool)
    requires Range(m, src, Ceiling(n)) && Range(m, dest, Ceiling(n))
    requires Copied(m, m', dest, src, n, big)
    ensures SameBytes(m, m', dest, src, n) <==> TailHarmless(m, dest, src, n, big)
  {
    ShorterRange(m, src, Ceiling(n), n);
    ShorterRange(m, dest, Ceiling(n), n);
    hide OrBy, Merged, Ceiling, After;
    forall x | x in m
      ensures dest <= x < dest + n ==>
                m'[x] == if Merged(n, x - dest, big) then OrBy(m[src + (x - dest)], m[x]) else m[src + (x - dest)]
    {
      AfterByte(m, dest, src, n, big, x);
    }
  }

  lemma AfterByte(m: Memory, dest: Word, src: Word, n: nat, big: bool, x: Word)
    requires x in m && Range(m, src, Ceiling(n))
    ensures !(dest <= x < dest + Ceiling(n)) ==> After(m, dest, src, n, big, x) == m[x]
    ensures dest <= x < dest + n ==>
              After(m, dest, src, n, big, x) ==
              if Merged(n, x - dest, big) then OrBy(m[src + (x - dest)], m[x]) else m[src + (x - dest)]
  {
    hide Merged, OrBy, Ceiling;
  }

  /** With big-endian words the mask reaches none of the n bytes. */
  lemma BigNeverMerges(n: nat)
    ensures forall i: nat :: i < n ==> !Merged(n, i, true)
  {
  }

  lemma SmallCeiling(n: nat)
    ensures n <= Ceiling(n)
    ensures n % 4 == 0 ==> Ceiling(n) == n && forall i: nat, big :: !Merged(n, i, big)
  {
  }

  /** A word holding 1 and a word holding 2. */
  const TWO_WORDS: Memory := map[0 := 1, 1 := 0, 2 := 0, 3 := 0, 4 := 2, 5 := 0, 6 := 0, 7 := 0]

  /** With little-endian words a copy of one byte can go wrong: copying the 2 over the 1 gives 3. */
  lemma LittleEndianCopyFails()
    ensures Copy(TWO_WORDS, 0, 4, 1, false).Some?
    ensures !SameBytes(TWO_WORDS, Copy(TWO_WORDS, 0, 4, 1, false).value, 0, 4, 1)
  {
    OneBitMore();
    hide Merged, OrBy, Copy;
    var m := TWO_WORDS;
    assert Range(m, 0, 4) && Range(m, 4, 4) && m[0] == 1 && m[4] == 2;
    CopyCorrectIff(m, 0, 4, 1, false);
    hide TWO_WORDS, SameBytes;
    assert OrBy(m[4 + (0 - 0)], m[0]) != m[4];
  }

  lemma OneBitMore()
    ensures OrBy(2, 1) == 3 && Merged(1, 0, false)
  {
    OrZero(1);
    BitwiseStep(1, 0, 0, 1);
  }

  // ---- filling with zero ------------------------------------------------

  const ZEROS := Quad(0, 0, 0, 0)

  lemma {:induction false} SetWordsBytes(m: Memory, a: Word, q: Quad, k: nat)
    requires Range(m, a, 4 * k) && q == ZEROS
    ensures SetWords(m, a, q, k).Some?
    ensures var m' := SetWords(m, a, q, k).value;
            m'.Keys == m.Keys && forall x {:trigger m'[x]} :: x in m ==> m'[x] == if a <= x < a + 4 * k then 0 else m[x]
  {
    hide Wrap, SetWord, Mapped, Poke;
    if k != 0 {
      var n := 4 * (k - 1);
      SetWordsBytes(m, a, q, k - 1);
      WrapSame(a + n);
      ZeroNextWord(m, SetWords(m, a, q, k - 1).value, a, n);
    }
  }

  lemma ZeroNextWord(m: Memory, m1: Memory, a: Word, n: nat)
    requires Range(m, a, n + 4) && m1.Keys == m.Keys
    requires forall x {:trigger m1[x]} :: x in m ==> m1[x] == if a <= x < a + n then 0 else m[x]
    ensures SetWord(m1, a + n, ZEROS).Some?
    ensures var m' := SetWord(m1, a + n, ZEROS).value;
            m'.Keys == m.Keys && forall x {:trigger m'[x]} :: x in m ==> m'[x] == if a <= x < a + n + 4 then 0 else m[x]
  {
    WordOfRange(m, a, n + 4, n);
    assert Mapped(m1, a + n);
  }

  /** Byte `x` after a fill with zero: whole words are cleared; in a last partial word the bytes the
      mask does not reach are cleared and the others stay. */
  ghost function ZeroAfter(m: Memory, a: Word, n: nat, big: bool, x: Word): Byte
    requires x in m
  {
    if a <= x < a + Ceiling(n) && !Merged(n, x - a, big) then 0 else m[x]
  }

  ghost predicate Cleared(m: Memory, m': Memory, a: Word, n: nat, big: bool) {
    m'.Keys == m.Keys && forall x {:trigger m'[x]} :: x in m ==> m'[x] == ZeroAfter(m, a, n, big, x)
  }

  lemma ZeroEffect(m: Memory, a: Word, n: Word, big: bool)
    requires Range(m, a, Ceiling(n))
    ensures Fill(m, a, ZEROS, n, big).Some?
    ensures Cleared(m, Fill(m, a, ZEROS, n, big).value, a, n, big)
  {
    hide FillSplit, Ceiling, ZeroAfter;
    FillSplitEffect(m, a, n, n / 4, n % 4, big);
  }

  lemma FillSplitEffect(m: Memory, a: Word, n: nat, k: nat, r: nat, big: bool)
    requires r < 4 && n == 4 * k + r && Range(m, a, Ceiling(n))
    ensures FillSplit(m, a, ZEROS, k, r, big).Some?
    ensures Cleared(m, FillSplit(m, a, ZEROS, k, r, big).value, a, n, big)
  {
    Split(n, k, r);
    hide Wrap, SetTail, SetWords, Merged, Ceiling, Masked, ZeroAfter;
    SetWordsBytes(m, a, ZEROS, k);
    var m1 := SetWords(m, a, ZEROS, k).value;
    if r != 0 {
      WrapSame(a + 4 * k);
      ZeroTail(m, m1, a, n, k, r, big);
    } else {
      NoTail(m1, Wrap(a + 4 * k), 0, big);
      forall x | x in m
        ensures m1[x] == ZeroAfter(m, a, n, big, x)
      {
        ZeroByte(m, a, n, k, 0, big, x);
      }
    }
  }

  lemma ZeroByte(m: Memory, a: Word, n: nat, k: nat, r: nat, big: bool, x: Word)
    requires x in m && n == 4 * k + r && r < 4
    ensures r == 0 ==> ZeroAfter(m, a, n, big, x) == if a <= x < a + 4 * k then 0 else m[x]
    ensures r != 0 ==> ZeroAfter(m, a, n, big, x) ==
                       if a <= x < a + 4 * k || (a + 4 * k <= x < a + 4 * k + 4 && !Masked(r, x - a - 4 * k, big))
                       then 0 else m[x]
  {
    Split(n, k, r);
    hide Masked;
  }

  lemma ZeroTail(m: Memory, m1: Memory, a: Word, n: nat, k: nat, r: nat, big: bool)
    requires 1 <= r <= 3 && n == 4 * k + r && Range(m, a, 4 * k + 4) && m1.Keys == m.Keys
    requires forall x {:trigger m1[x]} :: x in m ==> m1[x] == if a <= x < a + 4 * k then 0 else m[x]
    ensures SetTail(m1, a + 4 * k, ZEROS, r, big).Some?
    ensures Cleared(m, SetTail(m1, a + 4 * k, ZEROS, r, big).value, a, n, big)
  {
    var d := a + 4 * k;
    WordOfRange(m, a, 4 * k + 4, 4 * k);
    assert Mapped(m1, d);
    hide Ceiling, Merged, Masked, ZeroAfter, Poke, Peek, Tail, Mapped;
    SameWord(m, m1, d);
    ZeroMerge(m1, d, r, big);
    var m' := SetTail(m1, d, ZEROS, r, big).value;
    forall x | x in m
      ensures m'[x] == ZeroAfter(m, a, n, big, x)
    {
      ZeroByte(m, a, n, k, r, big, x);
    }
  }

  lemma ZeroMerge(m: Memory, d: Word, r: nat, big: bool)
    requires 1 <= r <= 3 && Mapped(m, d)
    ensures var m' := Poke(m, d, Tail(ZEROS, Peek(m, d), r, big));
            forall x {:trigger m'[x]} :: x in m ==>
              m'[x] == if d <= x < d + 4 && !Masked(r, x - d, big) then 0 else m[x]
  {
    var q := Peek(m, d);
    OrZero(q.b0);
    OrZero(q.b1);
    OrZero(q.b2);
    OrZero(q.b3);
    hide Or;
  }

  /** Exactly the n bytes from `a` are zeroed. */
  ghost predicate Zeroed(m: Memory, m': Memory, a: Word, n: nat) {
    m'.Keys == m.Keys && forall x {:trigger m'[x]} :: x in m ==> m'[x] == if a <= x < a + n then 0 else m[x]
  }

  /** The bytes of a little-endian partial word on which clearing the wrong end shows. */
  ghost predicate TailAlreadyZero(m: Memory, a: Word, n: nat)
    requires Range(m, a, Ceiling(n))
  {
    forall x: Word :: a <= x < a + Ceiling(n) && (x < a + n <==> Merged(n, x - a, false)) ==> m[x] == 0
  }

  /** A fill with zero is right for every length with big-endian words, and with little-endian ones
      exactly when the misjudged bytes are zero before; in particular for whole words. */
  lemma ZeroCorrectIff(m: Memory, a: Word, n: Word, big: bool)
    requires Range(m, a, Ceiling(n))
    ensures Fill(m, a, ZEROS, n, big).Some?
    ensures Zeroed(m, Fill(m, a, ZEROS, n, big).value, a, n) <==> big || TailAlreadyZero(m, a, n)
    ensures n % 4 == 0 ==> TailAlreadyZero(m, a, n)
  {
    ZeroEffect(m, a, n, big);
    SmallCeiling(n);
    hide Fill, Merged, Ceiling;
    var m' := Fill(m, a, ZEROS, n, big).value;
    if Zeroed(m, m', a, n) && !big {
      forall x: Word | a <= x < a + Ceiling(n) && (x < a + n <==> Merged(n, x - a, false))
        ensures m[x] == 0
      {
        assert m'[x] == if x < a + n then 0 else m[x];
      }
    }
  }

  /** Only the words of the object change. */
  lemma ZeroFrame(m: Memory, a: Word, n: Word, big: bool)
    requires Range(m, a, Ceiling(n))
    ensures Fill(m, a, ZEROS, n, big).Some?
    ensures var m' := Fill(m, a, ZEROS, n, big).value;
            && m'.Keys == m.Keys
            && forall x :: x in m && !(a <= x < a + Ceiling(n)) ==> m'[x] == m[x]
  {
    hide Fill, Ceiling, Merged;
    ZeroEffect(m, a, n, big);
  }

  /** With little-endian words zeroing one byte can go wrong: the byte of a word holding 1 is kept. */
  lemma LittleEndianZeroFails()
    ensures Fill(TWO_WORDS, 0, ZEROS, 1, false).Some?
    ensures !Zeroed(TWO_WORDS, Fill(TWO_WORDS, 0, ZEROS, 1, false).value, 0, 1)
  {
    OneBitMore();
    hide Merged, Fill, Zeroed;
    var m := TWO_WORDS;
    assert Range(m, 0, 4) && m[0] == 1;
    ZeroCorrectIff(m, 0, 1, false);
    hide TWO_WORDS;
    assert Merged(1, 0 - 0, false);
  }

  /** A copy out of an object that is zeroed afterwards is as good as the copy alone: it holds the
      first n bytes exactly when the destination bytes under the mask have no bits of their own. */
  lemma ContentsMoved(m: Memory, m': Memory, dest: Word, src: Word, n: Word, size: Word, zero: bool, big: bool)
    requires n <= size && Range(m, dest, Ceiling(n)) && Range(m, src, Ceiling(size))
    requires dest + Ceiling(n) <= src || src + Ceiling(size) <= dest
    requires Copy(m, dest, src, n, big).Some?
    requires Some(m') == if zero then Fill(Copy(m, dest, src, n, big).value, src, ZEROS, size, big)
                         else Copy(m, dest, src, n, big)
    ensures Range(m, src, Ceiling(n))
    ensures SameBytes(m, m', dest, src, n) <==> TailHarmless(m, dest, src, n, big)
    ensures n % 4 == 0 ==> SameBytes(m, m', dest, src, n)
  {
    hide Copy, Fill, Merged, TailHarmless, SameBytes;
    assert Ceiling(n) <= Ceiling(size);
    ShorterRange(m, src, Ceiling(size), Ceiling(n));
    hide Ceiling;
    CopyFrame(m, dest, src, n, big);
    CopyCorrectIff(m, dest, src, n, big);
    if zero {
      ZeroElsewhere(m, Copy(m, dest, src, n, big).value, dest, src, n, size, big);
    }
  }

  /** Zeroing an object does not change what another one holds. */
  lemma ZeroElsewhere(m: Memory, m1: Memory, dest: Word, src: Word, n: Word, size: Word, big: bool)
    requires m1.Keys == m.Keys && Range(m, dest, Ceiling(n)) && Range(m, src, Ceiling(size)) && n <= size
    requires dest + Ceiling(n) <= src || src + Ceiling(size) <= dest
    ensures Fill(m1, src, ZEROS, size, big).Some?
    ensures SameBytes(m, Fill(m1, src, ZEROS, size, big).value, dest, src, n) <==> SameBytes(m, m1, dest, src, n)
  {
    ZeroEffect(m1, src, size, big);
    SmallCeiling(n);
    hide Fill, Ceiling, Merged, SameBytes;
    var m' := Fill(m1, src, ZEROS, size, big).value;
    forall x: Word | dest <= x < dest + n
      ensures x in m && m'[x] == m1[x]
    {
    }
    if SameBytes(m, m1, dest, src, n) {
      SameThere(m, m1, m', dest, src, n);
    }
    if SameBytes(m, m', dest, src, n) {
      SameThere(m, m', m1, dest, src, n);
    }
  }

  lemma SameThere(m: Memory, m1: Memory, m': Memory, dest: Word, src: Word, n: nat)
    requires m1.Keys == m.Keys && m'.Keys == m.Keys && SameBytes(m, m1, dest, src, n)
    requires forall x: Word {:trigger m'[x]} {:trigger m1[x]} :: dest <= x < dest + n ==> x in m && m'[x] == m1[x]
    ensures SameBytes(m, m', dest, src, n)
  {
  }

  // ---- the fill pattern -------------------------------------------------

  /** c | (c<<8) | (c<<16) | (c<<24) */
  function Pattern(c: Word): nat {
    Or(Or(Or(c, Shl(c, 8)), Shl(c, 16)), Shl(c, 24))
  }

  /** The pattern of a byte is that byte four times. */
  lemma PatternBytes(c: Byte)
    ensures Pattern(c) == Number(Quad(c, c, c, c), true) == Number(Quad(c, c, c, c), false)
  {
    Pow2Values();
    hide Or, Pow2;
    ShiftedByte(c, 8, 256);
    ShiftedByte(c, 16, 0x1_0000);
    ShiftedByte(c, 24, 0x100_0000);
    hide Shl;
    OrAbove(c, c, 8);
    OrAbove(c * 257, c, 16);
    OrAbove(c * 0x1_0101, c, 24);
  }

  lemma ShiftedByte(c: Byte, k: nat, p: nat)
    requires Pow2(k) == p && c * p < WORD
    ensures Shl(c, k) == c * p
  {
    hide Pow2, Wrap;
    WrapSame(c * p);
  }

  lemma ZeroPattern(big: bool)
    ensures Pattern(0) == 0 && Bytes(0, big) == ZEROS
  {
    OrZero(0);
    NothingShifted(8);
    NothingShifted(16);
    NothingShifted(24);
    hide Or, Shl, Pow2, Bytes;
    NumberRoundTrip(ZEROS, big);
  }

  lemma NothingShifted(k: nat)
    ensures Shl(0, k) == 0
  {
    hide Pow2;
  }

  lemma OrAbove(low: nat, high: nat, k: nat)
    requires low < Pow2(k)
    ensures Or(low, high * Pow2(k)) == high * Pow2(k) + low
  {
    hide Or, Pow2;
    BitwiseSplit(low, high * Pow2(k), 0, low, high, 0, k);
    OrZero(high);
    OrZero(low);
  }
}

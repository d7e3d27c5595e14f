/** Installing and removing breakpoints at the registered action addresses
    (`mut_install_action_breakpoints` and `mut_remove_action_breakpoints` of src/mut.c): each
    overwrites one word of text and keeps the word that was there. */
module Breakpoints {
  import opened Words
  import opened Memory

  predicate AllMapped(m: Memory, addrs: seq<Word>) {
    forall i :: 0 <= i < |addrs| ==> Mapped(m, addrs[i])
  }

  predicate PairwiseApart(addrs: seq<Word>) {
    forall i, j :: 0 <= i < j < |addrs| ==> Apart(addrs[i], addrs[j])
  }

  /** The text once every breakpoint is installed, in list order. */
  function Install(m: Memory, addrs: seq<Word>, bp: Quad): (m': Memory)
    requires AllMapped(m, addrs)
    ensures m'.Keys == m.Keys
  {
    if addrs == [] then m else Install(Poke(m, addrs[0], bp), addrs[1..], bp)
  }

  /** The words that installing the breakpoints keeps. */
  function Saved(m: Memory, addrs: seq<Word>, bp: Quad): (ss: seq<Quad>)
    requires AllMapped(m, addrs)
    ensures |ss| == |addrs|
  {
    if addrs == [] then [] else [Peek(m, addrs[0])] + Saved(Poke(m, addrs[0], bp), addrs[1..], bp)
  }

  /** The text once the kept words are put back, in list order. */
  function Remove(m: Memory, addrs: seq<Word>, ss: seq<Quad>): (m': Memory)
    requires AllMapped(m, addrs) && |ss| == |addrs|
    ensures m'.Keys == m.Keys
  {
    if addrs == [] then m else Remove(Poke(m, addrs[0], ss[0]), addrs[1..], ss[1..])
  }

  predicate Covers(a: Word, x: Word) {
    a <= x < a + 4
  }

  /** How many of the words contain a byte. */
  function Cover(addrs: seq<Word>, x: Word): nat {
    if addrs == [] then 0 else (if Covers(addrs[0], x) then 1 else 0) + Cover(addrs[1..], x)
  }

  /** A byte of some breakpoint instruction. */
  predicate BreakByte(bp: Quad, b: Byte) {
    b == bp.b0 || b == bp.b1 || b == bp.b2 || b == bp.b3
  }

  /** One byte of text through installing on `m1` and then removing from `m2`: untouched outside the
      words, the original byte where exactly one word covers it, and a leftover of a breakpoint
      where words overlap. */
  lemma {:induction false} CycleByte(m1: Memory, m2: Memory, addrs: seq<Word>, bp: Quad, x: Word)
    requires AllMapped(m1, addrs) && m2.Keys == m1.Keys && x in m1
    ensures AllMapped(m2, addrs)
    ensures var b := Remove(m2, addrs, Saved(m1, addrs, bp))[x];
            match Cover(addrs, x)
            case 0 => b == m2[x]
            case 1 => b == m1[x]
            case _ => BreakByte(bp, b)
  {
    if addrs != [] {
      var a := addrs[0];
      assert Mapped(m1, a) && Mapped(m2, a);
      var p1, p2 := Poke(m1, a, bp), Poke(m2, a, Peek(m1, a));
      assert Covers(a, x) ==> BreakByte(bp, p1[x]) && p2[x] == m1[x];
      CycleByte(p1, p2, addrs[1..], bp, x);
    }
  }

  lemma {:induction false} InstallByte(m: Memory, addrs: seq<Word>, bp: Quad, x: Word)
    requires AllMapped(m, addrs) && x in m
    ensures Cover(addrs, x) == 0 ==> Install(m, addrs, bp)[x] == m[x]
  {
    if addrs != [] {
      InstallByte(Poke(m, addrs[0], bp), addrs[1..], bp, x);
    }
  }

  lemma {:induction false} CoverPositive(addrs: seq<Word>, i: nat, x: Word)
    requires i < |addrs| && Covers(addrs[i], x)
    ensures Cover(addrs, x) >= 1
  {
    if i != 0 {
      CoverPositive(addrs[1..], i - 1, x);
    }
  }

  lemma {:induction false} CoverTwice(addrs: seq<Word>, i: nat, j: nat, x: Word)
    requires i < j < |addrs| && Covers(addrs[i], x) && Covers(addrs[j], x)
    ensures Cover(addrs, x) >= 2
  {
    if i == 0 {
      CoverPositive(addrs[1..], j - 1, x);
    } else {
      CoverTwice(addrs[1..], i - 1, j - 1, x);
    }
  }

  lemma {:induction false} CoverApart(addrs: seq<Word>, x: Word)
    requires PairwiseApart(addrs)
    ensures Cover(addrs, x) <= 1
  {
    if addrs != [] {
      CoverApart(addrs[1..], x);
      if Covers(addrs[0], x) {
        CoverNone(addrs[1..], addrs[0], x);
      }
    }
  }

  lemma {:induction false} CoverNone(addrs: seq<Word>, a: Word, x: Word)
    requires Covers(a, x) && forall i :: 0 <= i < |addrs| ==> Apart(a, addrs[i])
    ensures Cover(addrs, x) == 0
  {
    if addrs != [] {
      assert Apart(a, addrs[0]);
      CoverNone(addrs[1..], a, x);
    }
  }

  /** Removing the breakpoints from the text they were installed in. */
  function Cycle(m: Memory, addrs: seq<Word>, bp: Quad): Memory
    requires AllMapped(m, addrs)
  {
    Remove(Install(m, addrs, bp), addrs, Saved(m, addrs, bp))
  }

  lemma ApartCycle(m: Memory, addrs: seq<Word>, bp: Quad)
    requires AllMapped(m, addrs) && PairwiseApart(addrs)
    ensures AllMapped(Install(m, addrs, bp), addrs) && Cycle(m, addrs, bp) == m
  {
    var m' := Cycle(m, addrs, bp);
    forall x | x in m
      ensures m'[x] == m[x]
    {
      CoverApart(addrs, x);
      CycleByte(m, Install(m, addrs, bp), addrs, bp, x);
      InstallByte(m, addrs, bp, x);
    }
  }

  /** Text all of whose bytes are `b`. */
  ghost function Uniform(b: Byte): Memory {
    Filled(b, WORD)
  }

  lemma UniformMapped(b: Byte, addrs: seq<Word>)
    requires forall i :: 0 <= i < |addrs| ==> addrs[i] + 3 < WORD
    ensures AllMapped(Uniform(b), addrs)
    ensures forall x: Word :: x in Uniform(b) && Uniform(b)[x] == b
  {
  }

  /** Installing and removing breakpoints restores every text exactly when no two words overlap. */
  lemma CycleIff(addrs: seq<Word>, bp: Quad)
    requires forall i :: 0 <= i < |addrs| ==> addrs[i] + 3 < WORD
    ensures (forall m: Memory {:trigger AllMapped(m, addrs)} :: AllMapped(m, addrs) ==> Cycle(m, addrs, bp) == m) <==>
            PairwiseApart(addrs)
  {
    hide Uniform;
    if PairwiseApart(addrs) {
      forall m: Memory | AllMapped(m, addrs)
        ensures Cycle(m, addrs, bp) == m
      {
        ApartCycle(m, addrs, bp);
      }
    } else {
      var i, j :| 0 <= i < j < |addrs| && !Apart(addrs[i], addrs[j]);
      var x: Word := if addrs[i] < addrs[j] then addrs[j] else addrs[i];
      CoverTwice(addrs, i, j, x);
      var b: Byte := OtherByte(bp);
      var m := Uniform(b);
      UniformMapped(b, addrs);
      CycleByte(m, Install(m, addrs, bp), addrs, bp, x);
      assert m[x] == b && !BreakByte(bp, b);
    }
  }

  /** A byte that does not occur in the breakpoint instruction. */
  function OtherByte(bp: Quad): (b: Byte)
    ensures !BreakByte(bp, b)
  {
    if !BreakByte(bp, 0) then 0
    else if !BreakByte(bp, 1) then 1
    else if !BreakByte(bp, 2) then 2
    else if !BreakByte(bp, 3) then 3
    else 4
  }

  // ---- one breakpoint more ----------------------------------------------

  /** A breakpoint away from all others can be installed before or after them. */
  lemma {:induction false} InstallOther(m: Memory, a: Word, addrs: seq<Word>, bp: Quad)
    requires AllMapped(m, addrs) && Mapped(m, a) && PairwiseApart([a] + addrs)
    ensures AllMapped(Poke(m, a, bp), addrs) && Mapped(Install(m, addrs, bp), a)
    ensures Install(Poke(m, a, bp), addrs, bp) == Poke(Install(m, addrs, bp), a, bp)
    ensures Saved(Poke(m, a, bp), addrs, bp) == Saved(m, addrs, bp)
    ensures Peek(Install(m, addrs, bp), a) == Peek(m, a)
  {
    SetApart(m, a, addrs, bp);
    if addrs != [] {
      var b := addrs[0];
      TailApart(a, addrs);
      InstallStep(m, addrs, bp);
      InstallStep(Poke(m, a, bp), addrs, bp);
      PokesCommute(m, a, bp, b, bp);
      PeekPoke(m, b, bp, a);
      PeekPoke(m, a, bp, b);
      hide Install, Saved, Poke, Peek, Mapped, AllMapped, PairwiseApart, Apart;
      InstallOther(Poke(m, b, bp), a, addrs[1..], bp);
    }
  }

  lemma SetApart(m: Memory, a: Word, addrs: seq<Word>, bp: Quad)
    requires AllMapped(m, addrs) && Mapped(m, a)
    ensures AllMapped(Poke(m, a, bp), addrs)
  {
  }

  lemma TailApart(a: Word, addrs: seq<Word>)
    requires addrs != [] && PairwiseApart([a] + addrs)
    ensures Apart(a, addrs[0]) && PairwiseApart([a] + addrs[1..])
  {
    assert ([a] + addrs)[0] == a && ([a] + addrs)[1] == addrs[0];
    assert forall i :: 0 < i < |addrs| ==> ([a] + addrs[1..])[i] == ([a] + addrs)[i + 1];
  }

  /** Entering an address at the head of the list. */
  lemma EnterBreakpoint(m: Memory, a: Word, addrs: seq<Word>, bp: Quad)
    requires AllMapped(m, addrs) && Mapped(m, a) && PairwiseApart([a] + addrs)
    ensures AllMapped(m, [a] + addrs) && Mapped(Install(m, addrs, bp), a)
    ensures Install(m, [a] + addrs, bp) == Poke(Install(m, addrs, bp), a, bp)
    ensures Saved(m, [a] + addrs, bp) == [Peek(Install(m, addrs, bp), a)] + Saved(m, addrs, bp)
  {
    InstallOther(m, a, addrs, bp);
    assert ([a] + addrs)[1..] == addrs;
    assert AllMapped(m, [a] + addrs);
  }

  lemma ApartTail(a: Word, addrs: seq<Word>)
    requires PairwiseApart([a] + addrs)
    ensures PairwiseApart(addrs)
  {
    hide Apart;
    assert forall k :: 0 <= k < |addrs| ==> addrs[k] == ([a] + addrs)[k + 1];
  }

  /** Installing one more at the end of the list. */
  lemma {:induction false} InstallSnoc(m: Memory, addrs: seq<Word>, a: Word, bp: Quad)
    requires AllMapped(m, addrs) && Mapped(m, a)
    ensures AllMapped(m, addrs + [a]) && Mapped(Install(m, addrs, bp), a)
    ensures Install(m, addrs + [a], bp) == Poke(Install(m, addrs, bp), a, bp)
    ensures Saved(m, addrs + [a], bp) == Saved(m, addrs, bp) + [Peek(Install(m, addrs, bp), a)]
  {
    hide Install, Saved, Poke, Peek, Mapped, AllMapped;
    SnocMapped(m, addrs, a, bp);
    if addrs == [] {
      InstallOne(m, a, bp);
    } else {
      TailSnoc(addrs, a);
      InstallStep(m, addrs, bp);
      InstallStep(m, addrs + [a], bp);
      var m1 := Poke(m, addrs[0], bp);
      SameKeysMapped(m, m1, a);
      InstallSnoc(m1, addrs[1..], a, bp);
      Regroup(Peek(m, addrs[0]), Saved(m1, addrs[1..], bp), Peek(Install(m, addrs, bp), a));
    }
  }

  lemma TailSnoc(addrs: seq<Word>, a: Word)
    requires addrs != []
    ensures (addrs + [a])[1..] == addrs[1..] + [a] && (addrs + [a])[0] == addrs[0]
  {
  }

  lemma NothingInstalled(m: Memory, bp: Quad)
    ensures AllMapped(m, []) && Install(m, [], bp) == m && Saved(m, [], bp) == []
  {
  }

  lemma InstallOne(m: Memory, a: Word, bp: Quad)
    requires Mapped(m, a) && AllMapped(m, []) && AllMapped(m, [] + [a])
    ensures Install(m, [], bp) == m && Install(m, [] + [a], bp) == Poke(m, a, bp)
    ensures Saved(m, [] + [a], bp) == Saved(m, [], bp) + [Peek(m, a)]
  {
    assert [] + [a] == [a] && [a][1..] == [];
  }

  lemma SameKeysMapped(m: Memory, m': Memory, a: Word)
    requires m.Keys == m'.Keys && Mapped(m, a)
    ensures Mapped(m', a)
  {
  }

  lemma InstallStep(m: Memory, addrs: seq<Word>, bp: Quad)
    requires AllMapped(m, addrs) && addrs != []
    ensures Mapped(m, addrs[0]) && AllMapped(Poke(m, addrs[0], bp), addrs[1..])
    ensures Install(m, addrs, bp) == Install(Poke(m, addrs[0], bp), addrs[1..], bp)
    ensures Saved(m, addrs, bp) == [Peek(m, addrs[0])] + Saved(Poke(m, addrs[0], bp), addrs[1..], bp)
  {
  }

  lemma Regroup(x: Quad, ys: seq<Quad>, z: Quad)
    ensures [x] + (ys + [z]) == ([x] + ys) + [z]
  {
  }

  lemma SnocMapped(m: Memory, addrs: seq<Word>, a: Word, bp: Quad)
    requires AllMapped(m, addrs) && Mapped(m, a)
    ensures AllMapped(m, addrs + [a]) && Mapped(Install(m, addrs, bp), a)
  {
    hide Install;
    forall i | 0 <= i < |addrs + [a]|
      ensures Mapped(m, (addrs + [a])[i])
    {
      assert (addrs + [a])[i] == if i < |addrs| then addrs[i] else a;
    }
  }
}

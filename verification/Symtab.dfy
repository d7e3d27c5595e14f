/** The symbol table that maps addresses to functions and lines (src/exec/mut_exec_symtab.c). */
module Symtabs {
  import opened Words

  /** Line numbers are kept in an unsigned short. */
  const SHORT := 0x1_0000

  datatype Line = Line(addr: Word, number: nat)

  /** The file of a function is not set until a line range is added to it. */
  datatype Fun = Fun(start: Word, name: string, file: Option<string>, lines: seq<Line>)

  datatype Found = Found(start: Word, name: string, file: Option<string>, line: nat)

  predicate Sorted(fs: seq<Fun>) {
    forall i, j :: 0 <= i < j < |fs| ==> fs[i].start < fs[j].start
  }

  predicate LinesSorted(ls: seq<Line>) {
    forall i, j :: 0 <= i < j < |ls| ==> ls[i].addr <= ls[j].addr
  }

  predicate WellFormed(fs: seq<Fun>) {
    Sorted(fs) && forall i :: 0 <= i < |fs| ==> LinesSorted(fs[i].lines)
  }

  // ---- one insertion, one search ----------------------------------------

  /** A new function goes before the first one that starts later; a start that is taken stays. */
  function InsertFun(fs: seq<Fun>, f: Fun): seq<Fun> {
    if fs == [] || f.start < fs[0].start then [f] + fs
    else if f.start == fs[0].start then fs
    else [fs[0]] + InsertFun(fs[1..], f)
  }

  /** A new line goes before the first one that starts later. */
  function InsertLine(ls: seq<Line>, l: Line): seq<Line> {
    if ls == [] || l.addr < ls[0].addr then [l] + ls
    else [ls[0]] + InsertLine(ls[1..], l)
  }

  /** The function an address lies in, or the length of the list. */
  function Locate(fs: seq<Fun>, a: Word): (i: nat)
    ensures i <= |fs|
  {
    if fs == [] then 0
    else if fs[0].start <= a && (|fs| == 1 || a < fs[1].start) then 0
    else 1 + Locate(fs[1..], a)
  }

  predicate Holds(fs: seq<Fun>, i: nat, a: Word)
    requires i < |fs|
  {
    fs[i].start <= a && (i + 1 == |fs| || a < fs[i + 1].start)
  }

  /** Where the search for an address ends. */
  lemma {:induction false} LocateFirst(fs: seq<Fun>, i: nat, a: Word)
    requires i <= |fs| && (forall j :: 0 <= j < i ==> !Holds(fs, j, a)) && (i < |fs| ==> Holds(fs, i, a))
    ensures Locate(fs, a) == i
  {
    if i != 0 {
      assert !Holds(fs, 0, a);
      forall j | 0 <= j < i - 1
        ensures !Holds(fs[1..], j, a)
      {
        assert !Holds(fs, j + 1, a);
      }
      LocateFirst(fs[1..], i - 1, a);
    } else if fs != [] {
      assert Holds(fs, 0, a);
    }
  }

  /** The first line that does not end before an address. */
  function LineAt(ls: seq<Line>, a: Word): Option<Line> {
    if ls == [] then None else if a <= ls[0].addr then Some(ls[0]) else LineAt(ls[1..], a)
  }

  function NumberAt(ls: seq<Line>, a: Word): nat {
    match LineAt(ls, a)
    case None => 0
    case Some(l) => l.number
  }

  function Lookup(fs: seq<Fun>, a: Word): Option<Found> {
    var i := Locate(fs, a);
    if i == |fs| then None else Some(Found(fs[i].start, fs[i].name, fs[i].file, NumberAt(fs[i].lines, a)))
  }

  /** Records the file, then the line if there is memory for it. */
  function AddRangeAt(fs: seq<Fun>, i: nat, l: Line, file: string, entered: bool): seq<Fun>
    requires i < |fs|
  {
    fs[i := fs[i].(file := Some(file), lines := if entered then InsertLine(fs[i].lines, l) else fs[i].lines)]
  }

  lemma {:induction false} InsertFunSorted(fs: seq<Fun>, f: Fun)
    requires Sorted(fs)
    ensures Sorted(InsertFun(fs, f))
  {
    if fs != [] && fs[0].start < f.start {
      InsertFunSorted(fs[1..], f);
      LeastFun(fs[1..], f, fs[0].start);
    }
  }

  lemma {:induction false} LeastFun(fs: seq<Fun>, f: Fun, a: Word)
    requires a < f.start && forall i :: 0 <= i < |fs| ==> a < fs[i].start
    ensures forall i :: 0 <= i < |InsertFun(fs, f)| ==> a < InsertFun(fs, f)[i].start
  {
    if fs != [] && fs[0].start < f.start {
      LeastFun(fs[1..], f, a);
    }
  }

  /** Every function stays, and a new one is there unless its start was taken. */
  lemma {:induction false} InsertFunAdds(fs: seq<Fun>, f: Fun)
    requires Sorted(fs)
    ensures forall g :: g in InsertFun(fs, f) <==> g in fs || (g == f && !Taken(fs, f.start))
  {
    if fs != [] {
      if fs[0].start < f.start {
        InsertFunAdds(fs[1..], f);
        assert fs == [fs[0]] + fs[1..];
        assert Taken(fs, f.start) <==> Taken(fs[1..], f.start);
      } else {
        assert fs[0] in fs;
      }
    }
  }

  predicate Taken(fs: seq<Fun>, a: Word) {
    exists f :: f in fs && f.start == a
  }

  lemma {:induction false} InsertLineSorted(ls: seq<Line>, l: Line)
    requires LinesSorted(ls)
    ensures LinesSorted(InsertLine(ls, l))
  {
    if ls != [] && ls[0].addr <= l.addr {
      InsertLineSorted(ls[1..], l);
      LeastLine(ls[1..], l, ls[0].addr);
    }
  }

  lemma {:induction false} LeastLine(ls: seq<Line>, l: Line, a: Word)
    requires a <= l.addr && forall i :: 0 <= i < |ls| ==> a <= ls[i].addr
    ensures forall i :: 0 <= i < |InsertLine(ls, l)| ==> a <= InsertLine(ls, l)[i].addr
  {
    if ls != [] && ls[0].addr <= l.addr {
      LeastLine(ls[1..], l, a);
    }
  }

  /** Nothing is lost and nothing else appears. */
  lemma {:induction false} InsertLineAdds(ls: seq<Line>, l: Line)
    ensures multiset(InsertLine(ls, l)) == multiset(ls) + multiset{l}
  {
    if ls == [] || l.addr < ls[0].addr {
      assert multiset([l] + ls) == multiset([l]) + multiset(ls);
    } else {
      InsertLineAdds(ls[1..], l);
      assert multiset([ls[0]] + InsertLine(ls[1..], l)) == multiset{ls[0]} + multiset(InsertLine(ls[1..], l));
      assert ls == [ls[0]] + ls[1..];
    }
  }

  lemma Reassembled<T>(xs: seq<T>, i: nat, x: T)
    requires 0 < i <= |xs|
    ensures [xs[0]] + (xs[1..][..i - 1] + [x] + xs[1..][i - 1..]) == xs[..i] + [x] + xs[i..]
    ensures [xs[0]] + xs[1..] == xs
  {
    assert xs[1..][..i - 1] == xs[1..i] && xs[1..][i - 1..] == xs[i..];
    assert [xs[0]] + xs[1..i] == xs[..i];
  }

  /** Where the search for the place of a new function ends. */
  lemma {:induction false} InsertFunAt(fs: seq<Fun>, f: Fun, i: nat)
    requires i <= |fs| && forall j :: 0 <= j < i ==> fs[j].start < f.start
    requires i < |fs| ==> f.start <= fs[i].start
    ensures InsertFun(fs, f) == if i < |fs| && fs[i].start == f.start then fs else fs[..i] + [f] + fs[i..]
  {
    if i != 0 {
      InsertFunAt(fs[1..], f, i - 1);
      Reassembled(fs, i, f);
    }
  }

  lemma {:induction false} InsertLineAt(ls: seq<Line>, l: Line, i: nat)
    requires i <= |ls| && forall j :: 0 <= j < i ==> ls[j].addr <= l.addr
    requires i < |ls| ==> l.addr < ls[i].addr
    ensures InsertLine(ls, l) == ls[..i] + [l] + ls[i..]
  {
    if i != 0 {
      InsertLineAt(ls[1..], l, i - 1);
      Reassembled(ls, i, l);
    }
  }

  /** The located function has the greatest start not after the address; there is none exactly when
      the address precedes all. */
  lemma {:induction false} LocateGreatest(fs: seq<Fun>, a: Word)
    requires Sorted(fs)
    ensures var i := Locate(fs, a);
            && (i == |fs| <==> forall j :: 0 <= j < |fs| ==> a < fs[j].start)
            && (i < |fs| ==> fs[i].start <= a && forall j :: i < j < |fs| ==> a < fs[j].start)
  {
    if fs != [] {
      LocateGreatest(fs[1..], a);
      assert forall j :: 0 < j < |fs| ==> fs[j] == fs[1..][j - 1];
    }
  }

  /** Only one function can be located. */
  lemma LocateIs(fs: seq<Fun>, a: Word, i: nat)
    requires Sorted(fs) && i < |fs| && fs[i].start <= a && forall j :: i < j < |fs| ==> a < fs[j].start
    ensures Locate(fs, a) == i
  {
    LocateGreatest(fs, a);
  }

  class Symtab {
    var funs: seq<Fun>
    /** Start of the function a line range was last added to, and of the one after it. */
    var cache: Option<Word>
    var end: Word

    constructor ()
      ensures funs == [] && cache == None && end == 0
    {
      funs, cache, end := [], None, 0;
    }

    /** Enters a function at its place; the first name for an address is kept. */
    method AddFun(name: string, a: Word) returns (ok: bool)
      requires Sorted(funs)
      modifies this`funs
      ensures Sorted(funs)
      ensures funs == if ok then InsertFun(old(funs), Fun(a, name, None, [])) else old(funs)
      ensures Taken(old(funs), a) ==> ok
    {
      hide InsertFun;
      var f := Fun(a, name, None, []);
      var i := 0;
      while i < |funs| && funs[i].start <= a
        invariant i <= |funs| && funs == old(funs)
        invariant forall j :: 0 <= j < i ==> funs[j].start < a
      {
        if a == funs[i].start {
          InsertFunAt(funs, f, i);
          return true;
        }
        i := i + 1;
      }
      var memFull: bool := *;
      if memFull {
        return false;
      }
      InsertFunAt(funs, f, i);
      InsertFunSorted(funs, f);
      funs := funs[..i] + [f] + funs[i..];
      return true;
    }

    /** Enters a line range in the function it lies in; one before all functions is only warned about. */
    method AddRange(a: Word, l: Word, file: string) returns (ok: bool)
      requires WellFormed(funs)
      modifies this
      ensures WellFormed(funs)
      ensures var i := Locate(old(funs), a);
              if i == |old(funs)| then ok && funs == old(funs) && cache == old(cache) && end == old(end)
              else
                && funs == AddRangeAt(old(funs), i, Line(a, l % SHORT), file, ok)
                && cache == Some(old(funs)[i].start)
                && end == if i + 1 < |funs| then old(funs)[i + 1].start else old(end)
    {
      hide InsertLine, LinesSorted, Locate;
      var i := 0;
      while i < |funs|
        invariant i <= |funs| && funs == old(funs) && cache == old(cache) && end == old(end)
        invariant forall j :: 0 <= j < i ==> !Holds(funs, j, a)
      {
        if Holds(funs, i, a) {
          LocateFirst(funs, i, a);
          if i + 1 != |funs| {
            end := funs[i + 1].start;
          }
          cache := Some(funs[i].start);
          funs := funs[i := funs[i].(file := Some(file))];
          ok := AddLine(i, a, l);
          return;
        }
        i := i + 1;
      }
      LocateFirst(funs, i, a);
      return true;
    }

    method AddLine(i: nat, a: Word, l: Word) returns (ok: bool)
      requires WellFormed(funs) && i < |funs|
      modifies this`funs
      ensures WellFormed(funs)
      ensures funs ==
              if ok then old(funs)[i := old(funs)[i].(lines := InsertLine(old(funs)[i].lines, Line(a, l % SHORT)))]
              else old(funs)
    {
      hide InsertLine;
      var ls, line := funs[i].lines, Line(a, l % SHORT);
      var k := 0;
      while k < |ls| && ls[k].addr <= a
        invariant k <= |ls|
        invariant forall j :: 0 <= j < k ==> ls[j].addr <= a
      {
        k := k + 1;
      }
      var memFull: bool := *;
      if memFull {
        return false;
      }
      InsertLineAt(ls, line, k);
      InsertLineSorted(ls, line);
      funs := funs[i := funs[i].(lines := ls[..k] + [line] + ls[k..])];
      return true;
    }

    /** The function an address lies in, and the line. */
    method LookupAddr(a: Word) returns (found: Option<Found>)
      requires Sorted(funs)
      ensures found == Lookup(funs, a)
      ensures found.None? <==> forall j :: 0 <= j < |funs| ==> a < funs[j].start
      ensures found.Some? ==>
                && (exists i :: 0 <= i < |funs| && funs[i].start == found.value.start <= a)
                && forall j :: 0 <= j < |funs| && funs[j].start <= a ==> funs[j].start <= found.value.start
    {
      LocateGreatest(funs, a);
      hide Locate;
      var i := 0;
      while i < |funs|
        invariant i <= |funs|
        invariant forall j :: 0 <= j < i ==> !Holds(funs, j, a)
      {
        if Holds(funs, i, a) {
          LocateFirst(funs, i, a);
          var f := funs[i];
          var k := 0;
          assert f.lines[0..] == f.lines;
          while k < |f.lines|
            invariant k <= |f.lines|
            invariant LineAt(f.lines, a) == LineAt(f.lines[k..], a)
          {
            if a <= f.lines[k].addr {
              return Some(Found(f.start, f.name, f.file, f.lines[k].number));
            }
            assert f.lines[k..][1..] == f.lines[k + 1..];
            k := k + 1;
          }
          return Some(Found(f.start, f.name, f.file, 0));
        }
        i := i + 1;
      }
      LocateFirst(funs, i, a);
      return None;
    }

    /** The first function of a name, or zero. */
    method LookupName(name: string) returns (a: Word)
      requires Sorted(funs)
      ensures (exists i :: 0 <= i < |funs| && funs[i].name == name && funs[i].start == a) ||
              (a == 0 && forall i :: 0 <= i < |funs| ==> funs[i].name != name)
      ensures forall i :: 0 <= i < |funs| && funs[i].name == name ==> a <= funs[i].start
    {
      var i := 0;
      while i < |funs|
        invariant i <= |funs|
        invariant forall j :: 0 <= j < i ==> funs[j].name != name
      {
        if funs[i].name == name {
          return funs[i].start;
        }
        i := i + 1;
      }
      return 0;
    }
  }

  // ---- what was added, in any order -------------------------------------

  datatype FunAdded = FunAdded(name: string, addr: Word)

  datatype RangeAdded = RangeAdded(addr: Word, line: Word, file: string)

  /** The table after functions have been added. */
  function TableOf(adds: seq<FunAdded>): seq<Fun> {
    if adds == [] then []
    else var x := adds[|adds| - 1]; InsertFun(TableOf(adds[..|adds| - 1]), Fun(x.addr, x.name, None, []))
  }

  function WithRange(fs: seq<Fun>, r: RangeAdded): seq<Fun> {
    var i := Locate(fs, r.addr);
    if i == |fs| then fs else AddRangeAt(fs, i, Line(r.addr, r.line % SHORT), r.file, true)
  }

  /** The table after line ranges have been added to it. */
  function WithRanges(fs: seq<Fun>, rs: seq<RangeAdded>): seq<Fun> {
    if rs == [] then fs else WithRange(WithRanges(fs, rs[..|rs| - 1]), rs[|rs| - 1])
  }

  /** Of everything added, the function with the greatest start not after an address, the earliest
      added of several at that start. */
  function BestFun(adds: seq<FunAdded>, a: Word): Option<FunAdded> {
    if adds == [] then None
    else
      var best, x := BestFun(adds[..|adds| - 1], a), adds[|adds| - 1];
      if x.addr <= a && (best.None? || best.value.addr < x.addr) then Some(x) else best
  }

  predicate SameFun(adds: seq<FunAdded>, a: Word, b: Word) {
    BestFun(adds, a).Some? && BestFun(adds, b).Some? && BestFun(adds, a).value.addr == BestFun(adds, b).value.addr
  }

  /** Of all ranges added to the function an address lies in, the one with the least address not
      before it, the earliest added of several at that address. */
  function BestRange(adds: seq<FunAdded>, rs: seq<RangeAdded>, a: Word): Option<RangeAdded> {
    if rs == [] then None
    else
      var best, x := BestRange(adds, rs[..|rs| - 1], a), rs[|rs| - 1];
      if SameFun(adds, a, x.addr) && a <= x.addr && (best.None? || x.addr < best.value.addr) then Some(x) else best
  }

  /** The file of the latest range added to the function an address lies in. */
  function LatestFile(adds: seq<FunAdded>, rs: seq<RangeAdded>, a: Word): Option<string> {
    if rs == [] then None
    else
      var x := rs[|rs| - 1];
      if SameFun(adds, a, x.addr) then Some(x.file) else LatestFile(adds, rs[..|rs| - 1], a)
  }

  function Described(l: Option<RangeAdded>): nat {
    match l
    case None => 0
    case Some(r) => r.line % SHORT
  }

  /** What a lookup is to find. */
  function Answer(adds: seq<FunAdded>, rs: seq<RangeAdded>, a: Word): Option<Found> {
    match BestFun(adds, a)
    case None => None
    case Some(f) => Some(Found(f.addr, f.name, LatestFile(adds, rs, a), Described(BestRange(adds, rs, a))))
  }

  function FunAt(fs: seq<Fun>, a: Word): Option<Fun> {
    var i := Locate(fs, a);
    if i == |fs| then None else Some(fs[i])
  }

  lemma FunAtIs(fs: seq<Fun>, a: Word, f: Fun)
    requires Sorted(fs) && f in fs && f.start <= a && forall g :: g in fs && g.start <= a ==> g.start <= f.start
    ensures FunAt(fs, a) == Some(f)
  {
    var i :| 0 <= i < |fs| && fs[i] == f;
    forall j | i < j < |fs|
      ensures a < fs[j].start
    {
      assert fs[j] in fs;
    }
    LocateIs(fs, a, i);
  }

  lemma FunAtMeans(fs: seq<Fun>, a: Word)
    requires Sorted(fs)
    ensures FunAt(fs, a).None? ==> forall g :: g in fs ==> a < g.start
    ensures FunAt(fs, a).Some? ==>
              var f := FunAt(fs, a).value;
              f in fs && f.start <= a && forall g :: g in fs && g.start <= a ==> g.start <= f.start
  {
    LocateGreatest(fs, a);
  }

  lemma FunAtInsert(fs: seq<Fun>, f: Fun, a: Word)
    requires Sorted(fs)
    ensures FunAt(InsertFun(fs, f), a) ==
            if f.start <= a && (FunAt(fs, a).None? || FunAt(fs, a).value.start < f.start) then Some(f) else FunAt(fs, a)
  {
    InsertFunSorted(fs, f);
    InsertFunAdds(fs, f);
    var fs' := InsertFun(fs, f);
    FunAtMeans(fs, a);
    FunAtMeans(fs', a);
    hide FunAt, InsertFun, Sorted;
    var found := FunAt(fs, a);
    if f.start <= a && (found.None? || found.value.start < f.start) {
      assert !Taken(fs, f.start);
      FunAtIs(fs', a, f);
    } else if found.Some? {
      FunAtIs(fs', a, found.value);
    }
  }

  /** After any functions: sorted, and each address belongs to the best of them, the first name kept. */
  lemma {:induction false} TableExact(adds: seq<FunAdded>, a: Word)
    ensures Sorted(TableOf(adds))
    ensures forall g :: g in TableOf(adds) ==> g.file.None? && g.lines == []
    ensures var f := FunAt(TableOf(adds), a);
            BestFun(adds, a) == if f.None? then None else Some(FunAdded(f.value.name, f.value.start))
  {
    if adds != [] {
      var before, x := adds[..|adds| - 1], adds[|adds| - 1];
      var fs, f := TableOf(before), Fun(x.addr, x.name, None, []);
      TableExact(before, a);
      InsertFunSorted(fs, f);
      FunAtInsert(fs, f, a);
      hide InsertFun, Sorted, FunAt;
      InsertFunAdds(fs, f);
      forall g | g in TableOf(adds)
        ensures g.file.None? && g.lines == []
      {
        assert g in InsertFun(fs, f);
      }
    }
  }

  lemma {:induction false} LineAtInsert(ls: seq<Line>, l: Line, a: Word)
    requires LinesSorted(ls)
    ensures LineAt(InsertLine(ls, l), a) ==
            if a <= l.addr && (LineAt(ls, a).None? || l.addr < LineAt(ls, a).value.addr) then Some(l) else LineAt(ls, a)
  {
    if ls == [] {
      assert [l][1..] == [];
    } else if ls[0].addr <= l.addr {
      LineAtInsert(ls[1..], l, a);
      var rest := InsertLine(ls[1..], l);
      assert ([ls[0]] + rest)[1..] == rest;
    } else {
      assert ([l] + ls)[1..] == ls;
      LineAtFrom(ls, a);
    }
  }

  lemma {:induction false} LineAtFrom(ls: seq<Line>, a: Word)
    requires LinesSorted(ls) && ls != []
    ensures LineAt(ls, a).Some? ==> ls[0].addr <= LineAt(ls, a).value.addr
  {
    if a > ls[0].addr && |ls| > 1 {
      LineAtFrom(ls[1..], a);
    }
  }

  /** Ranges move no function. */
  lemma {:induction false} RangesKeepFuns(fs: seq<Fun>, rs: seq<RangeAdded>)
    requires WellFormed(fs)
    ensures WellFormed(WithRanges(fs, rs)) && |WithRanges(fs, rs)| == |fs|
    ensures forall i :: 0 <= i < |fs| ==>
              WithRanges(fs, rs)[i].start == fs[i].start && WithRanges(fs, rs)[i].name == fs[i].name
    ensures forall a :: Locate(WithRanges(fs, rs), a) == Locate(fs, a)
  {
    if rs != [] {
      var r := rs[|rs| - 1];
      RangesKeepFuns(fs, rs[..|rs| - 1]);
      var fs1 := WithRanges(fs, rs[..|rs| - 1]);
      var i := Locate(fs1, r.addr);
      if i < |fs1| {
        InsertLineSorted(fs1[i].lines, Line(r.addr, r.line % SHORT));
      }
      forall a
        ensures Locate(WithRanges(fs, rs), a) == Locate(fs, a)
      {
        SameStarts(fs, WithRanges(fs, rs), a);
      }
    }
  }

  lemma {:induction false} SameStarts(fs: seq<Fun>, gs: seq<Fun>, a: Word)
    requires |fs| == |gs| && forall i :: 0 <= i < |fs| ==> fs[i].start == gs[i].start
    ensures Locate(fs, a) == Locate(gs, a)
  {
    if fs != [] {
      SameStarts(fs[1..], gs[1..], a);
    }
  }

  /** Lines and file of the function an address lies in. */
  lemma {:induction false} RangesExact(adds: seq<FunAdded>, rs: seq<RangeAdded>, a: Word)
    requires BestFun(adds, a).Some?
    ensures var f := FunAt(WithRanges(TableOf(adds), rs), a);
            && f.Some?
            && f.value.file == LatestFile(adds, rs, a)
            && LineAt(f.value.lines, a) ==
               (match BestRange(adds, rs, a) case None => None case Some(r) => Some(Line(r.addr, r.line % SHORT)))
  {
    var fs := TableOf(adds);
    TableExact(adds, a);
    if rs != [] {
      var before, r := rs[..|rs| - 1], rs[|rs| - 1];
      RangesExact(adds, before, a);
      RangesKeepFuns(fs, before);
      RangesKeepFuns(fs, rs);
      TableExact(adds, r.addr);
      OwnerIs(adds, a, r.addr);
      var fs1 := WithRanges(fs, before);
      var i := Locate(fs, a);
      LineAtInsert(fs1[i].lines, Line(r.addr, r.line % SHORT), a);
    }
  }

  /** Two addresses lie in the same function exactly when they are located at the same place. */
  lemma OwnerIs(adds: seq<FunAdded>, a: Word, b: Word)
    requires BestFun(adds, a).Some?
    ensures SameFun(adds, a, b) <==> Locate(TableOf(adds), a) == Locate(TableOf(adds), b)
  {
    TableExact(adds, a);
    TableExact(adds, b);
  }

  /** With line ranges added after all functions every lookup finds exactly what it should. */
  lemma LookupExact(adds: seq<FunAdded>, rs: seq<RangeAdded>, a: Word)
    ensures Lookup(WithRanges(TableOf(adds), rs), a) == Answer(adds, rs, a)
  {
    TableExact(adds, a);
    RangesKeepFuns(TableOf(adds), rs);
    if BestFun(adds, a).Some? {
      RangesExact(adds, rs, a);
    }
  }

  /** A function added later starts without file and lines, even if ranges were added to what it now
      takes over; all other lookups stay. */
  lemma LateFunction(fs: seq<Fun>, name: string, start: Word, a: Word)
    requires Sorted(fs)
    ensures var late := InsertFun(fs, Fun(start, name, None, []));
            var before := Lookup(fs, a);
            Lookup(late, a) ==
            if start <= a && (before.None? || before.value.start < start) then Some(Found(start, name, None, 0))
            else before
  {
    FunAtInsert(fs, Fun(start, name, None, []), a);
    hide Locate, InsertFun;
  }
}

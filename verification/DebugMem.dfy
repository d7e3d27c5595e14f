/** The tracker's own debugging allocator (src/mem/debug/mut_mem.c): two lists of blocks, those in use
    and those given up, and counters that are 32 bits wide. */
module DebugMem {
  import opened Words

  datatype Pos = Pos(file: string, line: Word)

  datatype Node = Node(addr: Word, size: Word, madeAt: Pos, givenUpAt: Option<Pos>)

  /** A block and the place of the call that it was given to. */
  datatype Block = Block(addr: Word, size: Word, madeAt: Pos)

  datatype Report =
    | FreeingFreed(at: Pos, earlier: Option<Pos>)
    | FreeingUnallocated(at: Pos, addr: Word)
    | ReallocingFreed(at: Pos, earlier: Option<Pos>)
    | ReallocingUnallocated(at: Pos, addr: Word)
    | Leak(madeAt: Pos, addr: Word, size: Word)

  /** A call that came back, with its result and its place in the program. */
  datatype Call =
    | MallocCall(size: Word, result: Word, at: Pos)
    | FreeCall(addr: Word, at: Pos)
    | ReallocCall(addr: Word, size: Word, result: Word, at: Pos)

  datatype Outcome = Returned(addr: Word) | Halted

  /** What is in use after a change of the lists. */
  datatype Moment = Moment(bytes: nat, blocks: nat)

  function BlockOf(n: Node): Block {
    Block(n.addr, n.size, n.madeAt)
  }

  function Sum(ns: seq<Node>): nat {
    if ns == [] then 0 else ns[0].size + Sum(ns[1..])
  }

  function Bag(ns: seq<Node>): multiset<Block> {
    if ns == [] then multiset{} else multiset{BlockOf(ns[0])} + Bag(ns[1..])
  }

  function Addrs(ns: seq<Node>): (addrs: seq<Word>)
    ensures |addrs| == |ns| && forall i :: 0 <= i < |ns| ==> addrs[i] == ns[i].addr
  {
    seq(|ns|, i requires 0 <= i < |ns| => ns[i].addr)
  }

  function Gone(ns: seq<Node>): (ps: seq<Option<Pos>>)
    ensures |ps| == |ns| && forall i :: 0 <= i < |ns| ==> ps[i] == ns[i].givenUpAt
  {
    seq(|ns|, i requires 0 <= i < |ns| => ns[i].givenUpAt)
  }

  /** The freed list is what the calls gave up, with the places where. */
  ghost predicate GoneAs(freed: seq<Node>, calls: seq<Call>) {
    Addrs(freed) == GivenUp(calls) && Gone(freed) == GivenUpAt(calls)
  }

  // ---- what the calls say ------------------------------------------------

  /** All blocks that calls were given. */
  function Given(calls: seq<Call>): multiset<Block> {
    if calls == [] then multiset{}
    else
      var c, before := calls[|calls| - 1], Given(calls[..|calls| - 1]);
      if c.FreeCall? || c.result == 0 then before else before + multiset{Block(c.result, c.size, c.at)}
  }

  /** The addresses that calls gave up, the latest first; a realloc gives its argument up even when
      it fails. */
  function GivenUp(calls: seq<Call>): seq<Word> {
    if calls == [] then []
    else
      var c, before := calls[|calls| - 1], GivenUp(calls[..|calls| - 1]);
      if c.MallocCall? || c.addr == 0 then before else [c.addr] + before
  }

  /** The places of the calls that gave them up. */
  function GivenUpAt(calls: seq<Call>): seq<Option<Pos>> {
    if calls == [] then []
    else
      var c, before := calls[|calls| - 1], GivenUpAt(calls[..|calls| - 1]);
      if c.MallocCall? || c.addr == 0 then before else [Some(c.at)] + before
  }

  /** How many calls there were of each kind; `given` are the mallocs that succeeded, `failedNull` the
      reallocs of a null pointer that did not. */
  datatype Tally = Tally(given: nat, failedNull: nat, frees: nat, nullFrees: nat, reallocs: nat, nullReallocs: nat)

  function Tallied(calls: seq<Call>): Tally {
    if calls == [] then Tally(0, 0, 0, 0, 0, 0) else Plus(Tallied(calls[..|calls| - 1]), calls[|calls| - 1])
  }

  function Plus(t: Tally, c: Call): Tally {
    match c
    case MallocCall(_, r, _) => if r == 0 then t else t.(given := t.given + 1)
    case FreeCall(a, _) => t.(frees := t.frees + 1, nullFrees := t.nullFrees + if a == 0 then 1 else 0)
    case ReallocCall(a, _, r, _) =>
      t.(reallocs := t.reallocs + 1, nullReallocs := t.nullReallocs + (if a == 0 then 1 else 0),
         failedNull := t.failedNull + if a == 0 && r == 0 then 1 else 0)
  }

  lemma CallsSnoc(calls: seq<Call>, c: Call)
    ensures Given(calls + [c]) ==
            Given(calls) + if c.FreeCall? || c.result == 0 then multiset{} else multiset{Block(c.result, c.size, c.at)}
    ensures GivenUp(calls + [c]) == (if c.MallocCall? || c.addr == 0 then [] else [c.addr]) + GivenUp(calls)
    ensures GivenUpAt(calls + [c]) == (if c.MallocCall? || c.addr == 0 then [] else [Some(c.at)]) + GivenUpAt(calls)
    ensures c.MallocCall? || c.addr == 0 ==>
              GivenUp(calls + [c]) == GivenUp(calls) && GivenUpAt(calls + [c]) == GivenUpAt(calls)
    ensures Tallied(calls + [c]) == Plus(Tallied(calls), c)
  {
    assert (calls + [c])[..|calls|] == calls;
    if c.MallocCall? || c.addr == 0 {
      assert [] + GivenUp(calls) == GivenUp(calls) && [] + GivenUpAt(calls) == GivenUpAt(calls);
    }
  }

  lemma CountedBack(k: Word)
    ensures Wrap(Wrap(k + 1) - 1) == k
  {
  }

  // ---- peaks -------------------------------------------------------------

  /** While less than 2^32 bytes were in use, the maximum is the greatest number ever in use. */
  ghost predicate BytesPeak(moments: seq<Moment>, max: Word) {
    (forall k :: 0 <= k < |moments| ==> moments[k].bytes < WORD) ==>
      && (forall k :: 0 <= k < |moments| ==> moments[k].bytes <= max)
      && exists k :: 0 <= k < |moments| && moments[k].bytes == max
  }

  ghost predicate BlocksPeak(moments: seq<Moment>, max: Word) {
    (forall k :: 0 <= k < |moments| ==> moments[k].blocks < WORD) ==>
      && (forall k :: 0 <= k < |moments| ==> moments[k].blocks <= max)
      && exists k :: 0 <= k < |moments| && moments[k].blocks == max
  }

  lemma FirstPeaks()
    ensures BytesPeak([Moment(0, 0)], 0) && BlocksPeak([Moment(0, 0)], 0)
  {
    assert [Moment(0, 0)][0].bytes == 0;
  }

  lemma PeaksSnoc(moments: seq<Moment>, m: Moment, bytes: Word, blocks: Word)
    requires BytesPeak(moments, bytes) && BlocksPeak(moments, blocks)
    ensures BytesPeak(moments + [m], if Wrap(m.bytes) > bytes then Wrap(m.bytes) else bytes)
    ensures BlocksPeak(moments + [m], if Wrap(m.blocks) > blocks then Wrap(m.blocks) else blocks)
  {
    var ms := moments + [m];
    forall k | 0 <= k < |moments|
      ensures ms[k] == moments[k]
    {
    }
    assert ms[|moments|] == m;
  }

  // ---- lists -------------------------------------------------------------

  ghost predicate Distinct(xs: seq<Word>) {
    forall i, j :: 0 <= i < j < |xs| ==> xs[i] != xs[j]
  }

  /** The nodes before and after position `i`. */
  function Without(ns: seq<Node>, i: nat): seq<Node>
    requires i < |ns|
  {
    ns[..i] + ns[i + 1..]
  }

  lemma {:induction false} WithoutSum(ns: seq<Node>, i: nat)
    requires i < |ns|
    ensures Sum(Without(ns, i)) == Sum(ns) - ns[i].size
  {
    if i == 0 {
      assert Without(ns, 0) == ns[1..];
    } else {
      WithoutSum(ns[1..], i - 1);
      assert Without(ns, i)[1..] == Without(ns[1..], i - 1);
    }
  }

  lemma {:induction false} WithoutBag(ns: seq<Node>, i: nat)
    requires i < |ns|
    ensures Bag(ns) == Bag(Without(ns, i)) + multiset{BlockOf(ns[i])}
  {
    if i == 0 {
      assert Without(ns, 0) == ns[1..];
    } else {
      var rest := Without(ns, i);
      assert rest[0] == ns[0] && rest[1..] == Without(ns[1..], i - 1);
      BagFirst(ns);
      BagFirst(rest);
      WithoutBag(ns[1..], i - 1);
      hide Bag, Without;
    }
  }

  lemma BagFirst(ns: seq<Node>)
    requires ns != []
    ensures Bag(ns) == multiset{BlockOf(ns[0])} + Bag(ns[1..])
  {
  }

  lemma PushSums(n: Node, ns: seq<Node>)
    ensures Sum([n] + ns) == n.size + Sum(ns)
    ensures Bag([n] + ns) == Bag(ns) + multiset{BlockOf(n)}
    ensures Addrs([n] + ns) == [n.addr] + Addrs(ns)
  {
    assert ([n] + ns)[1..] == ns;
  }

  lemma PushDistinct(n: Node, xs: seq<Node>, ys: seq<Node>)
    requires Distinct(Addrs(xs) + Addrs(ys)) && n.addr !in Addrs(xs) && n.addr !in Addrs(ys)
    ensures Distinct(Addrs([n] + xs) + Addrs(ys))
  {
    var zs := Addrs(xs) + Addrs(ys);
    assert Addrs([n] + xs) + Addrs(ys) == [n.addr] + zs;
    assert n.addr !in zs;
  }

  lemma MoveDistinct(xs: seq<Node>, ys: seq<Node>, i: nat, n: Node)
    requires i < |xs| && n.addr == xs[i].addr && Distinct(Addrs(xs) + Addrs(ys))
    ensures Distinct(Addrs(Without(xs, i)) + Addrs([n] + ys))
  {
    var before, after := Addrs(xs) + Addrs(ys), Addrs(Without(xs, i)) + Addrs([n] + ys);
    forall j, k | 0 <= j < k < |after|
      ensures after[j] != after[k]
    {
      var j', k' := OldIndex(|xs|, i, j), OldIndex(|xs|, i, k);
      assert after[j] == before[j'] && after[k] == before[k'] && j' != k';
    }
  }

  /** Where a node was before it moved to the head of the other list. */
  function OldIndex(n: nat, i: nat, j: nat): nat
    requires i < n
  {
    if j < i then j else if j < n - 1 then j + 1 else if j == n - 1 then i else j
  }

  lemma {:induction false} BagMembers(ns: seq<Node>, b: Block)
    ensures b in Bag(ns) ==> b.addr in Addrs(ns)
  {
    if ns != [] {
      BagMembers(ns[1..], b);
      assert Addrs(ns) == [ns[0].addr] + Addrs(ns[1..]);
    }
  }

  /** In every state that keeps the account, the blocks in use are those that calls were given at
      addresses no call has given up. */
  lemma InUseIff(inUse: seq<Node>, freed: seq<Node>, calls: seq<Call>, b: Block)
    requires Distinct(Addrs(inUse) + Addrs(freed))
    requires Bag(inUse) + Bag(freed) == Given(calls) && GoneAs(freed, calls)
    ensures b in Bag(inUse) <==> b in Given(calls) && b.addr !in GivenUp(calls)
    ensures b in Bag(freed) ==> b in Given(calls) && b.addr in GivenUp(calls)
  {
    BagMembers(inUse, b);
    BagMembers(freed, b);
    hide Bag, Given, GivenUp, Addrs;
    if b in Bag(inUse) {
      InOneList(Addrs(inUse), Addrs(freed), b.addr);
    }
  }

  lemma InOneList(xs: seq<Word>, ys: seq<Word>, a: Word)
    requires Distinct(xs + ys) && a in xs
    ensures a !in ys
  {
    var i :| 0 <= i < |xs| && xs[i] == a;
    forall j | 0 <= j < |ys|
      ensures ys[j] != a
    {
      assert (xs + ys)[i] == a && (xs + ys)[|xs| + j] == ys[j];
    }
  }

  /** A list with what an allocation has given, if anything. */
  function Entered(addr: Word, n: Word, at: Pos, ns: seq<Node>): seq<Node> {
    if addr == 0 then ns else [Node(addr, n, at, None)] + ns
  }

  lemma NothingYet()
    ensures Distinct(Addrs([]) + Addrs([])) && Sum([]) == 0 && Wrap(0) == 0
    ensures Bag([]) + Bag([]) == Given([]) && GoneAs([], [])
    ensures Tallied([]) == Tally(0, 0, 0, 0, 0, 0)
  {
  }

  /** Of an address that is not in use: where it was given up, if it was, or else that it never was had. */
  ghost predicate Explains(freed: seq<Node>, a: Word, at: Pos, rep: Report) {
    match rep
    case FreeingFreed(p, earlier) => p == at && GivenUpThere(freed, a, earlier)
    case ReallocingFreed(p, earlier) => p == at && GivenUpThere(freed, a, earlier)
    case FreeingUnallocated(p, x) => p == at && x == a && a !in Addrs(freed)
    case ReallocingUnallocated(p, x) => p == at && x == a && a !in Addrs(freed)
    case Leak(_, _, _) => false
  }

  ghost predicate GivenUpThere(freed: seq<Node>, a: Word, earlier: Option<Pos>) {
    exists k :: 0 <= k < |freed| && freed[k].addr == a && freed[k].givenUpAt == earlier
  }

  class Store {
    var inUse: seq<Node>
    var freed: seq<Node>
    var nBytesAllocated: Word
    var nBytesInUse: Word
    var nBlocksInUse: Word
    var maxBytesInUse: Word
    var maxBlocksInUse: Word
    var nMalloc: Word
    var nRealloc: Word
    var nRealloc0: Word
    var nFree: Word
    var nFree0: Word
    var log: seq<Report>
    ghost var calls: seq<Call>
    ghost var moments: seq<Moment>

    /** The counters describe the lists, and the maxima what the lists have been. */
    ghost predicate Lists()
      reads this`inUse, this`freed, this`nBytesAllocated, this`nBytesInUse, this`nBlocksInUse
      reads this`maxBytesInUse, this`maxBlocksInUse, this`moments
    {
      && Distinct(Addrs(inUse) + Addrs(freed))
      && nBytesInUse == Wrap(Sum(inUse)) && nBlocksInUse == Wrap(|inUse|)
      && nBytesAllocated == Wrap(Sum(inUse) + Sum(freed))
      && moments != [] && moments[|moments| - 1] == Moment(Sum(inUse), |inUse|)
      && BytesPeak(moments, maxBytesInUse) && BlocksPeak(moments, maxBlocksInUse)
    }

    /** The lists divide up what the calls were given; exactly what they gave up is in the freed list. */
    ghost predicate Accounted()
      reads this`inUse, this`freed, this`calls
    {
      && Bag(inUse) + Bag(freed) == Given(calls)
      && GoneAs(freed, calls)
    }

    /** Mallocs are counted when they succeed; every failed realloc of a null pointer counts down. */
    ghost predicate Counted()
      reads this`nMalloc, this`nRealloc, this`nRealloc0, this`nFree, this`nFree0, this`calls
    {
      var t := Tallied(calls);
      && nMalloc == Wrap(t.given - t.failedNull)
      && nFree == Wrap(t.frees) && nFree0 == Wrap(t.nullFrees)
      && nRealloc == Wrap(t.reallocs) && nRealloc0 == Wrap(t.nullReallocs)
    }

    ghost predicate Valid()
      reads this
    {
      Lists() && Accounted() && Counted()
    }

    constructor ()
      ensures Valid() && inUse == [] && calls == [] && log == []
    {
      FirstPeaks();
      NothingYet();
      hide BytesPeak, BlocksPeak, Distinct, Sum, Bag, Addrs, Given, GivenUp, GivenUpAt, GoneAs, Tallied, Wrap;
      inUse, freed, log := [], [], [];
      nBytesAllocated, nBytesInUse, nBlocksInUse, maxBytesInUse, maxBlocksInUse := 0, 0, 0, 0, 0;
      nMalloc, nRealloc, nRealloc0, nFree, nFree0 := 0, 0, 0, 0, 0;
      calls, moments := [], [Moment(0, 0)];
    }

    /** The allocation proper; the C library returns no address that it has not been given back, and it
        is given nothing back before `Close`. */
    method Allocate(n: Word, at: Pos) returns (addr: Word)
      requires Lists()
      modifies this`inUse, this`nBytesAllocated, this`nBytesInUse, this`nBlocksInUse, this`maxBytesInUse
      modifies this`maxBlocksInUse, this`nMalloc, this`moments
      ensures Lists()
      ensures inUse == Entered(addr, n, at, old(inUse))
      ensures nMalloc == if addr == 0 then old(nMalloc) else Wrap(old(nMalloc) + 1)
    {
      hide Wrap, Distinct, BytesPeak, BlocksPeak, Bag, Sum;
      addr :| addr == 0 || (addr !in Addrs(inUse) && addr !in Addrs(freed));
      if addr == 0 {
        return;
      }
      var nodeFull: bool := *;
      if nodeFull {
        return 0;
      }
      var node := Node(addr, n, at, None);
      PushSums(node, inUse);
      PushDistinct(node, inUse, freed);
      WrapSum(Sum(inUse) + Sum(freed), n);
      WrapSum(Sum(inUse), n);
      WrapSum(|inUse|, 1);
      PeaksSnoc(moments, Moment(n + Sum(inUse), 1 + |inUse|), maxBytesInUse, maxBlocksInUse);
      inUse := [node] + inUse;
      nMalloc := Wrap(nMalloc + 1);
      nBytesAllocated := Wrap(nBytesAllocated + n);
      nBytesInUse := Wrap(nBytesInUse + n);
      if nBytesInUse > maxBytesInUse {
        maxBytesInUse := nBytesInUse;
      }
      nBlocksInUse := Wrap(nBlocksInUse + 1);
      if nBlocksInUse > maxBlocksInUse {
        maxBlocksInUse := nBlocksInUse;
      }
      moments := moments + [Moment(Sum(inUse), |inUse|)];
    }

    /** Moves a block to the freed list. */
    method GiveUp(i: nat, at: Pos)
      requires Lists() && i < |inUse|
      modifies this`inUse, this`freed, this`nBytesInUse, this`nBlocksInUse, this`moments
      ensures Lists()
      ensures inUse == Without(old(inUse), i) && freed == [old(inUse)[i].(givenUpAt := Some(at))] + old(freed)
    {
      hide Wrap, Distinct, BytesPeak, BlocksPeak, Bag;
      var n := inUse[i].(givenUpAt := Some(at));
      WrapSum(Sum(inUse), 0 - n.size);
      WrapSum(|inUse|, -1);
      WithoutSum(inUse, i);
      PushSums(n, freed);
      MoveDistinct(inUse, freed, i, n);
      LowerMoment(moments, Moment(Sum(inUse) - n.size, |inUse| - 1), maxBytesInUse, maxBlocksInUse);
      inUse, freed := Without(inUse, i), [n] + freed;
      nBytesInUse, nBlocksInUse := Wrap(nBytesInUse - n.size), Wrap(nBlocksInUse - 1);
      moments := moments + [Moment(Sum(inUse), |inUse|)];
    }

    /** Gives a block up and allocates a new one, not counting that as a malloc. */
    method Replace(i: nat, n: Word, at: Pos) returns (addr: Word)
      requires Lists() && i < |inUse|
      modifies this`inUse, this`freed, this`nBytesAllocated, this`nBytesInUse, this`nBlocksInUse
      modifies this`maxBytesInUse, this`maxBlocksInUse, this`nMalloc, this`moments
      ensures Lists() && nMalloc == old(nMalloc)
      ensures inUse == Entered(addr, n, at, Without(old(inUse), i))
      ensures freed == [old(inUse)[i].(givenUpAt := Some(at))] + old(freed)
    {
      hide Store.Lists, Without, Wrap, Entered;
      GiveUp(i, at);
      ghost var k := nMalloc;
      addr := Allocate(n, at);
      if addr != 0 {
        CountedBack(k);
        nMalloc := Wrap(nMalloc - 1);
      }
    }

    method Malloc(n: Word, at: Pos) returns (addr: Word)
      requires Valid()
      modifies this
      ensures Valid() && log == old(log) && calls == old(calls) + [MallocCall(n, addr, at)]
      ensures inUse == Entered(addr, n, at, old(inUse)) && freed == old(freed)
    {
      hide Store.Lists, Given, GivenUp, GivenUpAt, GoneAs, Bag, Tallied, Wrap, Without, Entered;
      ghost var t := Tallied(calls);
      WrapSum(t.given - t.failedNull, 1);
      addr := Allocate(n, at);
      CallsSnoc(calls, MallocCall(n, addr, at));
      AccountedFor(old(inUse), at, freed, calls, MallocCall(n, addr, at));
      calls := calls + [MallocCall(n, addr, at)];
    }

    method Find(ns: seq<Node>, a: Word) returns (i: nat)
      ensures i <= |ns| && (i < |ns| ==> ns[i].addr == a)
      ensures i == |ns| <==> a !in Addrs(ns)
    {
      i := 0;
      while i < |ns|
        invariant i <= |ns|
        invariant forall j :: 0 <= j < i ==> ns[j].addr != a
      {
        if ns[i].addr == a {
          assert Addrs(ns)[i] == a;
          return;
        }
        i := i + 1;
      }
    }

    /** Halts unless the address is zero or of a block in use; whether it was given up before decides
        what is reported. */
    method Free(a: Word, at: Pos) returns (r: Outcome)
      requires Valid()
      modifies this
      ensures r.Halted? <==> a != 0 && a !in old(Addrs(inUse))
      ensures !r.Halted? ==> Valid() && log == old(log) && calls == old(calls) + [FreeCall(a, at)]
      ensures !r.Halted? && a == 0 ==> inUse == old(inUse) && freed == old(freed)
      ensures !r.Halted? && a != 0 ==> exists i ::
                && 0 <= i < |old(inUse)| && old(inUse)[i].addr == a
                && freed == [old(inUse)[i].(givenUpAt := Some(at))] + old(freed)
                && inUse == Without(old(inUse), i)
      ensures r.Halted? ==>
                exists rep ::
                  && log == old(log) + [rep] && Explains(old(freed), a, at, rep)
                  && (rep.FreeingFreed? || rep.FreeingUnallocated?)
    {
      hide Store.Lists, Given, GivenUp, GivenUpAt, GoneAs, Bag, Tallied, Wrap, Without;
      ghost var c := FreeCall(a, at);
      ghost var t := Tallied(calls);
      WrapSum(t.frees, 1);
      WrapSum(t.nullFrees, 1);
      nFree := Wrap(nFree + 1);
      CallsSnoc(calls, c);
      if a == 0 {
        nFree0 := Wrap(nFree0 + 1);
        GoneBoth(freed, calls, calls + [c]);
        calls := calls + [c];
        return Returned(0);
      }
      var i := Find(inUse, a);
      if i < |inUse| {
        MovedFor(inUse, i, at, freed, calls, c);
        GiveUp(i, at);
        calls := calls + [c];
        return Returned(0);
      }
      var k := Find(freed, a);
      var rep := if k < |freed| then FreeingFreed(at, freed[k].givenUpAt) else FreeingUnallocated(at, a);
      assert Explains(freed, a, at, rep);
      log := log + [rep];
      return Halted;
    }

    /** A realloc of null is a malloc that is not counted as one. */
    method ReallocNull(n: Word, at: Pos) returns (addr: Word)
      requires Valid()
      modifies this
      ensures Valid() && log == old(log) && calls == old(calls) + [ReallocCall(0, n, addr, at)]
      ensures freed == old(freed) && inUse == Entered(addr, n, at, old(inUse))
    {
      hide Store.Lists, Given, GivenUp, GivenUpAt, GoneAs, Bag, Tallied, Wrap, Entered;
      ghost var t := Tallied(calls);
      WrapSum(t.reallocs, 1);
      WrapSum(t.nullReallocs, 1);
      WrapSum(t.given - t.failedNull, -1);
      WrapSum(t.given - t.failedNull - 1, 1);
      nRealloc := Wrap(nRealloc + 1);
      nRealloc0 := Wrap(nRealloc0 + 1);
      nMalloc := Wrap(nMalloc - 1);
      addr := Allocate(n, at);
      ghost var c := ReallocCall(0, n, addr, at);
      CallsSnoc(calls, c);
      AccountedFor(old(inUse), at, freed, calls, c);
      calls := calls + [c];
    }

    /** A realloc of a block in use gives it up first, so that it is in the freed list even when no new
        block can be had. */
    method Realloc(a: Word, n: Word, at: Pos) returns (r: Outcome)
      requires Valid()
      modifies this
      ensures r.Halted? <==> a != 0 && a !in old(Addrs(inUse))
      ensures r.Returned? ==> Valid() && log == old(log) && calls == old(calls) + [ReallocCall(a, n, r.addr, at)]
      ensures r.Returned? && a == 0 ==>
                freed == old(freed) && inUse == Entered(r.addr, n, at, old(inUse))
      ensures r.Returned? && a != 0 ==> exists i ::
                && 0 <= i < |old(inUse)| && old(inUse)[i].addr == a
                && freed == [old(inUse)[i].(givenUpAt := Some(at))] + old(freed)
                && inUse == Entered(r.addr, n, at, Without(old(inUse), i))
      ensures r.Halted? ==> exists rep ::
                && log == old(log) + [rep] && Explains(old(freed), a, at, rep)
                && (rep.ReallocingFreed? || rep.ReallocingUnallocated?)
    {
      hide Store.Lists, Given, GivenUp, GivenUpAt, GoneAs, Bag, Tallied, Wrap, Without, Entered;
      ghost var t := Tallied(calls);
      WrapSum(t.reallocs, 1);
      if a == 0 {
        var addr := ReallocNull(n, at);
        return Returned(addr);
      }
      nRealloc := Wrap(nRealloc + 1);
      hide Store.Accounted;
      assert Bag(inUse) + Bag(freed) == Given(calls) && GoneAs(freed, calls);
      var i := Find(inUse, a);
      if i < |inUse| {
        var addr := Replace(i, n, at);
        ghost var c := ReallocCall(a, n, addr, at);
        CallsSnoc(calls, c);
        ReallocAccounted(old(inUse), i, at, old(freed), calls, c, inUse, freed);
        calls := calls + [c];
        return Returned(addr);
      }
      var k := Find(freed, a);
      var rep := if k < |freed| then ReallocingFreed(at, freed[k].givenUpAt) else ReallocingUnallocated(at, a);
      assert Explains(freed, a, at, rep);
      log := log + [rep];
      return Halted;
    }

    /** Reports the blocks still in use; what they leave of the counters is zero. */
    method Close()
      requires Valid()
      modifies this`nBytesInUse, this`nBlocksInUse, this`log
      ensures nBytesInUse == 0 && nBlocksInUse == 0
      ensures log == old(log) + LeaksOf(inUse)
    {
      hide Distinct, BytesPeak, BlocksPeak, Bag, Given, GivenUp, GoneAs, Tallied;
      assert Wrap(0) == 0;
      hide Wrap;
      var i := 0;
      assert inUse[0..] == inUse && log == log + LeaksOf(inUse[..0]);
      while i < |inUse|
        invariant i <= |inUse|
        invariant nBytesInUse == Wrap(Sum(inUse[i..])) && nBlocksInUse == Wrap(|inUse| - i)
        invariant log == old(log) + LeaksOf(inUse[..i])
      {
        assert inUse[i..][1..] == inUse[i + 1..] && inUse[..i + 1] == inUse[..i] + [inUse[i]];
        WrapSum(Sum(inUse[i..]), 0 - inUse[i].size);
        WrapSum(|inUse| - i, -1);
        log := log + [Leak(inUse[i].madeAt, inUse[i].addr, inUse[i].size)];
        nBytesInUse, nBlocksInUse := Wrap(nBytesInUse - inUse[i].size), Wrap(nBlocksInUse - 1);
        i := i + 1;
      }
      assert inUse[..i] == inUse;
    }
  }

  function LeaksOf(ns: seq<Node>): seq<Report> {
    seq(|ns|, i requires 0 <= i < |ns| => Leak(ns[i].madeAt, ns[i].addr, ns[i].size))
  }

  /** A change that adds nothing keeps the peaks. */
  lemma LowerMoment(moments: seq<Moment>, m: Moment, bytes: Word, blocks: Word)
    requires moments != [] && m.bytes <= moments[|moments| - 1].bytes && m.blocks <= moments[|moments| - 1].blocks
    requires BytesPeak(moments, bytes) && BlocksPeak(moments, blocks)
    ensures BytesPeak(moments + [m], bytes) && BlocksPeak(moments + [m], blocks)
  {
    var ms := moments + [m];
    forall k | 0 <= k < |moments|
      ensures ms[k] == moments[k]
    {
    }
    assert ms[|moments|] == m;
  }

  /** Entering what an allocation has given keeps the account. */
  lemma AccountedFor(inUse: seq<Node>, at: Pos, freed: seq<Node>, calls: seq<Call>, c: Call)
    requires Bag(inUse) + Bag(freed) == Given(calls) && GoneAs(freed, calls)
    requires !c.FreeCall? && c.at == at && (c.ReallocCall? ==> c.addr == 0)
    ensures Given(calls + [c]) == Bag(Entered(c.result, c.size, at, inUse)) + Bag(freed)
    ensures GoneAs(freed, calls + [c])
  {
    hide Bag, Given, GivenUp, GivenUpAt;
    CallsSnoc(calls, c);
    PushSums(Node(c.result, c.size, at, None), inUse);
  }

  /** Moving a block that a call gives up keeps the account. */
  lemma MovedFor(inUse: seq<Node>, i: nat, at: Pos, freed: seq<Node>, calls: seq<Call>, c: Call)
    requires Bag(inUse) + Bag(freed) == Given(calls) && GoneAs(freed, calls)
    requires i < |inUse| && c == FreeCall(inUse[i].addr, at) && c.addr != 0
    ensures var n := inUse[i].(givenUpAt := Some(at));
            && Bag(Without(inUse, i)) + Bag([n] + freed) == Given(calls + [c])
            && GoneAs([n] + freed, calls + [c])
  {
    hide Bag, Given, Without, GoneAs;
    CallsSnoc(calls, c);
    WithoutBag(inUse, i);
    PushSums(inUse[i].(givenUpAt := Some(at)), freed);
    GoneMore(freed, calls, inUse[i], c);
  }

  lemma GoneMore(freed: seq<Node>, calls: seq<Call>, n: Node, c: Call)
    requires GoneAs(freed, calls) && !c.MallocCall? && c.addr == n.addr && c.addr != 0
    ensures GoneAs([n.(givenUpAt := Some(c.at))] + freed, calls + [c])
  {
    hide GivenUp, GivenUpAt;
    CallsSnoc(calls, c);
  }

  /** So does replacing it. */
  lemma ReallocAccounted(inUse: seq<Node>, i: nat, at: Pos, freed: seq<Node>, calls: seq<Call>, c: Call,
                         inUse': seq<Node>, freed': seq<Node>)
    requires Bag(inUse) + Bag(freed) == Given(calls) && GoneAs(freed, calls)
    requires i < |inUse| && c.ReallocCall? && c.at == at && c.addr == inUse[i].addr && c.addr != 0
    requires inUse' == Entered(c.result, c.size, at, Without(inUse, i))
    requires freed' == [inUse[i].(givenUpAt := Some(at))] + freed
    ensures Bag(inUse') + Bag(freed') == Given(calls + [c]) && GoneAs(freed', calls + [c])
  {
    var f, m := FreeCall(c.addr, at), MallocCall(c.size, c.result, at);
    hide Bag, Given, GivenUp, GivenUpAt, GoneAs, Without, Entered;
    MovedFor(inUse, i, at, freed, calls, f);
    AccountedFor(Without(inUse, i), at, freed', calls + [f], m);
    ReallocIsBoth(calls, c.addr, c.size, c.result, at);
    GoneBoth(freed', calls + [f] + [m], calls + [c]);
  }

  lemma GoneBoth(freed: seq<Node>, calls: seq<Call>, calls': seq<Call>)
    requires GoneAs(freed, calls) && GivenUp(calls') == GivenUp(calls) && GivenUpAt(calls') == GivenUpAt(calls)
    ensures GoneAs(freed, calls')
  {
  }

  /** To the lists a realloc is a free followed by a malloc. */
  lemma ReallocIsBoth(calls: seq<Call>, a: Word, n: Word, r: Word, at: Pos)
    requires a != 0
    ensures var both := calls + [FreeCall(a, at)] + [MallocCall(n, r, at)];
            && Given(calls + [ReallocCall(a, n, r, at)]) == Given(both)
            && GivenUp(calls + [ReallocCall(a, n, r, at)]) == GivenUp(both)
            && GivenUpAt(calls + [ReallocCall(a, n, r, at)]) == GivenUpAt(both)
  {
    CallsSnoc(calls, ReallocCall(a, n, r, at));
    CallsSnoc(calls, FreeCall(a, at));
    CallsSnoc(calls + [FreeCall(a, at)], MallocCall(n, r, at));
  }

  /** Closing reports, each once, the blocks that calls were given and none has given up, with the places of
      these calls. */
  lemma LeaksExact(inUse: seq<Node>, freed: seq<Node>, calls: seq<Call>)
    requires Distinct(Addrs(inUse) + Addrs(freed)) && Bag(inUse) + Bag(freed) == Given(calls) && GoneAs(freed, calls)
    ensures forall b: Block ::
              Leak(b.madeAt, b.addr, b.size) in LeaksOf(inUse) <==> b in Given(calls) && b.addr !in GivenUp(calls)
    ensures Distinct(Addrs(inUse))
  {
    hide Bag, Given, GivenUp, GoneAs, LeaksOf, Distinct;
    forall b: Block
      ensures Leak(b.madeAt, b.addr, b.size) in LeaksOf(inUse) <==> b in Given(calls) && b.addr !in GivenUp(calls)
    {
      InUseIff(inUse, freed, calls, b);
      LeakInBag(inUse, b);
    }
    FirstDistinct(Addrs(inUse), Addrs(freed));
  }

  lemma FirstDistinct(xs: seq<Word>, ys: seq<Word>)
    requires Distinct(xs + ys)
    ensures Distinct(xs)
  {
    assert forall i :: 0 <= i < |xs| ==> (xs + ys)[i] == xs[i];
  }

  lemma {:induction false} LeakInBag(ns: seq<Node>, b: Block)
    ensures Leak(b.madeAt, b.addr, b.size) in LeaksOf(ns) <==> b in Bag(ns)
  {
    if ns != [] {
      LeakInBag(ns[1..], b);
      assert LeaksOf(ns) == [Leak(ns[0].madeAt, ns[0].addr, ns[0].size)] + LeaksOf(ns[1..]);
    }
  }

  /** The place that a report of a second release names is one where a call gave the address up. */
  lemma EarlierExact(freed: seq<Node>, calls: seq<Call>, a: Word, at: Pos, rep: Report)
    requires GoneAs(freed, calls) && Explains(freed, a, at, rep)
    ensures rep.FreeingFreed? || rep.ReallocingFreed? ==>
              exists k :: 0 <= k < |GivenUp(calls)| && GivenUp(calls)[k] == a && GivenUpAt(calls)[k] == rep.earlier
    ensures rep.FreeingUnallocated? || rep.ReallocingUnallocated? ==> a !in GivenUp(calls)
  {
    if rep.FreeingFreed? || rep.ReallocingFreed? {
      var k :| 0 <= k < |freed| && freed[k].addr == a && freed[k].givenUpAt == rep.earlier;
      assert Addrs(freed)[k] == a && Gone(freed)[k] == rep.earlier;
    }
  }
}

/** The statistics kept in two-word counters, and when they are those of the exact counters. */
module CounterRuns {
  import opened Words
  import opened Ledger
  import opened History
  import opened Peaks
  import F = Findings
  import U = Uint64

  datatype Pair = Pair(space: U.TwoWord, count: U.TwoWord)

  datatype Counters = Counters(now: Pair, total: Pair, maxSpace: Pair, maxCount: Pair)

  /** What the uninitialised high words hold in the four additions of one update. */
  datatype Stale = Stale(nowSpace: Word, nowCount: Word, totalSpace: Word, totalCount: Word)

  function Zero(): Counters {
    var zero := Pair(U.FromUint(0), U.FromUint(0));
    Counters(zero, zero, zero, zero)
  }

  function Add(p: Pair, size: Word, sSpace: Word, sCount: Word): Pair {
    Pair(U.Inc(p.space, size, sSpace), U.Inc(p.count, 1, sCount))
  }

  function Up2(c: Counters, size: Word, g: Stale): Counters {
    var now := Add(c.now, size, g.nowSpace, g.nowCount);
    Counters(now,
             Add(c.total, size, g.totalSpace, g.totalCount),
             if U.Lt(c.maxSpace.space, now.space) then now else c.maxSpace,
             if U.Lt(c.maxCount.count, now.count) then now else c.maxCount)
  }

  /** `None` is the failed underflow assertion. */
  function Down2(c: Counters, size: Word, g: Stale): Option<Counters> {
    match (U.Dec(c.now.space, size, g.nowSpace), U.Dec(c.now.count, 1, g.nowCount))
    case (Some(space), Some(count)) => Some(c.(now := Pair(space, count)))
    case _ => None
  }

  function Apply2(c: Counters, op: Op, g: Stale): Option<Counters> {
    match op
    case Up(n) => Some(Up2(c, n, g))
    case Down(n) => Down2(c, n, g)
  }

  function ApplyAll2(ops: seq<Op>, gs: seq<Stale>): Option<Counters>
    requires |gs| == |ops|
  {
    if ops == [] then Some(Zero())
    else
      var n := |ops| - 1;
      match ApplyAll2(ops[..n], gs[..n])
      case Some(c) => Apply2(c, ops[n], gs[n])
      case None => None
  }

  ghost predicate SamePair(p: Pair, s: Stat) {
    U.Value(p.space) == s.space && U.Value(p.count) == s.count
  }

  ghost predicate Same(c: Counters, s: Stats) {
    && SamePair(c.now, s.now) && SamePair(c.total, s.total)
    && SamePair(c.maxSpace, s.maxSpace) && SamePair(c.maxCount, s.maxCount)
  }

  /** Everything fits in one word. */
  ghost predicate Fits(s: Stats) {
    && 0 <= s.now.space <= s.maxSpace.space <= s.total.space < WORD
    && 0 <= s.now.count <= s.maxCount.count <= s.total.count < WORD
    && 0 <= s.maxSpace.count < WORD && 0 <= s.maxCount.space < WORD
  }

  /** Nothing is taken that is not there. */
  ghost predicate Covered(s: Stats, op: Op) {
    op.Down? ==> op.size <= s.now.space && 1 <= s.now.count
  }

  lemma {:induction false} OneOp(c: Counters, s: Stats, op: Op, g: Stale)
    requires Same(c, s) && Fits(s) && Covered(s, op)
    requires Apply(s, op).total.space < WORD && Apply(s, op).total.count < WORD
    ensures Apply2(c, op, g).Some? && Same(Apply2(c, op, g).value, Apply(s, op)) && Fits(Apply(s, op))
  {
    OneWord(c.now, s.now);
    OneWord(c.total, s.total);
    OneWord(c.maxSpace, s.maxSpace);
    OneWord(c.maxCount, s.maxCount);
  }

  /** A value below 2^32 has no high word. */
  lemma OneWord(p: Pair, s: Stat)
    requires SamePair(p, s) && s.space < WORD && s.count < WORD
    ensures p.space.hi == 0 && p.space.lo == s.space && p.count.hi == 0 && p.count.lo == s.count
  {
  }

  /** Every prefix of the operations takes only what is there. */
  ghost predicate Balanced(ops: seq<Op>) {
    forall k :: 0 <= k < |ops| ==> Covered(ApplyAll(NO_STATS, ops[..k]), ops[k])
  }

  lemma BalancedPrefix(ops: seq<Op>)
    requires ops != [] && Balanced(ops)
    ensures Balanced(ops[..|ops| - 1])
    ensures Covered(ApplyAll(NO_STATS, ops[..|ops| - 1]), ops[|ops| - 1])
  {
    var n := |ops| - 1;
    forall k | 0 <= k < n
      ensures Covered(ApplyAll(NO_STATS, ops[..n][..k]), ops[..n][k])
    {
      assert ops[..n][..k] == ops[..k];
    }
  }

  lemma {:induction false} TotalsGrow(ops: seq<Op>, k: nat)
    requires k <= |ops|
    ensures ApplyAll(NO_STATS, ops[..k]).total.space <= ApplyAll(NO_STATS, ops).total.space
    ensures ApplyAll(NO_STATS, ops[..k]).total.count <= ApplyAll(NO_STATS, ops).total.count
    decreases |ops|
  {
    if k == |ops| {
      assert ops[..k] == ops;
    } else {
      TotalsGrow(ops[..|ops| - 1], k);
      assert ops[..|ops| - 1][..k] == ops[..k];
    }
  }

  /** While the totals stay below 2^32 the two-word counters are exact, whatever the
      uninitialised words hold. */
  lemma {:induction false} TwoWordsExact(ops: seq<Op>, gs: seq<Stale>)
    requires |gs| == |ops| && Balanced(ops)
    requires ApplyAll(NO_STATS, ops).total.space < WORD && ApplyAll(NO_STATS, ops).total.count < WORD
    ensures ApplyAll2(ops, gs).Some? && Same(ApplyAll2(ops, gs).value, ApplyAll(NO_STATS, ops))
    ensures Fits(ApplyAll(NO_STATS, ops))
  {
    if ops != [] {
      var n := |ops| - 1;
      BalancedPrefix(ops);
      TotalsGrow(ops, n);
      TwoWordsExact(ops[..n], gs[..n]);
      OneOp(ApplyAll2(ops[..n], gs[..n]).value, ApplyAll(NO_STATS, ops[..n]), ops[n], gs[n]);
    }
  }

  // ---- operations of a run ----------------------------------------------

  lemma {:induction false} SizeInSpace(es: seq<Entry>, e: Entry)
    requires e in es
    ensures e.size <= Space(es)
  {
    if e != es[0] {
      SizeInSpace(es[1..], e);
    }
  }

  /** If results are fresh the objects on record cover what is taken. */
  lemma {:induction false} RunBalanced(f: Flags, h: seq<Event>)
    requires f.stats && FreshResults(f, h) && Replay(f, h).Done?
    ensures Balanced(Ops(f, h))
  {
    if h != [] {
      var before, e := h[..|h| - 1], h[|h| - 1];
      var b := Replay(f, before).books;
      RunBalanced(f, before);
      ReplayFaithful(f, before);
      StatsAreOps(f, before);
      CallCovered(f, before, b, e);
      hide Balanced, Covered, OpsOf, Faithful, FreshResults, Replay, ApplyAll;
      BalancedConcat(Ops(f, before), OpsOf(f, before, e));
    }
  }

  lemma BalancedConcat(xs: seq<Op>, ys: seq<Op>)
    requires Balanced(xs) && |ys| <= 2
    requires ys != [] ==> Covered(ApplyAll(NO_STATS, xs), ys[0])
    requires |ys| == 2 ==> ys[1].Up?
    ensures Balanced(xs + ys)
  {
    hide ApplyAll, Covered;
    forall k | 0 <= k < |xs + ys|
      ensures Covered(ApplyAll(NO_STATS, (xs + ys)[..k]), (xs + ys)[k])
    {
      if k < |xs| {
        CoveredBefore(xs, ys, k);
      } else {
        CoveredBehind(xs, ys, k);
      }
    }
  }

  lemma CoveredBefore(xs: seq<Op>, ys: seq<Op>, k: nat)
    requires Balanced(xs) && k < |xs|
    ensures Covered(ApplyAll(NO_STATS, (xs + ys)[..k]), (xs + ys)[k])
  {
    hide ApplyAll, Covered;
    assert (xs + ys)[..k] == xs[..k] && (xs + ys)[k] == xs[k];
  }

  lemma CoveredBehind(xs: seq<Op>, ys: seq<Op>, k: nat)
    requires |xs| <= k < |xs| + |ys| <= |xs| + 2
    requires ys != [] ==> Covered(ApplyAll(NO_STATS, xs), ys[0])
    requires |ys| == 2 ==> ys[1].Up?
    ensures Covered(ApplyAll(NO_STATS, (xs + ys)[..k]), (xs + ys)[k])
  {
    hide ApplyAll, Covered;
    assert (xs + ys)[k] == ys[k - |xs|];
    if k == |xs| {
      assert (xs + ys)[..k] == xs;
    } else {
      UpCovered(ApplyAll(NO_STATS, (xs + ys)[..k]), (xs + ys)[k]);
    }
  }

  lemma UpCovered(s: Stats, o: Op)
    requires o.Up?
    ensures Covered(s, o)
  {
  }

  lemma CallCovered(f: Flags, h: seq<Event>, b: Books, e: Event)
    requires f.stats && Faithful(f, h, b)
    ensures OpsOf(f, h, e) != [] ==> Covered(b.stats, OpsOf(f, h, e)[0])
    ensures |OpsOf(f, h, e)| <= 2
    ensures |OpsOf(f, h, e)| == 2 ==> OpsOf(f, h, e)[1].Up?
  {
    if e.ConsumerCall? || e.ReallocCall? {
      var a := e.addr;
      assert Listed(b.elems, a) == Recorded(f, h, a);
      var i := Find(b.elems, a);
      if i < |b.elems| && b.elems[i].consumer.None? {
        LiveCovered(b, i);
      }
    }
    hide Faithful, Recorded, Unrecorded, Live, Find, Covered;
  }

  /** Every live object is in the current totals. */
  lemma LiveCovered(b: Books, i: nat)
    requires i < |b.elems| && b.elems[i].consumer.None?
    requires b.stats.now == Stat(Space(Live(b.elems)), |Live(b.elems)|)
    ensures Covered(b.stats, Down(b.elems[i].size))
  {
    F.LiveMembers(b.elems);
    SizeInSpace(Live(b.elems), b.elems[i]);
  }

  /** Every run with fresh results whose totals stay below 2^32 ends with the exact statistics in
      the two-word counters. */
  lemma RunCounters(f: Flags, h: seq<Event>, gs: seq<Stale>)
    requires f.stats && FreshResults(f, h) && Replay(f, h).Done?
    requires |gs| == |Ops(f, h)|
    requires Replay(f, h).books.stats.total.space < WORD && Replay(f, h).books.stats.total.count < WORD
    ensures ApplyAll2(Ops(f, h), gs).Some?
    ensures Same(ApplyAll2(Ops(f, h), gs).value, Replay(f, h).books.stats)
  {
    StatsAreOps(f, h);
    RunBalanced(f, h);
    TwoWordsExact(Ops(f, h), gs);
  }

  // ---- the native 64-bit counter ----------------------------------------

  const LONG_LONG: int := 0x1_0000_0000_0000_0000

  function Long(s: Stat): Stat {
    Stat(s.space % LONG_LONG, s.count % LONG_LONG)
  }

  /** The same update on `unsigned long long` counters. */
  function ApplyLong(s: Stats, op: Op): Stats {
    match op
    case Up(n) =>
      var now := Long(Stat(s.now.space + n, s.now.count + 1));
      Stats(now, Long(Stat(s.total.space + n, s.total.count + 1)),
            if s.maxSpace.space < now.space then now else s.maxSpace,
            if s.maxCount.count < now.count then now else s.maxCount)
    case Down(n) => s.(now := Long(Stat(s.now.space - n, s.now.count - 1)))
  }

  function ApplyAllLong(ops: seq<Op>): Stats {
    if ops == [] then NO_STATS else ApplyLong(ApplyAllLong(ops[..|ops| - 1]), ops[|ops| - 1])
  }

  /** While the totals fit in a word both implementations of the counters show the same statistics. */
  lemma {:induction false} LongLongAgrees(ops: seq<Op>, gs: seq<Stale>)
    requires |gs| == |ops| && Balanced(ops)
    requires ApplyAll(NO_STATS, ops).total.space < WORD && ApplyAll(NO_STATS, ops).total.count < WORD
    ensures ApplyAllLong(ops) == ApplyAll(NO_STATS, ops)
    ensures ApplyAll2(ops, gs).Some? && Same(ApplyAll2(ops, gs).value, ApplyAllLong(ops))
  {
    TwoWordsExact(ops, gs);
    if ops != [] {
      var n := |ops| - 1;
      BalancedPrefix(ops);
      TotalsGrow(ops, n);
      TwoWordsExact(ops[..n], gs[..n]);
      LongLongAgrees(ops[..n], gs[..n]);
      LongOp(ApplyAll(NO_STATS, ops[..n]), ops[n]);
    }
  }

  lemma LongOp(s: Stats, op: Op)
    requires Fits(s) && Covered(s, op) && Apply(s, op).total.space < WORD && Apply(s, op).total.count < WORD
    ensures ApplyLong(s, op) == Apply(s, op)
  {
  }
}

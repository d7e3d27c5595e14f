/** The statistics over whole runs: the current totals, the peaks and the first moment they were
    reached, and the statistics as sums over the calls of the history. */
module Peaks {
  import opened Words
  import opened Ledger
  import opened History
  import Findings

  // ---- first peaks ------------------------------------------------------

  /** The current totals at the moments 0..|h| of a run. */
  ghost function Moments(f: Flags, h: seq<Event>): (t: seq<Stat>)
    requires Replay(f, h).Done?
    ensures |t| == |h| + 1 && t[|h|] == Replay(f, h).books.stats.now
  {
    if h == [] then [Stat(0, 0)] else Moments(f, h[..|h| - 1]) + [Replay(f, h).books.stats.now]
  }

  /** Moment `k` is the state of the counters after the first `k` calls. */
  lemma {:induction false} MomentIs(f: Flags, h: seq<Event>, k: nat)
    requires Replay(f, h).Done? && k <= |h|
    ensures Replay(f, h[..k]).Done? && Moments(f, h)[k] == Replay(f, h[..k]).books.stats.now
    decreases |h|
  {
    if k == |h| {
      assert h[..k] == h;
    } else {
      MomentIs(f, h[..|h| - 1], k);
      assert h[..|h| - 1][..k] == h[..k];
    }
  }

  /** `s` is the pair at moment `k`, the first at which the space peaked. */
  ghost predicate SpacePeakAt(t: seq<Stat>, k: nat, s: Stat) {
    && k < |t| && s == t[k]
    && (forall j | 0 <= j < |t| :: t[j].space <= s.space)
    && (forall j | 0 <= j < k :: t[j].space < s.space)
  }

  ghost predicate CountPeakAt(t: seq<Stat>, k: nat, s: Stat) {
    && k < |t| && s == t[k]
    && (forall j | 0 <= j < |t| :: t[j].count <= s.count)
    && (forall j | 0 <= j < k :: t[j].count < s.count)
  }

  /** How one call may change the statistics. */
  ghost predicate StatsMove(s: Stats, s': Stats) {
    || s' == s
    || (exists n: Word :: s' == Produced(s, n))
    || (exists n: Word :: s' == Released(s, n))
    || (exists n: Word, m: Word :: s' == Produced(Released(s, m), n))
  }

  lemma StepMoves(f: Flags, b: Books, e: Event)
    requires Step(f, b, e).Done?
    ensures StatsMove(b.stats, Step(f, b, e).books.stats)
  {
    hide Find, Live, Objects, Produced, Released;
    match e {
      case ReallocCall(a, size, r) =>
        var i := Find(b.elems, a);
        if a != 0 && i < |b.elems| {
          ReallocMoves(f, b, i, a, size, r);
        }
      case _ =>
    }
  }

  lemma ReallocMoves(f: Flags, b: Books, i: nat, a: Word, size: Word, r: Word)
    requires a != 0 && i == Find(b.elems, a) < |b.elems| && ReallocStep(f, b, a, size, r).Done?
    ensures ReallocStep(f, b, a, size, r).books.stats ==
            (if f.stats then Produced(Released(b.stats, b.elems[i].size), size) else b.stats)
  {
    hide Find, Live, Objects, Produced, Released;
  }

  /** Both maxima are the pair at the first moment their dimension peaked. */
  lemma {:induction false} FirstPeaks(f: Flags, h: seq<Event>) returns (kS: nat, kC: nat)
    requires Replay(f, h).Done?
    ensures SpacePeakAt(Moments(f, h), kS, Replay(f, h).books.stats.maxSpace)
    ensures CountPeakAt(Moments(f, h), kC, Replay(f, h).books.stats.maxCount)
  {
    if h == [] {
      kS, kC := 0, 0;
    } else {
      var before := h[..|h| - 1];
      kS, kC := FirstPeaks(f, before);
      var s, s' := Replay(f, before).books.stats, Replay(f, h).books.stats;
      StepMoves(f, Replay(f, before).books, h[|h| - 1]);
      MaximaFollow(s, s');
      kS, kC := NextPeaks(Moments(f, before), kS, kC, s, s');
    }
  }

  lemma NextPeaks(t: seq<Stat>, kS: nat, kC: nat, s: Stats, s': Stats) returns (kS': nat, kC': nat)
    requires SpacePeakAt(t, kS, s.maxSpace) && CountPeakAt(t, kC, s.maxCount)
    requires s'.now.space <= s'.maxSpace.space && s'.now.count <= s'.maxCount.count
    requires s'.maxSpace == s.maxSpace || (s'.maxSpace == s'.now && s.maxSpace.space < s'.now.space)
    requires s'.maxCount == s.maxCount || (s'.maxCount == s'.now && s.maxCount.count < s'.now.count)
    ensures SpacePeakAt(t + [s'.now], kS', s'.maxSpace)
    ensures CountPeakAt(t + [s'.now], kC', s'.maxCount)
  {
    kS' := if s'.maxSpace == s.maxSpace then kS else |t|;
    kC' := if s'.maxCount == s.maxCount then kC else |t|;
  }

  /** One move of the statistics: a maximum changes only to the current pair, and only upwards. */
  lemma MaximaFollow(s: Stats, s': Stats)
    requires StatsMove(s, s') && s.now.space <= s.maxSpace.space && s.now.count <= s.maxCount.count
    ensures s'.now.space <= s'.maxSpace.space && s'.now.count <= s'.maxCount.count
    ensures s'.maxSpace == s.maxSpace || (s'.maxSpace == s'.now && s.maxSpace.space < s'.now.space)
    ensures s'.maxCount == s.maxCount || (s'.maxCount == s'.now && s.maxCount.count < s'.now.count)
  {
  }

  /** In each dimension total >= max >= now. */
  lemma {:induction false} StatsOrdered(f: Flags, h: seq<Event>)
    requires Replay(f, h).Done?
    ensures var s := Replay(f, h).books.stats;
            && s.total.space >= s.maxSpace.space >= s.now.space
            && s.total.count >= s.maxCount.count >= s.now.count
  {
    if h != [] {
      StatsOrdered(f, h[..|h| - 1]);
      var b := Replay(f, h[..|h| - 1]).books;
      StepMoves(f, b, h[|h| - 1]);
    }
  }

  /** Over every run with fresh results, with statistics on: the current totals are those of the live
      objects on record, whose number is also the list's own count. */
  lemma NowIsLive(f: Flags, h: seq<Event>)
    requires f.stats && FreshResults(f, h) && Replay(f, h).Done?
    ensures var b := Replay(f, h).books;
            && b.stats.now.space == Space(Live(b.elems))
            && b.stats.now.count == b.active == |Live(b.elems)|
  {
    ReplayFaithful(f, h);
  }

  // ---- statistics as operations on counters -----------------------------

  /** One change of the counters: an object comes or goes. */
  datatype Op = Up(size: Word) | Down(size: Word)

  function Apply(s: Stats, op: Op): Stats {
    match op
    case Up(n) => Produced(s, n)
    case Down(n) => Released(s, n)
  }

  function ApplyAll(s: Stats, ops: seq<Op>): Stats {
    if ops == [] then s else Apply(ApplyAll(s, ops[..|ops| - 1]), ops[|ops| - 1])
  }

  /** What a call does to the counters, from the statuses of its addresses. */
  function OpsOf(f: Flags, before: seq<Event>, e: Event): seq<Op> {
    match e
    case MallocCall(size, r) => if r == 0 then [] else [Up(size)]
    case CallocCall(n, size, r) => if r == 0 then [] else [Up(Wrap(n * size))]
    case ConsumerCall(_, a) => DownOf(Recorded(f, before, a))
    case ReallocCall(a, size, r) =>
      if Unrecorded(f, before, a) then [] else DownOf(Recorded(f, before, a)) + [Up(size)]
    case UsageCall => []
  }

  function DownOf(s: Status): seq<Op> {
    if s.Alive? then [Down(s.size)] else []
  }

  function Ops(f: Flags, h: seq<Event>): seq<Op> {
    if h == [] then [] else Ops(f, h[..|h| - 1]) + OpsOf(f, h[..|h| - 1], h[|h| - 1])
  }

  lemma {:induction false} ApplyConcat(s: Stats, xs: seq<Op>, ys: seq<Op>)
    ensures ApplyAll(s, xs + ys) == ApplyAll(ApplyAll(s, xs), ys)
  {
    if ys == [] {
      assert xs + ys == xs;
    } else {
      assert (xs + ys)[..|xs + ys| - 1] == xs + ys[..|ys| - 1];
      ApplyConcat(s, xs, ys[..|ys| - 1]);
    }
  }

  /** The statistics of a run are those of the comings and goings of its objects. */
  lemma {:induction false} StatsAreOps(f: Flags, h: seq<Event>)
    requires f.stats && FreshResults(f, h) && Replay(f, h).Done?
    ensures Replay(f, h).books.stats == ApplyAll(NO_STATS, Ops(f, h))
  {
    if h != [] {
      var before, e := h[..|h| - 1], h[|h| - 1];
      var b := Replay(f, before).books;
      StatsAreOps(f, before);
      ReplayFaithful(f, before);
      StepOps(f, before, b, e);
      ApplyConcat(NO_STATS, Ops(f, before), OpsOf(f, before, e));
    }
  }

  lemma StepOps(f: Flags, h: seq<Event>, b: Books, e: Event)
    requires f.stats && Faithful(f, h, b) && FreshResult(f, h, e) && Step(f, b, e).Done?
    ensures Step(f, b, e).books.stats == ApplyAll(b.stats, OpsOf(f, h, e))
  {
    hide Live, Objects, Produced, Released;
    ZeroUnknown(f, h);
    ApplyFew(b.stats);
    match e {
      case ConsumerCall(_, a) =>
        assert Listed(b.elems, a) == Recorded(f, h, a);
      case ReallocCall(a, size, r) =>
        ReallocOps(f, h, b, a, size, r);
      case _ =>
    }
  }

  lemma ReallocOps(f: Flags, h: seq<Event>, b: Books, a: Word, size: Word, r: Word)
    requires f.stats && Faithful(f, h, b) && FreshResult(f, h, ReallocCall(a, size, r))
    requires ReallocStep(f, b, a, size, r).Done?
    ensures ReallocStep(f, b, a, size, r).books.stats == ApplyAll(b.stats, OpsOf(f, h, ReallocCall(a, size, r)))
  {
    hide Live, Objects, Produced, Released, ReallocStep;
    ZeroUnknown(f, h);
    ApplyFew(b.stats);
    assert Listed(b.elems, a) == Recorded(f, h, a);
    UnlistedMoves(f, b, a, size, r);
    var i := Find(b.elems, a);
    if a != 0 && i < |b.elems| {
      ReallocMoves(f, b, i, a, size, r);
    }
  }

  lemma UnlistedMoves(f: Flags, b: Books, a: Word, size: Word, r: Word)
    requires ReallocStep(f, b, a, size, r).Done?
    ensures a != 0 && Find(b.elems, a) < |b.elems| ==> b.elems[Find(b.elems, a)].consumer.None?
    ensures a == 0 || Find(b.elems, a) == |b.elems| ==>
              ReallocStep(f, b, a, size, r).books.stats ==
              (if f.stats && (a == 0 || !f.free) then Produced(b.stats, size) else b.stats)
  {
    hide Live, Objects, Produced, Released;
  }

  lemma ApplyFew(s: Stats)
    ensures ApplyAll(s, []) == s
    ensures forall x :: ApplyAll(s, [x]) == Apply(s, x)
    ensures forall x, y :: ApplyAll(s, [x] + [y]) == Apply(Apply(s, x), y)
  {
    forall x, y
      ensures ApplyAll(s, [x] + [y]) == Apply(Apply(s, x), y)
    {
      assert ([x] + [y])[..1] == [x];
      assert ApplyAll(s, [x]) == Apply(s, x);
    }
  }

  // ---- all that ever came -----------------------------------------------

  function Plus(x: Stat, y: Stat): Stat {
    Stat(x.space + y.space, x.count + y.count)
  }

  /** The object a call puts on record, counted. */
  function Brought(f: Flags, before: seq<Event>, e: Event): Stat {
    match e
    case MallocCall(size, r) => if r == 0 then Stat(0, 0) else Stat(size, 1)
    case CallocCall(n, size, r) => if r == 0 then Stat(0, 0) else Stat(Wrap(n * size), 1)
    case ReallocCall(a, size, r) => if r == 0 || Unrecorded(f, before, a) then Stat(0, 0) else Stat(size, 1)
    case _ => Stat(0, 0)
  }

  /** The bytes and the number of all objects ever put on record. */
  function AllBrought(f: Flags, h: seq<Event>): Stat {
    if h == [] then Stat(0, 0) else Plus(AllBrought(f, h[..|h| - 1]), Brought(f, h[..|h| - 1], h[|h| - 1]))
  }

  /** The totals are the bytes and the number of all objects that came. */
  lemma {:induction false} TotalIs(f: Flags, h: seq<Event>)
    requires f.stats && FreshResults(f, h) && Replay(f, h).Done?
    ensures Replay(f, h).books.stats.total == AllBrought(f, h)
  {
    if h != [] {
      var before, e := h[..|h| - 1], h[|h| - 1];
      var b := Replay(f, before).books;
      TotalIs(f, before);
      ReplayFaithful(f, before);
      StepTotal(f, before, b, e);
    }
  }

  lemma StepTotal(f: Flags, h: seq<Event>, b: Books, e: Event)
    requires f.stats && Faithful(f, h, b) && FreshResult(f, h, e) && Step(f, b, e).Done?
    ensures Step(f, b, e).books.stats.total == Plus(b.stats.total, Brought(f, h, e))
  {
    hide Step, Faithful, FreshResult, Recorded, Unrecorded;
    StepOps(f, h, b, e);
    OpsTotal(f, h, b, e);
    FewTotal(b.stats, OpsOf(f, h, e));
  }

  function Ups(ops: seq<Op>): Stat {
    if ops == [] then Stat(0, 0)
    else Plus(Ups(ops[..|ops| - 1]), if ops[|ops| - 1].Up? then Stat(ops[|ops| - 1].size, 1) else Stat(0, 0))
  }

  lemma {:induction false} FewTotal(s: Stats, ops: seq<Op>)
    ensures ApplyAll(s, ops).total == Plus(s.total, Ups(ops))
  {
    if ops != [] {
      FewTotal(s, ops[..|ops| - 1]);
    }
  }

  lemma OpsTotal(f: Flags, h: seq<Event>, b: Books, e: Event)
    requires Faithful(f, h, b) && FreshResult(f, h, e) && Step(f, b, e).Done?
    ensures Ups(OpsOf(f, h, e)) == Brought(f, h, e)
  {
    hide Recorded, Step, Faithful, Ups, FreshResult;
    NoUps();
    match e {
      case MallocCall(size, r) => OneUp(size);
      case CallocCall(n, size, r) => OneUp(Wrap(n * size));
      case ConsumerCall(_, a) => OneDown(DownOf(Recorded(f, h, a)));
      case ReallocCall(a, size, r) =>
        ReallocReturns(f, h, b, e);
        DownAndUp(DownOf(Recorded(f, h, a)), size);
      case UsageCall =>
    }
  }

  lemma NoUps()
    ensures Ups([]) == Stat(0, 0)
  {
  }

  lemma OneUp(n: Word)
    ensures Ups([Up(n)]) == Stat(n, 1)
  {
    assert [Up(n)][..0] == [];
  }

  lemma OneDown(ops: seq<Op>)
    requires |ops| <= 1 && forall i :: 0 <= i < |ops| ==> ops[i].Down?
    ensures Ups(ops) == Stat(0, 0)
  {
    if ops != [] {
      assert ops[..0] == [];
    }
  }

  lemma DownAndUp(ops: seq<Op>, n: Word)
    requires |ops| <= 1 && forall i :: 0 <= i < |ops| ==> ops[i].Down?
    ensures Ups(ops + [Up(n)]) == Stat(n, 1)
  {
    assert (ops + [Up(n)])[..|ops|] == ops;
    OneDown(ops);
  }

  /** A completed realloc whose result is to be recorded has one. */
  lemma ReallocReturns(f: Flags, h: seq<Event>, b: Books, e: Event)
    requires Faithful(f, h, b) && FreshResult(f, h, e) && Step(f, b, e).Done? && e.ReallocCall?
    ensures e.result != 0 || Unrecorded(f, h, e.addr)
  {
    Findings.StopsIff(f, h, b, e);
  }

  // ---- what is there ----------------------------------------------------

  /** The object a call takes off the record, counted. */
  function Taken(f: Flags, before: seq<Event>, e: Event): Stat {
    match e
    case ConsumerCall(_, a) => Counted(Recorded(f, before, a))
    case ReallocCall(a, _, r) => if r == 0 then Stat(0, 0) else Counted(Recorded(f, before, a))
    case _ => Stat(0, 0)
  }

  function Counted(s: Status): Stat {
    if s.Alive? then Stat(s.size, 1) else Stat(0, 0)
  }

  /** The bytes and the number of the objects that have come and not gone. */
  function Current(f: Flags, h: seq<Event>): Stat {
    if h == [] then Stat(0, 0)
    else
      var before, e := h[..|h| - 1], h[|h| - 1];
      var now, came, went := Current(f, before), Brought(f, before, e), Taken(f, before, e);
      Stat(now.space + came.space - went.space, now.count + came.count - went.count)
  }

  lemma {:induction false} NowIs(f: Flags, h: seq<Event>)
    requires f.stats && FreshResults(f, h) && Replay(f, h).Done?
    ensures Replay(f, h).books.stats.now == Current(f, h)
  {
    if h != [] {
      var before, e := h[..|h| - 1], h[|h| - 1];
      var b := Replay(f, before).books;
      NowIs(f, before);
      ReplayFaithful(f, before);
      StepOps(f, before, b, e);
      OpsNow(f, before, b, e);
    }
  }

  lemma OpsNow(f: Flags, h: seq<Event>, b: Books, e: Event)
    requires Faithful(f, h, b) && FreshResult(f, h, e) && Step(f, b, e).Done?
    ensures var now, came, went := ApplyAll(b.stats, OpsOf(f, h, e)).now, Brought(f, h, e), Taken(f, h, e);
            now == Stat(b.stats.now.space + came.space - went.space, b.stats.now.count + came.count - went.count)
  {
    hide Recorded, Step, Faithful, FreshResult, ApplyAll;
    match e {
      case MallocCall(size, r) => NowAfter(b.stats, Unknown, size, r != 0);
      case CallocCall(n, size, r) => NowAfter(b.stats, Unknown, Wrap(n * size), r != 0);
      case ConsumerCall(_, a) => NowAfter(b.stats, Recorded(f, h, a), 0, false);
      case ReallocCall(a, size, r) =>
        ReallocReturns(f, h, b, e);
        NowAfter(b.stats, Recorded(f, h, a), size, true);
        NowAfter(b.stats, Unknown, size, false);
      case UsageCall => NowAfter(b.stats, Unknown, 0, false);
    }
  }

  /** One object gone, if it was there, and perhaps one come. */
  lemma NowAfter(s: Stats, gone: Status, n: Word, comes: bool)
    ensures ApplyAll(s, DownOf(gone) + if comes then [Up(n)] else []).now ==
            Stat(s.now.space + (if comes then n else 0) - Counted(gone).space,
                 s.now.count + (if comes then 1 else 0) - Counted(gone).count)
    ensures DownOf(gone) + [] == DownOf(gone) && [] + [Up(n)] == [Up(n)]
  {
    hide ApplyAll;
    var ops := DownOf(gone);
    assert ops + [] == ops && [] + [Up(n)] == [Up(n)];
    ApplyFew(s);
  }

  /** The final statistics: what is there, all that came, and the pair of both at the first moment that each
      of them was greatest. */
  ghost predicate Statistical(f: Flags, h: seq<Event>, s: Stats) {
    && s.now == Current(f, h) && s.total == AllBrought(f, h)
    && (exists k :: SpaceFirst(f, h, k, s.maxSpace))
    && (exists k :: CountFirst(f, h, k, s.maxCount))
  }

  ghost predicate SpaceFirst(f: Flags, h: seq<Event>, k: nat, s: Stat) {
    && k <= |h| && s == Current(f, h[..k])
    && (forall j :: 0 <= j <= |h| ==> Current(f, h[..j]).space <= s.space)
    && (forall j :: 0 <= j < k ==> Current(f, h[..j]).space < s.space)
  }

  ghost predicate CountFirst(f: Flags, h: seq<Event>, k: nat, s: Stat) {
    && k <= |h| && s == Current(f, h[..k])
    && (forall j :: 0 <= j <= |h| ==> Current(f, h[..j]).count <= s.count)
    && (forall j :: 0 <= j < k ==> Current(f, h[..j]).count < s.count)
  }

  lemma StatisticsAre(f: Flags, h: seq<Event>)
    requires f.stats && FreshResults(f, h) && Replay(f, h).Done?
    ensures Statistical(f, h, Replay(f, h).books.stats)
  {
    hide Replay, FreshResults, Current, AllBrought, Moments;
    NowIs(f, h);
    TotalIs(f, h);
    var s := Replay(f, h).books.stats;
    var kS, kC := FirstPeaks(f, h);
    forall k | 0 <= k <= |h|
      ensures Moments(f, h)[k] == Current(f, h[..k])
    {
      MomentIs(f, h, k);
      FreshPrefix(f, h, k);
      NowIs(f, h[..k]);
    }
    assert SpaceFirst(f, h, kS, s.maxSpace) && CountFirst(f, h, kC, s.maxCount);
  }

  lemma {:induction false} FreshPrefix(f: Flags, h: seq<Event>, k: nat)
    requires FreshResults(f, h) && k <= |h|
    ensures FreshResults(f, h[..k])
    decreases |h|
  {
    if k < |h| {
      FreshPrefix(f, h[..|h| - 1], k);
      assert h[..|h| - 1][..k] == h[..k];
    } else {
      assert h[..k] == h;
    }
  }
}

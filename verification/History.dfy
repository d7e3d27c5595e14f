/** What the books record of every address, in terms of the history of calls alone, and proofs that
    every replay of a history keeps to it.  Module Truth compares that with what the target has. */
module History {
  import opened Words
  import opened Ledger

  /** What there is at an address, or was. */
  datatype Status = Unknown | Alive(size: Word, producer: Action) | Gone(size: Word, consumer: Action)

  /** A freed object is forgotten when memory is really freed and remembered otherwise. */
  function AfterFree(f: Flags, size: Word, who: Action): Status {
    if f.free then Unknown else Gone(size, who)
  }

  /** What the tracker has on record, last event first: produced, consumed, or as it was before. */
  function Recorded(f: Flags, h: seq<Event>, a: Word): Status
    decreases |h|, 0
  {
    if h == [] then Unknown else RecordedAfter(f, h[..|h| - 1], h[|h| - 1], a)
  }

  function RecordedAfter(f: Flags, before: seq<Event>, e: Event, a: Word): Status
    decreases |before|, 2
  {
    match e
    case MallocCall(size, r) => if r == a && a != 0 then Alive(size, Malloc) else Recorded(f, before, a)
    case CallocCall(n, size, r) => if r == a && a != 0 then Alive(Wrap(n * size), Calloc) else Recorded(f, before, a)
    case ConsumerCall(who, x) =>
      if x == a && Recorded(f, before, a).Alive? then AfterFree(f, Recorded(f, before, a).size, who)
      else Recorded(f, before, a)
    case ReallocCall(x, size, r) =>
      if r == a && a != 0 && !Unrecorded(f, before, x) then Alive(size, Realloc)
      else if x == a && r != 0 && Recorded(f, before, a).Alive? then AfterFree(f, Recorded(f, before, a).size, Realloc)
      else Recorded(f, before, a)
    case UsageCall => Recorded(f, before, a)
  }

  lemma RecordedSnoc(f: Flags, h: seq<Event>, e: Event)
    ensures forall a :: Recorded(f, h + [e], a) == RecordedAfter(f, h, e, a)
  {
    assert (h + [e])[..|h|] == h;
  }

  /** Under real freeing the result of reallocating an unknown address is not recorded. */
  predicate Unrecorded(f: Flags, before: seq<Event>, x: Word)
    decreases |before|, 1
  {
    f.free && x != 0 && Recorded(f, before, x).Unknown?
  }

  /** No call returns what is on record; a real realloc may return its argument. */
  ghost predicate FreshResults(f: Flags, h: seq<Event>) {
    h == [] || (FreshResults(f, h[..|h| - 1]) && FreshResult(f, h[..|h| - 1], h[|h| - 1]))
  }

  ghost predicate FreshResult(f: Flags, before: seq<Event>, e: Event) {
    match e
    case MallocCall(_, r) => r == 0 || Recorded(f, before, r).Unknown?
    case CallocCall(_, _, r) => r == 0 || Recorded(f, before, r).Unknown?
    case ReallocCall(x, _, r) => r == 0 || Recorded(f, before, r).Unknown? || (f.free && r == x)
    case _ => true
  }

  // ---- the list as a map from addresses ---------------------------------

  ghost predicate Distinct(es: seq<Entry>) {
    forall i, j :: 0 <= i < j < |es| ==> es[i].addr != es[j].addr
  }

  function EntryStatus(e: Entry): Status {
    match e.consumer
    case None => Alive(e.size, e.producer)
    case Some(who) => Gone(e.size, who)
  }

  function Listed(es: seq<Entry>, a: Word): Status {
    var i := Find(es, a);
    if i == |es| then Unknown else EntryStatus(es[i])
  }

  lemma ListedPrepend(es: seq<Entry>, e: Entry)
    requires Distinct(es) && Listed(es, e.addr).Unknown?
    ensures Distinct([e] + es)
    ensures forall a :: Listed([e] + es, a) == if a == e.addr then EntryStatus(e) else Listed(es, a)
  {
    forall a
      ensures Listed([e] + es, a) == if a == e.addr then EntryStatus(e) else Listed(es, a)
    {
      assert ([e] + es)[1..] == es;
    }
  }

  lemma ListedUpdate(es: seq<Entry>, i: nat, e: Entry)
    requires Distinct(es) && i < |es|
    requires e.addr == es[i].addr || Listed(es, e.addr).Unknown?
    ensures Distinct(es[i := e])
    ensures Listed(es[i := e], e.addr) == EntryStatus(e)
    ensures forall a :: Listed(es[i := e], a) ==
                        (if a == e.addr then EntryStatus(e) else if a == es[i].addr then Unknown else Listed(es, a))
  {
    var es' := es[i := e];
    forall a
      ensures Listed(es', a) ==
              (if a == e.addr then EntryStatus(e) else if a == es[i].addr then Unknown else Listed(es, a))
    {
      var j, k := Find(es, a), Find(es', a);
      assert es'[i] == e;
      if j < |es| && j != i {
        assert es'[j] == es[j];
      }
      if k < |es| && k != i {
        assert es[k] == es'[k];
      }
    }
  }

  lemma ListedRemove(es: seq<Entry>, i: nat)
    requires Distinct(es) && i < |es|
    ensures Distinct(Remove(es, i))
    ensures forall a :: Listed(Remove(es, i), a) == if a == es[i].addr then Unknown else Listed(es, a)
  {
    var es' := Remove(es, i);
    forall a
      ensures Listed(es', a) == if a == es[i].addr then Unknown else Listed(es, a)
    {
      var j, k := Find(es, a), Find(es', a);
      if j < |es| && j != i {
        assert es'[if j < i then j else j - 1] == es[j];
      }
      if k < |es'| {
        assert es'[k] == es[if k < i then k else k + 1];
      }
    }
  }

  // ---- live entries: their number and their size ------------------------

  function Space(es: seq<Entry>): nat {
    if es == [] then 0 else es[0].size + Space(es[1..])
  }

  lemma {:induction false} LiveConcat(xs: seq<Entry>, ys: seq<Entry>)
    ensures Live(xs + ys) == Live(xs) + Live(ys)
  {
    if xs == [] {
      assert xs + ys == ys;
    } else {
      LiveFirst(xs + ys);
      LiveFirst(xs);
      LiveConcat(xs[1..], ys);
      hide Live;
      assert (xs + ys)[1..] == xs[1..] + ys;
      if xs[0].consumer.None? {
        assert [xs[0]] + (Live(xs[1..]) + Live(ys)) == ([xs[0]] + Live(xs[1..])) + Live(ys);
      }
    }
  }

  lemma LiveFirst(es: seq<Entry>)
    requires es != []
    ensures Live(es) == if es[0].consumer.None? then [es[0]] + Live(es[1..]) else Live(es[1..])
  {
    assert [] + Live(es[1..]) == Live(es[1..]);
  }

  lemma {:induction false} SpaceConcat(xs: seq<Entry>, ys: seq<Entry>)
    ensures Space(xs + ys) == Space(xs) + Space(ys)
  {
    if xs == [] {
      assert xs + ys == ys;
    } else {
      assert (xs + ys)[1..] == xs[1..] + ys;
      SpaceConcat(xs[1..], ys);
    }
  }

  /** The live part of a list around position `i`. */
  lemma LiveAround(es: seq<Entry>, i: nat, e: Entry)
    requires i < |es|
    ensures Live(es[i := e]) == Live(es[..i]) + Live([e]) + Live(es[i + 1..])
    ensures Live(Remove(es, i)) == Live(es[..i]) + Live(es[i + 1..])
    ensures Space(Live(es[i := e])) == Space(Live(es[..i])) + Space(Live([e])) + Space(Live(es[i + 1..]))
    ensures Space(Live(Remove(es, i))) == Space(Live(es[..i])) + Space(Live(es[i + 1..]))
  {
    assert es[i := e] == es[..i] + [e] + es[i + 1..];
    LiveConcat(es[..i] + [e], es[i + 1..]);
    LiveConcat(es[..i], [e]);
    LiveConcat(es[..i], es[i + 1..]);
    SpaceConcat(Live(es[..i]) + Live([e]), Live(es[i + 1..]));
    SpaceConcat(Live(es[..i]), Live([e]));
    SpaceConcat(Live(es[..i]), Live(es[i + 1..]));
  }

  // ---- the invariant of a replay ----------------------------------------

  /** The books say about every address what the history says, and their counts and statistics
      are those of the live entries. */
  ghost predicate Faithful(f: Flags, h: seq<Event>, b: Books) {
    && Distinct(b.elems)
    && (forall a :: Listed(b.elems, a) == Recorded(f, h, a))
    && Counted(f, b)
  }

  ghost predicate Counted(f: Flags, b: Books) {
    && b.active == |Live(b.elems)|
    && (f.free ==> Live(b.elems) == b.elems && b.consumed == 0)
    && (!f.free ==> b.active + b.consumed == |b.elems|)
    && (f.stats ==> b.stats.now == Stat(Space(Live(b.elems)), |Live(b.elems)|))
    && (!f.stats ==> b.stats == NO_STATS)
  }

  /** Entering an address that is not listed. */
  lemma EnterNew(f: Flags, b: Books, a: Word, size: Word, who: Action)
    requires Distinct(b.elems) && Listed(b.elems, a).Unknown?
    ensures Enter(f, b, a, size, who).Done?
    ensures var b' := Enter(f, b, a, size, who).books;
            && b'.elems == [Entry(a, size, who, None)] + b.elems
            && Distinct(b'.elems)
            && (forall x :: Listed(b'.elems, x) == if x == a then Alive(size, who) else Listed(b.elems, x))
            && Live(b'.elems) == [Entry(a, size, who, None)] + Live(b.elems)
            && Space(Live(b'.elems)) == size + Space(Live(b.elems))
            && b'.active == b.active + 1 && b'.consumed == b.consumed && b'.log == b.log
            && b'.stats == if f.stats then Produced(b.stats, size) else b.stats
  {
    var e := Entry(a, size, who, None);
    ListedPrepend(b.elems, e);
    LiveConcat([e], b.elems);
    SpaceConcat([e], Live(b.elems));
    assert Live([e]) == [e] && Space([e]) == size;
  }

  /** Deleting a live entry, whichever way. */
  lemma DeleteLive(f: Flags, b: Books, i: nat, who: Action)
    requires Distinct(b.elems) && i < |b.elems| && b.elems[i].consumer.None? && b.active > 0
    ensures var b' := Delete(f, b, i, who);
            && Distinct(b'.elems)
            && (forall x :: Listed(b'.elems, x) ==
                  if x == b.elems[i].addr then AfterFree(f, b.elems[i].size, who) else Listed(b.elems, x))
            && |Live(b'.elems)| + 1 == |Live(b.elems)|
            && Space(Live(b'.elems)) + b.elems[i].size == Space(Live(b.elems))
            && (f.free && Live(b.elems) == b.elems ==> Live(b'.elems) == b'.elems)
            && |b'.elems| == if f.free then |b.elems| - 1 else |b.elems|
  {
    var e := b.elems[i];
    assert b.elems[i := e] == b.elems;
    LiveAround(b.elems, i, e);
    assert Live([e]) == [e] && Space([e]) == e.size;
    if f.free {
      ListedRemove(b.elems, i);
      LiveShorter(b.elems);
      LiveShorter(Remove(b.elems, i));
    } else {
      var gone := Consume(e, who);
      ListedUpdate(b.elems, i, gone);
      LiveAround(b.elems, i, gone);
      assert Live([gone]) == [];
      assert EntryStatus(gone) == AfterFree(f, e.size, who);
      assert Delete(f, b, i, who).elems == b.elems[i := gone];
    }
  }

  lemma {:induction false} LiveShorter(es: seq<Entry>)
    ensures |Live(es)| <= |es|
    ensures |Live(es)| == |es| ==> Live(es) == es
    ensures |Live(es)| == |es| <==> forall i :: 0 <= i < |es| ==> es[i].consumer.None?
  {
    if es != [] {
      LiveShorter(es[1..]);
    }
  }

  /** An object entered when its address has no record. */
  lemma EnteredFaithful(f: Flags, h: seq<Event>, b: Books, e: Event, r: Word, size: Word, who: Action)
    requires Faithful(f, h, b) && Recorded(f, h, r).Unknown?
    requires forall x :: RecordedAfter(f, h, e, x) == if x == r then Alive(size, who) else Recorded(f, h, x)
    ensures Enter(f, b, r, size, who).Done? && Faithful(f, h + [e], Enter(f, b, r, size, who).books)
    ensures EnterAndReport(f, b, r, size, who).Done?
    ensures Faithful(f, h + [e], EnterAndReport(f, b, r, size, who).books)
  {
    assert Listed(b.elems, r) == Recorded(f, h, r);
    EnterNew(f, b, r, size, who);
    var b' := Enter(f, b, r, size, who).books;
    hide Enter, Listed, Distinct, RecordedAfter, Recorded;
    forall x
      ensures Listed(b'.elems, x) == RecordedAfter(f, h, e, x)
    {
      assert Listed(b.elems, x) == Recorded(f, h, x);
    }
    assert Counted(f, b') by {
      EnteredCounts(f, b, b', r, size, who);
    }
    hide Counted, Live;
    RecordedSnoc(f, h, e);
  }

  lemma EnteredCounts(f: Flags, b: Books, b': Books, a: Word, size: Word, who: Action)
    requires Counted(f, b)
    requires b'.elems == [Entry(a, size, who, None)] + b.elems
    requires Live(b'.elems) == [Entry(a, size, who, None)] + Live(b.elems)
    requires Space(Live(b'.elems)) == size + Space(Live(b.elems))
    requires b'.active == b.active + 1 && b'.consumed == b.consumed
    requires b'.stats == if f.stats then Produced(b.stats, size) else b.stats
    ensures Counted(f, b')
  {
    hide Live, Space;
  }

  /** A call that leaves every record as it was. */
  lemma NothingRecorded(f: Flags, h: seq<Event>, b: Books, e: Event, more: seq<Record>)
    requires Faithful(f, h, b)
    requires forall x :: RecordedAfter(f, h, e, x) == Recorded(f, h, x)
    ensures Faithful(f, h + [e], b.(log := b.log + more))
  {
    hide Listed, Distinct, RecordedAfter, Recorded, Live, Space;
    RecordedSnoc(f, h, e);
  }

  /** One completed call by a target whose results are fresh keeps the books faithful. */
  lemma StepFaithful(f: Flags, h: seq<Event>, b: Books, e: Event)
    requires Faithful(f, h, b) && FreshResult(f, h, e) && Step(f, b, e).Done?
    ensures Faithful(f, h + [e], Step(f, b, e).books)
  {
    hide Faithful, Recorded, EnterAndReport, ConsumerStep, ReallocStep;
    match e {
      case MallocCall(size, r) =>
        if r == 0 {
          NothingRecorded(f, h, b, e, [Zero(Malloc, 0, 0, size)]);
        } else {
          EnteredFaithful(f, h, b, e, r, size, Malloc);
        }
      case CallocCall(n, size, r) =>
        if r == 0 {
          NothingRecorded(f, h, b, e, [Zero(Calloc, 0, n, size)]);
        } else {
          EnteredFaithful(f, h, b, e, r, Wrap(n * size), Calloc);
        }
      case ConsumerCall(who, a) =>
        ConsumerFaithful(f, h, b, who, a);
      case ReallocCall(a, size, r) =>
        ReallocFaithful(f, h, b, a, size, r);
      case UsageCall =>
        NothingRecorded(f, h, b, e, [Report(b)]);
    }
  }

  lemma ConsumerFaithful(f: Flags, h: seq<Event>, b: Books, who: Action, a: Word)
    requires Faithful(f, h, b) && ConsumerStep(f, b, who, a).Done?
    ensures Faithful(f, h + [ConsumerCall(who, a)], ConsumerStep(f, b, who, a).books)
  {
    var call := ConsumerCall(who, a);
    ZeroUnknown(f, h);
    assert Listed(b.elems, a) == Recorded(f, h, a);
    var i := Find(b.elems, a);
    if i < |b.elems| && b.elems[i].consumer.None? {
      ConsumedFaithful(f, h, b.(log := b.log + Diagnose(b.elems, who, a)), i, who);
    } else {
      hide Faithful, Diagnose;
      NothingRecorded(f, h, b, call, Diagnose(b.elems, who, a));
    }
  }

  /** A live object handed to free or cfree. */
  lemma ConsumedFaithful(f: Flags, h: seq<Event>, b: Books, i: nat, who: Action)
    requires Faithful(f, h, b) && i < |b.elems| && b.elems[i].consumer.None?
    requires i == Find(b.elems, b.elems[i].addr) && b.active > 0
    ensures Faithful(f, h + [ConsumerCall(who, b.elems[i].addr)],
                     WithUsage(f, Delete(f, WithRelease(f, b, b.elems[i].size), i, who)))
  {
    DeletedRecords(f, h, b, i, who);
    DeletedCounts(f, b, i, who);
    hide Listed, Distinct, Recorded, RecordedAfter, Counted, Delete, Find;
    RecordedSnoc(f, h, ConsumerCall(who, b.elems[i].addr));
  }

  lemma DeletedRecords(f: Flags, h: seq<Event>, b: Books, i: nat, who: Action)
    requires Faithful(f, h, b) && i < |b.elems| && b.elems[i].consumer.None?
    requires i == Find(b.elems, b.elems[i].addr) && b.active > 0
    ensures var es := Delete(f, WithRelease(f, b, b.elems[i].size), i, who).elems;
            Distinct(es) && forall x :: Listed(es, x) == RecordedAfter(f, h, ConsumerCall(who, b.elems[i].addr), x)
  {
    var b1 := WithRelease(f, b, b.elems[i].size);
    assert Listed(b.elems, b.elems[i].addr) == Recorded(f, h, b.elems[i].addr);
    DeleteLive(f, b1, i, who);
    hide Listed, Distinct, Recorded, Counted, Delete, Live, Space, Find;
    forall x
      ensures Listed(Delete(f, b1, i, who).elems, x) == RecordedAfter(f, h, ConsumerCall(who, b.elems[i].addr), x)
    {
      assert Listed(b.elems, x) == Recorded(f, h, x);
    }
  }

  lemma DeletedCounts(f: Flags, b: Books, i: nat, who: Action)
    requires Distinct(b.elems) && i < |b.elems| && b.elems[i].consumer.None?
    requires Counted(f, b) && b.active > 0
    ensures Counted(f, Delete(f, WithRelease(f, b, b.elems[i].size), i, who))
  {
    DeleteLive(f, WithRelease(f, b, b.elems[i].size), i, who);
    hide Live, Space, Listed, Distinct;
  }

  /** Address zero is never recorded. */
  lemma {:induction false} ZeroUnknown(f: Flags, h: seq<Event>)
    ensures Recorded(f, h, 0).Unknown?
  {
    if h != [] {
      ZeroUnknown(f, h[..|h| - 1]);
    }
  }

  lemma ReallocFaithful(f: Flags, h: seq<Event>, b: Books, a: Word, size: Word, r: Word)
    requires Faithful(f, h, b) && FreshResult(f, h, ReallocCall(a, size, r)) && ReallocStep(f, b, a, size, r).Done?
    ensures Faithful(f, h + [ReallocCall(a, size, r)], ReallocStep(f, b, a, size, r).books)
  {
    ZeroUnknown(f, h);
    assert Listed(b.elems, a) == Recorded(f, h, a);
    var b1 := b.(log := b.log + Diagnose(b.elems, Realloc, a));
    var i := Find(b.elems, a);
    if i < |b.elems| {
      assert a != 0;
      if f.free {
        MoveFaithful(f, h, b1, i, size, r);
      } else {
        CopyFaithful(f, h, b1, i, size, r);
      }
    } else {
      UnlistedFaithful(f, h, b, a, size, r);
    }
  }

  lemma UnlistedFaithful(f: Flags, h: seq<Event>, b: Books, a: Word, size: Word, r: Word)
    requires Faithful(f, h, b) && FreshResult(f, h, ReallocCall(a, size, r)) && ReallocStep(f, b, a, size, r).Done?
    requires Find(b.elems, a) == |b.elems|
    ensures Faithful(f, h + [ReallocCall(a, size, r)], ReallocStep(f, b, a, size, r).books)
  {
    ZeroUnknown(f, h);
    assert Listed(b.elems, a) == Recorded(f, h, a);
    var call, more := ReallocCall(a, size, r), Diagnose(b.elems, Realloc, a);
    hide Faithful, Diagnose, Recorded, Enter, EnterAndReport;
    if a == 0 {
      EnteredFaithful(f, h, b, call, r, size, Realloc);
    } else if f.free {
      NothingRecorded(f, h, b, call, more);
    } else {
      LoggedFaithful(f, h, b, more);
      EnteredFaithful(f, h, b.(log := b.log + more), call, r, size, Realloc);
    }
  }

  lemma LoggedFaithful(f: Flags, h: seq<Event>, b: Books, more: seq<Record>)
    requires Faithful(f, h, b)
    ensures Faithful(f, h, b.(log := b.log + more))
  {
  }

  lemma MoveFaithful(f: Flags, h: seq<Event>, b: Books, i: nat, size: Word, r: Word)
    requires f.free && Faithful(f, h, b) && i < |b.elems| && i == Find(b.elems, b.elems[i].addr)
    requires b.elems[i].addr != 0
    requires FreshResult(f, h, ReallocCall(b.elems[i].addr, size, r)) && MoveEntry(f, b, i, size, r).Done?
    ensures Faithful(f, h + [ReallocCall(b.elems[i].addr, size, r)], MoveEntry(f, b, i, size, r).books)
  {
    var was, e := b.elems[i], Entry(r, size, Realloc, None);
    var call := ReallocCall(was.addr, size, r);
    var es := b.elems[i := e];
    assert Listed(b.elems, was.addr) == Recorded(f, h, was.addr) == EntryStatus(was);
    ListedUpdate(b.elems, i, e);
    forall x
      ensures Listed(es, x) == RecordedAfter(f, h, call, x)
    {
      assert Listed(b.elems, x) == Recorded(f, h, x);
    }
    RecordedSnoc(f, h, call);
    MovedCounts(f, b, i, size, r);
  }

  lemma MovedCounts(f: Flags, b: Books, i: nat, size: Word, r: Word)
    requires f.free && i < |b.elems| && MoveEntry(f, b, i, size, r).Done?
    ensures var b', e := MoveEntry(f, b, i, size, r).books, Entry(r, size, Realloc, None);
            && b'.elems == b.elems[i := e]
            && b'.active == b.active && b'.consumed == b.consumed
            && |Live(b'.elems)| == |Live(b.elems)|
            && (Live(b.elems) == b.elems ==> Live(b'.elems) == b'.elems)
            && (f.stats && b.stats.now == Stat(Space(Live(b.elems)), |Live(b.elems)|) ==>
                  b'.stats.now == Stat(Space(Live(b'.elems)), |Live(b'.elems)|))
            && (!f.stats ==> b'.stats == b.stats)
  {
    var e := Entry(r, size, Realloc, None);
    LiveReplaced(b.elems, i, e);
    LiveShorter(b.elems);
    LiveShorter(b.elems[i := e]);
  }

  /** Exchanging one live entry for another. */
  lemma LiveReplaced(es: seq<Entry>, i: nat, e: Entry)
    requires i < |es| && es[i].consumer.None? && e.consumer.None?
    ensures |Live(es[i := e])| == |Live(es)|
    ensures Space(Live(es[i := e])) == Space(Live(es)) - es[i].size + e.size
  {
    assert es[i := es[i]] == es;
    LiveAround(es, i, es[i]);
    LiveAround(es, i, e);
    assert Live([e]) == [e] && Space([e]) == e.size;
    assert Live([es[i]]) == [es[i]] && Space([es[i]]) == es[i].size;
  }

  /** The books once an object has been replaced by another. */
  lemma CopiedBooks(f: Flags, b: Books, i: nat, size: Word, r: Word)
    requires !f.free && Distinct(b.elems) && i < |b.elems| && b.active == |Live(b.elems)|
    requires Listed(b.elems, r).Unknown? && CopyEntry(f, b, i, size, r).Done?
    ensures var b', was := CopyEntry(f, b, i, size, r).books, b.elems[i];
            && Distinct(b'.elems) && |b'.elems| == |b.elems| + 1
            && (forall x :: Listed(b'.elems, x) ==
                  if x == r then Alive(size, Realloc)
                  else if x == was.addr then Gone(was.size, Realloc)
                  else Listed(b.elems, x))
            && |Live(b'.elems)| == |Live(b.elems)| && b'.active == b.active && b'.consumed == b.consumed + 1
            && Space(Live(b'.elems)) == Space(Live(b.elems)) - was.size + size
            && b'.stats == if f.stats then Produced(Released(b.stats, was.size), size) else b.stats
  {
    var b1 := WithRelease(f, b, b.elems[i].size);
    DeleteLive(f, b1, i, Realloc);
    var b2 := Delete(f, b1, i, Realloc);
    EnterNew(f, b2, r, size, Realloc);
    hide Live, Space, Listed, Distinct, Produced, Released, Enter;
  }

  lemma CopyFaithful(f: Flags, h: seq<Event>, b: Books, i: nat, size: Word, r: Word)
    requires !f.free && Faithful(f, h, b) && i < |b.elems| && i == Find(b.elems, b.elems[i].addr)
    requires FreshResult(f, h, ReallocCall(b.elems[i].addr, size, r)) && CopyEntry(f, b, i, size, r).Done?
    ensures Faithful(f, h + [ReallocCall(b.elems[i].addr, size, r)], CopyEntry(f, b, i, size, r).books)
  {
    var was, es := b.elems[i], CopyEntry(f, b, i, size, r).books.elems;
    var call := ReallocCall(was.addr, size, r);
    assert Listed(b.elems, was.addr) == Recorded(f, h, was.addr) == EntryStatus(was);
    assert Listed(b.elems, r) == Recorded(f, h, r);
    assert was.consumer.None? && r != 0 && r != was.addr;
    CopiedBooks(f, b, i, size, r);
    hide CopyEntry, Live, Space, Listed, Distinct;
    RecordedSnoc(f, h, call);
    forall x
      ensures Listed(es, x) == RecordedAfter(f, h, call, x)
    {
      assert Listed(b.elems, x) == Recorded(f, h, x);
    }
  }

  /** Over every run with fresh results the books are faithful after every completed call. */
  lemma {:induction false} ReplayFaithful(f: Flags, h: seq<Event>)
    requires FreshResults(f, h) && Replay(f, h).Done?
    ensures Faithful(f, h, Replay(f, h).books)
  {
    if h != [] {
      var before, e := h[..|h| - 1], h[|h| - 1];
      ReplayFaithful(f, before);
      StepFaithful(f, before, Replay(f, before).books, e);
      assert before + [e] == h;
    }
  }
}

/** The tracker's findings - FUM, FFM and MLK reports - against what it has on record. */
module Findings {
  import opened Words
  import opened Ledger
  import opened History

  // ---- diagnoses --------------------------------------------------------

  /** The diagnosis an address deserves. */
  function Deserved(s: Status, who: Action, a: Word): seq<Record> {
    if a == 0 then []
    else match s
      case Unknown => [Fum(who, a)]
      case Gone(_, earlier) => [Ffm(who, a, earlier)]
      case Alive(_, _) => []
  }

  /** The diagnosis a call calls for after a history. */
  function DeservedBy(f: Flags, before: seq<Event>, e: Event): seq<Record> {
    match e
    case ConsumerCall(who, a) => Deserved(Recorded(f, before, a), who, a)
    case ReallocCall(a, _, _) => Deserved(Recorded(f, before, a), Realloc, a)
    case _ => []
  }

  /** All diagnoses a history calls for, in order. */
  function Expected(f: Flags, h: seq<Event>): seq<Record> {
    if h == [] then []
    else Expected(f, h[..|h| - 1]) + DeservedBy(f, h[..|h| - 1], h[|h| - 1])
  }

  function Diagnoses(log: seq<Record>): seq<Record> {
    if log == [] then []
    else
      var rest := Diagnoses(log[1..]);
      if log[0].Fum? || log[0].Ffm? then [log[0]] + rest else rest
  }

  lemma {:induction false} DiagnosesConcat(xs: seq<Record>, ys: seq<Record>)
    ensures Diagnoses(xs + ys) == Diagnoses(xs) + Diagnoses(ys)
  {
    if xs == [] {
      assert xs + ys == ys;
    } else {
      assert (xs + ys)[1..] == xs[1..] + ys;
      DiagnosesConcat(xs[1..], ys);
      assert [xs[0]] + (Diagnoses(xs[1..]) + Diagnoses(ys)) == ([xs[0]] + Diagnoses(xs[1..])) + Diagnoses(ys);
    }
  }

  lemma DiagnoseAgrees(f: Flags, h: seq<Event>, b: Books, who: Action, a: Word)
    requires Faithful(f, h, b)
    ensures Diagnose(b.elems, who, a) == Deserved(Recorded(f, h, a), who, a)
    ensures Diagnoses(Diagnose(b.elems, who, a)) == Diagnose(b.elems, who, a)
  {
    assert Listed(b.elems, a) == Recorded(f, h, a);
  }

  /** A completed call adds the diagnosis its argument calls for and otherwise only other records. */
  lemma StepLog(f: Flags, h: seq<Event>, b: Books, e: Event)
    requires Faithful(f, h, b) && Step(f, b, e).Done?
    ensures Diagnoses(Step(f, b, e).books.log) == Diagnoses(b.log) + DeservedBy(f, h, e)
  {
    var log := Step(f, b, e).books.log;
    hide Live, Find, Diagnoses;
    match e {
      case ConsumerCall(who, a) =>
        DiagnoseAgrees(f, h, b, who, a);
        ConsumerLog(f, b, who, a);
        LogTail(b.log, Diagnose(b.elems, who, a), log);
      case ReallocCall(a, size, r) =>
        DiagnoseAgrees(f, h, b, Realloc, a);
        ReallocLog(f, b, a, size, r);
        LogTail(b.log, Diagnose(b.elems, Realloc, a), log);
      case _ =>
        assert b.log + [] == b.log;
        LogTail(b.log, [], log);
        DiagnosesEmpty();
    }
  }

  lemma DiagnosesEmpty()
    ensures Diagnoses([]) == []
  {
  }

  /** At most a usage report follows. */
  ghost predicate Extends(log: seq<Record>, before: seq<Record>) {
    log == before || (log != [] && log[..|log| - 1] == before && !log[|log| - 1].Fum? && !log[|log| - 1].Ffm?)
  }

  lemma ConsumerLog(f: Flags, b: Books, who: Action, a: Word)
    requires ConsumerStep(f, b, who, a).Done?
    ensures Extends(ConsumerStep(f, b, who, a).books.log, b.log + Diagnose(b.elems, who, a))
  {
    hide Diagnose, Find, Live;
  }

  lemma ReallocLog(f: Flags, b: Books, a: Word, size: Word, r: Word)
    requires ReallocStep(f, b, a, size, r).Done?
    ensures Extends(ReallocStep(f, b, a, size, r).books.log, b.log + Diagnose(b.elems, Realloc, a))
  {
    if a == 0 {
      assert b.log + Diagnose(b.elems, Realloc, a) == b.log;
    }
    hide Diagnose, Find, Live;
  }

  /** At most one record that is no diagnosis follows the diagnosis. */
  lemma LogTail(before: seq<Record>, diagnosis: seq<Record>, log: seq<Record>)
    requires Extends(log, before + diagnosis)
    ensures Diagnoses(log) == Diagnoses(before) + Diagnoses(diagnosis)
  {
    DiagnosesConcat(before, diagnosis);
    if log != before + diagnosis {
      var last := log[|log| - 1];
      assert log == (before + diagnosis) + [last];
      DiagnosesConcat(before + diagnosis, [last]);
    }
  }

  /** Over every run the diagnoses are exactly those the record calls for: FUM for an address that is
      not on record, FFM naming the earlier consumer for one consumed before. */
  lemma {:induction false} DiagnosesAgree(f: Flags, h: seq<Event>)
    requires FreshResults(f, h) && Replay(f, h).Done?
    ensures Diagnoses(Replay(f, h).books.log) == Expected(f, h)
  {
    if h != [] {
      var before, e := h[..|h| - 1], h[|h| - 1];
      DiagnosesAgree(f, before);
      ReplayFaithful(f, before);
      StepLog(f, before, Replay(f, before).books, e);
    }
  }

  /** Completed or not, the call after a run is diagnosed as the record calls for. */
  lemma LastDiagnosis(f: Flags, h: seq<Event>, e: Event)
    requires FreshResults(f, h) && Replay(f, h).Done?
    ensures var b := Replay(f, h).books; Diagnoses(b.log) + DiagnosisOf(b.elems, e) == Expected(f, h + [e])
  {
    var b := Replay(f, h).books;
    assert (h + [e])[..|h|] == h;
    DiagnosesAgree(f, h);
    ReplayFaithful(f, h);
    hide Faithful, FreshResults, Replay, Diagnoses, Diagnose, Deserved, Recorded;
    if e.ConsumerCall? {
      DiagnoseAgrees(f, h, b, e.who, e.addr);
    } else if e.ReallocCall? {
      DiagnoseAgrees(f, h, b, Realloc, e.addr);
    }
  }

  // ---- leaks ------------------------------------------------------------

  lemma {:induction false} LiveMembers(es: seq<Entry>)
    ensures forall e :: e in Live(es) <==> e in es && e.consumer.None?
    ensures Distinct(es) ==> Distinct(Live(es))
  {
    if es != [] {
      LiveMembers(es[1..]);
      assert es == [es[0]] + es[1..];
    }
  }

  /** The leak list names exactly the objects that are on record as alive at the end, each of them once. */
  lemma LeaksAgree(f: Flags, h: seq<Event>)
    requires FreshResults(f, h) && Replay(f, h).Done?
    ensures var ls := Leaks(Replay(f, h).books);
            && (forall o :: Leak(o) in ls <==> Recorded(f, h, o.addr) == Alive(o.size, o.producer))
            && (forall i :: 0 <= i < |ls| ==> ls[i].Leak?)
            && (forall i, j :: 0 <= i < j < |ls| ==> ls[i].Leak? && ls[j].Leak? && ls[i].what.addr != ls[j].what.addr)
            && |ls| == Replay(f, h).books.active
  {
    ReplayFaithful(f, h);
    var b := Replay(f, h).books;
    LiveMembers(b.elems);
    forall o
      ensures Leak(o) in Leaks(b) <==> Recorded(f, h, o.addr) == Alive(o.size, o.producer)
    {
      assert Recorded(f, h, o.addr) == Listed(b.elems, o.addr);
      hide Replay, Recorded, FreshResults, Leaks, Live;
      LeakListed(b, o);
    }
  }

  /** A leak is reported for what is listed as alive. */
  lemma LeakListed(b: Books, o: Object)
    requires Distinct(b.elems)
    ensures Leak(o) in Leaks(b) <==> Listed(b.elems, o.addr) == Alive(o.size, o.producer)
  {
    var live, ls := Live(b.elems), Leaks(b);
    LiveMembers(b.elems);
    hide Live;
    var e := Entry(o.addr, o.size, o.producer, None);
    if Leak(o) in ls {
      var i :| 0 <= i < |ls| && ls[i] == Leak(o);
      assert live[i] in live && live[i] == e;
      ListedMember(b.elems, e);
    }
    if Listed(b.elems, o.addr) == Alive(o.size, o.producer) {
      assert b.elems[Find(b.elems, o.addr)] == e;
      var i :| 0 <= i < |live| && live[i] == e;
      assert ls[i] == Leak(o);
    }
  }

  lemma ListedMember(es: seq<Entry>, e: Entry)
    requires Distinct(es) && e in es
    ensures Listed(es, e.addr) == EntryStatus(e)
  {
  }

  // ---- when a run ends in a call ----------------------------------------

  /** If no call returns what is on record a run ends inside a call in exactly two cases: a realloc whose result
      is to be recorded returns zero, or its argument was consumed before. */
  lemma StopsIff(f: Flags, h: seq<Event>, b: Books, e: Event)
    requires Faithful(f, h, b) && FreshResult(f, h, e)
    ensures Step(f, b, e).Stopped? <==>
            e.ReallocCall? && ((e.result == 0 && !Unrecorded(f, h, e.addr)) || Recorded(f, h, e.addr).Gone?)
  {
    ZeroUnknown(f, h);
    LiveShorter(b.elems);
    match e {
      case MallocCall(_, r) =>
        assert Listed(b.elems, r) == Recorded(f, h, r);
      case CallocCall(_, _, r) =>
        assert Listed(b.elems, r) == Recorded(f, h, r);
      case ConsumerCall(_, a) =>
        assert Listed(b.elems, a) == Recorded(f, h, a);
        var i := Find(b.elems, a);
        if i < |b.elems| && b.elems[i].consumer.None? {
          LivePositive(b.elems, i);
        }
      case ReallocCall(a, size, r) =>
        ReallocStopsIff(f, h, b, a, size, r);
      case UsageCall =>
    }
  }

  /** The same over whole histories. */
  lemma EndsIff(f: Flags, h: seq<Event>, e: Event)
    requires FreshResults(f, h + [e]) && Replay(f, h).Done?
    ensures Replay(f, h + [e]).Stopped? <==>
            e.ReallocCall? && ((e.result == 0 && !Unrecorded(f, h, e.addr)) || Recorded(f, h, e.addr).Gone?)
  {
    assert (h + [e])[..|h|] == h;
    ReplayFaithful(f, h);
    StopsIff(f, h, Replay(f, h).books, e);
  }

  lemma ReallocStopsIff(f: Flags, h: seq<Event>, b: Books, a: Word, size: Word, r: Word)
    requires Faithful(f, h, b) && FreshResult(f, h, ReallocCall(a, size, r))
    ensures ReallocStep(f, b, a, size, r).Stopped? <==>
            (r == 0 && !Unrecorded(f, h, a)) || Recorded(f, h, a).Gone?
  {
    ZeroUnknown(f, h);
    LiveShorter(b.elems);
    assert Listed(b.elems, a) == Recorded(f, h, a);
    assert Listed(b.elems, r) == Recorded(f, h, r);
    var i := Find(b.elems, a);
    if i < |b.elems| && b.elems[i].consumer.None? {
      LivePositive(b.elems, i);
      EntersAfterDelete(f, b, i, r);
    }
    hide Live;
  }

  lemma LivePositive(es: seq<Entry>, i: nat)
    requires i < |es| && es[i].consumer.None?
    ensures |Live(es)| > 0
  {
    LiveMembers(es);
    assert es[i] in Live(es);
  }

  lemma EntersAfterDelete(f: Flags, b: Books, i: nat, r: Word)
    requires Distinct(b.elems) && i < |b.elems| && b.elems[i].consumer.None? && b.active > 0
    ensures Listed(b.elems, r).Unknown? ==> Find(Delete(f, b, i, Realloc).elems, r) == |Delete(f, b, i, Realloc).elems|
  {
    DeleteLive(f, b, i, Realloc);
    var es := Delete(f, b, i, Realloc).elems;
    assert Listed(es, r) == if r == b.elems[i].addr then AfterFree(f, b.elems[i].size, Realloc) else Listed(b.elems, r);
  }

  // ---- usage reports ----------------------------------------------------

  ghost predicate CountsMatch(log: seq<Record>) {
    forall i :: 0 <= i < |log| && log[i].Usage? ==> log[i].count == |log[i].objects|
  }

  /** Every usage report announces as many objects as it lists. */
  lemma {:induction false} UsageCounts(f: Flags, h: seq<Event>)
    requires FreshResults(f, h) && Replay(f, h).Done?
    ensures CountsMatch(Replay(f, h).books.log)
  {
    if h != [] {
      var before, e := h[..|h| - 1], h[|h| - 1];
      UsageCounts(f, before);
      ReplayFaithful(f, before);
      ReplayFaithful(f, h);
      StepReports(f, Replay(f, before).books, e);
    }
  }

  lemma StepReports(f: Flags, b: Books, e: Event)
    requires Step(f, b, e).Done? && CountsMatch(b.log)
    requires Step(f, b, e).books.active == |Live(Step(f, b, e).books.elems)|
    ensures CountsMatch(Step(f, b, e).books.log)
  {
    var b' := Step(f, b, e).books;
    UsageReported(f, b, e);
    hide Find, Live, Step;
    forall i | 0 <= i < |b'.log| && b'.log[i].Usage?
      ensures b'.log[i].count == |b'.log[i].objects|
    {
      assert b'.log[i] in b'.log;
    }
  }

  /** The only usage report a call can add describes the books it leaves. */
  ghost predicate ReportsIts(log: seq<Record>, b': Books) {
    forall r :: r in b'.log && r.Usage? ==> r in log || (r.count == b'.active && r.objects == Objects(Live(b'.elems)))
  }

  lemma UsageReported(f: Flags, b: Books, e: Event)
    requires Step(f, b, e).Done?
    ensures ReportsIts(b.log, Step(f, b, e).books)
  {
    hide Find, Live, Objects, Produced, Released, Remove, ReallocStep, ConsumerStep;
    match e {
      case ConsumerCall(who, a) => ConsumerReported(f, b, who, a);
      case ReallocCall(a, size, r) => ReallocReported(f, b, a, size, r);
      case _ =>
    }
  }

  lemma ConsumerReported(f: Flags, b: Books, who: Action, a: Word)
    requires ConsumerStep(f, b, who, a).Done?
    ensures ReportsIts(b.log, ConsumerStep(f, b, who, a).books)
  {
    hide Find, Live, Objects, Produced, Released, Remove;
  }

  lemma ReallocReported(f: Flags, b: Books, a: Word, size: Word, r: Word)
    requires ReallocStep(f, b, a, size, r).Done?
    ensures ReportsIts(b.log, ReallocStep(f, b, a, size, r).books)
  {
    hide Find, Live, Objects, Produced, Released, Remove;
  }

  // ---- the two deletion policies ----------------------------------------

  /** For a target that reallocates nothing but null, successfully, and an allocator that never reuses an
      address, really deleting gives, entry for entry and in order, the marked list without its consumed
      entries; and the same statistics and leaks. */
  lemma {:induction false} ModesAgree(f: Flags, h: seq<Event>)
    requires FreshResults(f.(free := false), h)
    requires forall i :: 0 <= i < |h| ==> CreatesOrDeletes(h[i])
    ensures Replay(f.(free := false), h).Done? && Replay(f.(free := true), h).Done?
    ensures Corresponding(Replay(f.(free := false), h).books, Replay(f.(free := true), h).books)
    ensures Leaks(Replay(f.(free := false), h).books) == Leaks(Replay(f.(free := true), h).books)
  {
    if h != [] {
      var before, e := h[..|h| - 1], h[|h| - 1];
      ModesAgree(f, before);
      ReplayFaithful(f.(free := false), before);
      PolicyStep(f, before, Replay(f.(free := false), before).books, Replay(f.(free := true), before).books, e);
    }
    LiveIsLive(Replay(f.(free := false), h).books.elems);
  }

  /** Not a call that replaces an object or fails to reallocate. */
  predicate CreatesOrDeletes(e: Event) {
    e.ReallocCall? ==> e.addr == 0 && e.result != 0
  }

  ghost predicate Corresponding(kept: Books, freed: Books) {
    && freed.elems == Live(kept.elems)
    && freed.active == kept.active
    && freed.stats == kept.stats
    && freed.consumed == 0
  }

  lemma {:induction false} LiveIsLive(es: seq<Entry>)
    ensures Live(Live(es)) == Live(es)
  {
    LiveMembers(es);
    forall i | 0 <= i < |Live(es)|
      ensures Live(es)[i].consumer.None?
    {
      assert Live(es)[i] in Live(es);
    }
    LiveShorter(Live(es));
  }

  /** Finding a live address in the live part. */
  lemma FindLive(es: seq<Entry>, i: nat)
    requires Distinct(es) && i < |es| && es[i].consumer.None?
    ensures var live, k := Live(es), |Live(es[..i])|;
            && k < |live| && live[k] == es[i] && Find(live, es[i].addr) == k
            && Remove(live, k) == Live(es[..i]) + Live(es[i + 1..])
  {
    LiveMembers(es);
    var e := es[i];
    assert Live([e]) == [e];
    assert es[i := e] == es;
    LiveAround(es, i, e);
    RemoveMiddle(Live(es[..i]), e, Live(es[i + 1..]));
    hide Live;
    assert Find(Live(es), e.addr) == |Live(es[..i])|;
  }

  lemma RemoveMiddle(xs: seq<Entry>, e: Entry, ys: seq<Entry>)
    ensures (xs + [e] + ys)[|xs|] == e && Remove(xs + [e] + ys, |xs|) == xs + ys
  {
  }

  /** An address that is not live is not in the live part. */
  lemma FindLiveNone(es: seq<Entry>, a: Word)
    requires Distinct(es)
    requires var i := Find(es, a); i == |es| || es[i].consumer.Some?
    ensures Find(Live(es), a) == |Live(es)|
  {
    LiveMembers(es);
    var live := Live(es);
    forall k | 0 <= k < |live|
      ensures live[k].addr != a
    {
      assert live[k] in live && live[k] in es;
    }
  }

  lemma PolicyStep(f: Flags, h: seq<Event>, kept: Books, freed: Books, e: Event)
    requires Faithful(f.(free := false), h, kept) && FreshResult(f.(free := false), h, e)
    requires Corresponding(kept, freed) && CreatesOrDeletes(e)
    ensures Step(f.(free := false), kept, e).Done? && Step(f.(free := true), freed, e).Done?
    ensures Corresponding(Step(f.(free := false), kept, e).books, Step(f.(free := true), freed, e).books)
  {
    var f0, f1 := f.(free := false), f.(free := true);
    StopsIff(f0, h, kept, e);
    match e {
      case MallocCall(size, r) =>
        if r != 0 {
          PolicyEnter(f, h, kept, freed, r, size, Malloc);
        }
      case CallocCall(n, size, r) =>
        if r != 0 {
          PolicyEnter(f, h, kept, freed, r, Wrap(n * size), Calloc);
        }
      case ConsumerCall(who, a) =>
        PolicyConsume(f, h, kept, freed, who, a);
      case ReallocCall(_, size, r) =>
        PolicyEnter(f, h, kept, freed, r, size, Realloc);
      case UsageCall =>
    }
  }

  lemma PolicyEnter(f: Flags, h: seq<Event>, kept: Books, freed: Books, a: Word, size: Word, who: Action)
    requires Faithful(f.(free := false), h, kept) && Recorded(f.(free := false), h, a).Unknown?
    requires Corresponding(kept, freed)
    ensures EnterAndReport(f.(free := true), freed, a, size, who).Done?
    ensures Corresponding(EnterAndReport(f.(free := false), kept, a, size, who).books,
                          EnterAndReport(f.(free := true), freed, a, size, who).books)
  {
    assert Listed(kept.elems, a) == Recorded(f.(free := false), h, a);
    FindLiveNone(kept.elems, a);
    EnterNew(f.(free := false), kept, a, size, who);
  }

  lemma PolicyConsume(f: Flags, h: seq<Event>, kept: Books, freed: Books, who: Action, a: Word)
    requires Faithful(f.(free := false), h, kept) && Corresponding(kept, freed)
    requires ConsumerStep(f.(free := false), kept, who, a).Done?
    ensures ConsumerStep(f.(free := true), freed, who, a).Done?
    ensures Corresponding(ConsumerStep(f.(free := false), kept, who, a).books,
                          ConsumerStep(f.(free := true), freed, who, a).books)
  {
    var i := Find(kept.elems, a);
    if i == |kept.elems| || kept.elems[i].consumer.Some? {
      FindLiveNone(kept.elems, a);
    } else if a != 0 {
      var e := kept.elems[i];
      FindLive(kept.elems, i);
      ConsumedIsRemoved(kept.elems, i, who);
      hide Live;
      PolicyDelete(f, WithRelease(f.(free := false), kept, e.size), WithRelease(f.(free := true), freed, e.size),
                   i, Find(freed.elems, a), who);
    }
  }

  lemma ConsumedIsRemoved(es: seq<Entry>, i: nat, who: Action)
    requires Distinct(es) && i < |es| && es[i].consumer.None?
    ensures var k := |Live(es[..i])|;
            k < |Live(es)| && Live(es[i := Consume(es[i], who)]) == Remove(Live(es), k)
  {
    FindLive(es, i);
    LiveAround(es, i, Consume(es[i], who));
    assert Live([Consume(es[i], who)]) == [];
  }

  lemma PolicyDelete(f: Flags, kept: Books, freed: Books, i: nat, j: nat, who: Action)
    requires i < |kept.elems| && j < |freed.elems| && kept.active > 0
    requires Corresponding(kept, freed)
    requires Live(kept.elems[i := Consume(kept.elems[i], who)]) == Remove(freed.elems, j)
    ensures Corresponding(Delete(f.(free := false), kept, i, who), Delete(f.(free := true), freed, j, who))
  {
  }

  // ---- the order of the list --------------------------------------------

  function Addresses(es: seq<Entry>): (addrs: seq<Word>)
    ensures |addrs| == |es| && forall i :: 0 <= i < |es| ==> addrs[i] == es[i].addr
  {
    seq(|es|, i requires 0 <= i < |es| => es[i].addr)
  }

  /** The addresses that calls have returned, the latest first. */
  function Arrivals(h: seq<Event>): seq<Word> {
    if h == [] then [] else Arrived(h[|h| - 1]) + Arrivals(h[..|h| - 1])
  }

  function Arrived(e: Event): seq<Word> {
    if ResultOf(e) == 0 then [] else [ResultOf(e)]
  }

  /** When memory is kept, the list holds all objects there ever were, the latest first. */
  lemma {:induction false} NewestFirst(f: Flags, h: seq<Event>)
    requires !f.free && FreshResults(f, h) && Replay(f, h).Done?
    ensures Addresses(Replay(f, h).books.elems) == Arrivals(h)
  {
    if h != [] {
      var before, e := h[..|h| - 1], h[|h| - 1];
      NewestFirst(f, before);
      ReplayFaithful(f, before);
      StepArrives(f, before, Replay(f, before).books, e);
    }
  }

  lemma StepArrives(f: Flags, h: seq<Event>, b: Books, e: Event)
    requires !f.free && Faithful(f, h, b) && FreshResult(f, h, e) && Step(f, b, e).Done?
    ensures Addresses(Step(f, b, e).books.elems) == Arrived(e) + Addresses(b.elems)
  {
    hide Live, Objects, Produced, Released, Recorded, Find;
    assert forall a :: Listed(b.elems, a) == Recorded(f, h, a);
    match e {
      case ReallocCall(a, size, r) =>
        var i := Find(b.elems, a);
        if a != 0 && i < |b.elems| && r != 0 {
          CopyArrives(f, b.(log := b.log + Diagnose(b.elems, Realloc, a)), i, size, r);
        }
      case _ =>
    }
  }

  lemma CopyArrives(f: Flags, b: Books, i: nat, size: Word, r: Word)
    requires !f.free && i < |b.elems| && CopyEntry(f, b, i, size, r).Done?
    requires Listed(b.elems, r).Unknown?
    ensures Addresses(CopyEntry(f, b, i, size, r).books.elems) == [r] + Addresses(b.elems)
  {
    hide Live, Objects, Produced, Released;
    var es := b.elems[i := Consume(b.elems[i], Realloc)];
    forall j | 0 <= j < |es|
      ensures es[j].addr == b.elems[j].addr
    {
    }
    assert Find(es, r) == |es|;
  }

  // ---- the final log ----------------------------------------------------

  ghost predicate LeaksNothing(b: Books, o: Outcome) {
    o.Done? ==> forall r :: r in o.books.log && r.Leak? ==> r in b.log
  }

  lemma StepLeaksNothing(f: Flags, b: Books, e: Event)
    ensures LeaksNothing(b, Step(f, b, e))
  {
    hide LeaksNothing, EnterAndReport, ReallocStep, ConsumerStep;
    match e {
      case MallocCall(size, r) =>
        EnterLeaksNothing(f, b, r, size, Malloc);
        OneMoreRecord(b, Zero(Malloc, 0, 0, size));
      case CallocCall(n, size, r) =>
        EnterLeaksNothing(f, b, r, Wrap(n * size), Calloc);
        OneMoreRecord(b, Zero(Calloc, 0, n, size));
      case ReallocCall(a, size, r) => ReallocLeaksNothing(f, b, a, size, r);
      case ConsumerCall(who, a) => ConsumerLeaksNothing(f, b, who, a);
      case UsageCall => OneMoreRecord(b, Report(b));
    }
  }

  lemma OneMoreRecord(b: Books, r: Record)
    requires !r.Leak?
    ensures LeaksNothing(b, Done(b.(log := b.log + [r])))
  {
  }

  lemma EnterLeaksNothing(f: Flags, b: Books, a: Word, size: Word, who: Action)
    ensures LeaksNothing(b, Enter(f, b, a, size, who))
    ensures LeaksNothing(b, EnterAndReport(f, b, a, size, who))
  {
    hide Find, Live, Objects, Produced;
  }

  lemma ConsumerLeaksNothing(f: Flags, b: Books, who: Action, a: Word)
    ensures LeaksNothing(b, ConsumerStep(f, b, who, a))
  {
    hide Find, Live, Objects, Released;
  }

  lemma ReallocLeaksNothing(f: Flags, b: Books, a: Word, size: Word, r: Word)
    ensures LeaksNothing(b, ReallocStep(f, b, a, size, r))
  {
    hide Find, Live, Objects, Produced, Released, Enter, EnterAndReport;
    var b1 := b.(log := b.log + Diagnose(b.elems, Realloc, a));
    var i := Find(b.elems, a);
    EnterLeaksNothing(f, b, r, size, Realloc);
    EnterLeaksNothing(f, b1, r, size, Realloc);
    if i < |b.elems| && b.active > 0 {
      EnterLeaksNothing(f, Delete(f, WithRelease(f, b1, b.elems[i].size), i, Realloc), r, size, Realloc);
    }
  }

  /** Leaks are reported only when the tracker is closed. */
  lemma {:induction false} NoLeaksYet(f: Flags, h: seq<Event>)
    requires Replay(f, h).Done?
    ensures forall i :: 0 <= i < |Replay(f, h).books.log| ==> !Replay(f, h).books.log[i].Leak?
  {
    if h != [] {
      NoLeaksYet(f, h[..|h| - 1]);
      StepLeaksNothing(f, Replay(f, h[..|h| - 1]).books, h[|h| - 1]);
      assert forall i :: 0 <= i < |Replay(f, h).books.log| ==> Replay(f, h).books.log[i] in Replay(f, h).books.log;
    }
  }

  /** What the log of a whole session says. */
  ghost predicate AsRecorded(f: Flags, h: seq<Event>, log: seq<Record>) {
    && Diagnoses(log) == Expected(f, h)
    && (forall o :: Leak(o) in log <==> Recorded(f, h, o.addr) == Alive(o.size, o.producer))
    && LeaksOnce(log)
  }

  ghost predicate LeaksOnce(log: seq<Record>) {
    forall i, j :: 0 <= i < j < |log| && log[i].Leak? && log[j].Leak? ==> log[i].what.addr != log[j].what.addr
  }

  /** After closing: the diagnoses are those the record calls for, and the leaks are the objects on record
      as alive, each of them once. */
  lemma ClosedLog(f: Flags, h: seq<Event>)
    requires FreshResults(f, h) && Replay(f, h).Done?
    ensures var b := Replay(f, h).books; AsRecorded(f, h, b.log + Closing(f, b))
  {
    var b := Replay(f, h).books;
    DiagnosesAgree(f, h);
    LeaksAgree(f, h);
    NoLeaksYet(f, h);
    hide Leaks, Diagnoses, Expected, Replay, Recorded;
    var stats := if f.stats then [Statistics(b.stats)] else [];
    LeaksAppended(f, h, b.log, Leaks(b), stats);
  }

  lemma LeaksAppended(f: Flags, h: seq<Event>, log: seq<Record>, ls: seq<Record>, rest: seq<Record>)
    requires Diagnoses(log) == Expected(f, h) && forall i :: 0 <= i < |log| ==> !log[i].Leak?
    requires forall i :: 0 <= i < |ls| ==> ls[i].Leak?
    requires forall i :: 0 <= i < |rest| ==> rest[i].Statistics?
    requires forall o :: Leak(o) in ls <==> Recorded(f, h, o.addr) == Alive(o.size, o.producer)
    requires forall i, j :: 0 <= i < j < |ls| ==> ls[i].Leak? && ls[j].Leak? && ls[i].what.addr != ls[j].what.addr
    ensures AsRecorded(f, h, log + (ls + rest))
  {
    DiagnosesConcat(log, ls + rest);
    NoDiagnoses(ls + rest);
    hide Diagnoses, Expected, Recorded;
    var all := log + (ls + rest);
    forall i | 0 <= i < |all| && all[i].Leak?
      ensures |log| <= i < |log| + |ls| && all[i] == ls[i - |log|]
    {
    }
    assert forall o :: Leak(o) in all <==> Leak(o) in ls;
  }

  lemma ClosingDiagnosesNothing(f: Flags, b: Books, log: seq<Record>)
    ensures Diagnoses(log + Closing(f, b)) == Diagnoses(log)
  {
    DiagnosesConcat(log, Closing(f, b));
    NoDiagnoses(Closing(f, b));
  }

  lemma {:induction false} NoDiagnoses(log: seq<Record>)
    requires forall i :: 0 <= i < |log| ==> log[i].Leak? || log[i].Statistics?
    ensures Diagnoses(log) == []
  {
    if log != [] {
      NoDiagnoses(log[1..]);
    }
  }
}

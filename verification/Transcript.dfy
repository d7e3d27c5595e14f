/** The whole log of a run as the history of its calls alone calls for it: record by record, with the
    objects of each usage report, and what closing adds (src/mut.c:229-271, 283-307, 1359-1420). */
module Transcripts {
  import opened Words
  import opened Ledger
  import opened History
  import opened Findings
  import opened Peaks

  /** What is to be in the log: a certain record, or a usage report of the objects on record after a history. */
  datatype Note = Said(record: Record) | Listing(calls: seq<Event>)

  /** The address a call names. */
  function Named(e: Event): Word {
    match e
    case ConsumerCall(_, a) => a
    case ReallocCall(a, _, _) => a
    case _ => 0
  }

  /** What is said about a call when `s` is on record of the address it names: the diagnosis of the address,
      and that the target got nothing. */
  function Told(f: Flags, s: Status, e: Event): seq<Record> {
    match e
    case MallocCall(size, r) => if r == 0 then [Zero(Malloc, 0, 0, size)] else []
    case CallocCall(n, size, r) => if r == 0 then [Zero(Calloc, 0, n, size)] else []
    case ConsumerCall(who, a) => Deserved(s, who, a)
    case ReallocCall(a, size, r) =>
      Deserved(s, Realloc, a) +
      (if r != 0 || (a != 0 && s.Unknown? && f.free) then []
       else if a == 0 || s.Unknown? then [Zero(Realloc, 0, 0, size)]
       else [Zero(Realloc, a, s.size, size)])
    case UsageCall => []
  }

  /** A usage report follows: asked for by the target, or, with the usage control, whenever an object has
      come, gone or been replaced; but not for the result of reallocating an unknown address. */
  predicate Reports(f: Flags, s: Status, e: Event) {
    match e
    case MallocCall(_, r) => f.usage && r != 0
    case CallocCall(_, _, r) => f.usage && r != 0
    case ConsumerCall(_, _) => f.usage && s.Alive?
    case ReallocCall(a, _, r) => f.usage && r != 0 && (a == 0 || s.Alive?)
    case UsageCall => true
  }

  function SaidAll(rs: seq<Record>): (ns: seq<Note>)
    ensures |ns| == |rs| && forall i :: 0 <= i < |rs| ==> ns[i] == Said(rs[i])
  {
    seq(|rs|, i requires 0 <= i < |rs| => Said(rs[i]))
  }

  function Notes(f: Flags, before: seq<Event>, e: Event): seq<Note> {
    var s := Recorded(f, before, Named(e));
    SaidAll(Told(f, s, e)) + if Reports(f, s, e) then [Listing(before + [e])] else []
  }

  /** All that is to be in the log of a history, in order. */
  function Script(f: Flags, h: seq<Event>): seq<Note> {
    if h == [] then [] else Script(f, h[..|h| - 1]) + Notes(f, h[..|h| - 1], h[|h| - 1])
  }

  /** A usage report lists exactly the objects on record as alive, each once, under their number. */
  ghost predicate Fits(f: Flags, n: Note, r: Record) {
    match n
    case Said(x) => r == x
    case Listing(h) =>
      && r.Usage? && r.count == |r.objects|
      && (forall o :: o in r.objects <==> Recorded(f, h, o.addr) == Alive(o.size, o.producer))
      && (forall i, j :: 0 <= i < j < |r.objects| ==> r.objects[i].addr != r.objects[j].addr)
  }

  ghost predicate Follows(f: Flags, ns: seq<Note>, log: seq<Record>) {
    |ns| == |log| && forall i :: 0 <= i < |ns| ==> Fits(f, ns[i], log[i])
  }

  lemma FollowsMore(f: Flags, ns: seq<Note>, log: seq<Record>, ms: seq<Note>, more: seq<Record>)
    requires Follows(f, ns, log) && Follows(f, ms, more)
    ensures Follows(f, ns + ms, log + more)
  {
    hide Fits;
  }

  // ---- one call ---------------------------------------------------------

  /** The records a call adds to the log. */
  function Added(f: Flags, b: Books, e: Event): seq<Record> {
    var s := Listed(b.elems, Named(e));
    var o := Step(f, b, e);
    Told(f, s, e) + if Reports(f, s, e) && o.Done? then [Report(o.books)] else []
  }

  function LogOf(o: Outcome): seq<Record> {
    match o
    case Done(b) => b.log
    case Stopped(log) => log
  }

  lemma SameReport(b: Books, log: seq<Record>)
    ensures Report(b.(log := log)) == Report(b)
  {
  }

  lemma EnterLog(f: Flags, b: Books, a: Word, size: Word, who: Action)
    requires Listed(b.elems, a).Unknown?
    ensures Enter(f, b, a, size, who).Done? && Enter(f, b, a, size, who).books.log == b.log
    ensures EnterAndReport(f, b, a, size, who).Done?
    ensures var b' := EnterAndReport(f, b, a, size, who).books;
            b'.log == b.log + if f.usage then [Report(b')] else []
  {
    hide Find, Report;
    var b' := Enter(f, b, a, size, who).books;
    SameReport(b', b'.log + [Report(b')]);
  }

  lemma UsageLog(f: Flags, b: Books)
    ensures WithUsage(f, b).log == b.log + if f.usage then [Report(WithUsage(f, b))] else []
  {
    hide Report;
    SameReport(b, b.log + [Report(b)]);
  }

  lemma ConsumerAdds(f: Flags, b: Books, who: Action, a: Word)
    requires a == 0 ==> Listed(b.elems, a).Unknown?
    requires ConsumerStep(f, b, who, a).Done?
    ensures LogOf(Step(f, b, ConsumerCall(who, a))) == b.log + Added(f, b, ConsumerCall(who, a))
  {
    hide Find, Live, Produced, Released, Report, Distinct;
    var i := Find(b.elems, a);
    if a != 0 && i < |b.elems| && b.elems[i].consumer.None? {
      var b1 := b.(log := b.log + Diagnose(b.elems, who, a));
      UsageLog(f, Delete(f, WithRelease(f, b1, b.elems[i].size), i, who));
    }
  }

  lemma ReallocAdds(f: Flags, b: Books, a: Word, size: Word, r: Word)
    requires a == 0 ==> Listed(b.elems, a).Unknown?
    requires f.free && Listed(b.elems, a) != Unknown ==> Listed(b.elems, a).Alive?
    requires r == 0 || Listed(b.elems, r).Unknown? || (f.free && r == a)
    requires Listed(b.elems, a).Alive? ==> b.active > 0
    ensures LogOf(Step(f, b, ReallocCall(a, size, r))) == b.log + Added(f, b, ReallocCall(a, size, r))
  {
    hide Live, Produced, Released, Report, Distinct, EnterAndReport, Enter;
    var i := Find(b.elems, a);
    var ds, s := Diagnose(b.elems, Realloc, a), Listed(b.elems, a);
    var b1 := b.(log := b.log + ds);
    assert ds == Deserved(s, Realloc, a);
    var o := Step(f, b, ReallocCall(a, size, r));
    var zero := if a == 0 || s.Unknown? then Zero(Realloc, 0, 0, size) else Zero(Realloc, a, s.size, size);
    assert b.log + ds == b.log + (ds + [] + []) && b.log + ds + [zero] == b.log + (ds + [zero] + []);
    if o.Done? {
      assert b.log + ds + [Report(o.books)] == b.log + (ds + [] + [Report(o.books)]);
    }
    if a == 0 {
      ReallocAddsNull(f, b, size, r);
    } else if i == |b.elems| {
      if !f.free && r != 0 {
        EnterLog(f, b1, r, size, Realloc);
      }
    } else if f.free {
      MoveAdds(f, b1, i, size, r);
      assert s == EntryStatus(b.elems[i]);
    } else {
      CopyAdds(f, b1, i, size, r);
      assert s == EntryStatus(b.elems[i]);
    }
  }

  lemma ReallocAddsNull(f: Flags, b: Books, size: Word, r: Word)
    requires r == 0 || Listed(b.elems, r).Unknown?
    ensures LogOf(Step(f, b, ReallocCall(0, size, r))) == b.log + Added(f, b, ReallocCall(0, size, r))
  {
    hide Live, Report, EnterAndReport, Enter, Find;
    if r != 0 {
      EnterLog(f, b, r, size, Realloc);
    }
  }

  lemma MoveAdds(f: Flags, b: Books, i: nat, size: Word, r: Word)
    requires i < |b.elems| && b.elems[i].consumer.None?
    ensures var o := MoveEntry(f, b, i, size, r);
            LogOf(o) == b.log + if r == 0 then [Zero(Realloc, b.elems[i].addr, b.elems[i].size, size)]
                                else if f.usage then [Report(o.books)] else []
  {
    hide Live, Produced, Released, Report;
    if r != 0 {
      var b1 := WithRelease(f, b, b.elems[i].size);
      UsageLog(f, b1.(elems := b.elems[i := Entry(r, size, Realloc, None)],
                      stats := if f.stats then Produced(b1.stats, size) else b1.stats));
    }
  }

  lemma CopyAdds(f: Flags, b: Books, i: nat, size: Word, r: Word)
    requires i < |b.elems| && b.elems[i].addr != 0 && r != b.elems[i].addr
    requires i == Find(b.elems, b.elems[i].addr) && (r == 0 || Listed(b.elems, r).Unknown?)
    requires b.elems[i].consumer.None? ==> b.active > 0
    ensures var o := CopyEntry(f, b, i, size, r);
            LogOf(o) == b.log + if r == 0 then [Zero(Realloc, b.elems[i].addr, b.elems[i].size, size)]
                                else if f.usage && b.elems[i].consumer.None? then [Report(o.books)] else []
    ensures r != 0 && b.elems[i].consumer.None? ==> CopyEntry(f, b, i, size, r).Done?
  {
    hide Live, Produced, Released, Report, EnterAndReport;
    if r != 0 && b.elems[i].consumer.None? {
      var b1 := Delete(f, WithRelease(f, b, b.elems[i].size), i, Realloc);
      StillUnlisted(f, b.elems, i, r);
      EnterLog(f, b1, r, size, Realloc);
    }
  }

  lemma StillUnlisted(f: Flags, es: seq<Entry>, i: nat, r: Word)
    requires i < |es| && Listed(es, r).Unknown?
    ensures Listed(Remove(es, i), r).Unknown? && Listed(es[i := Consume(es[i], Realloc)], r).Unknown?
  {
    forall j | 0 <= j < |Remove(es, i)|
      ensures Remove(es, i)[j].addr != r
    {
      assert Remove(es, i)[j] == if j < i then es[j] else es[j + 1];
    }
  }

  /** What one call adds to the log, completed or not, is what the record calls for. */
  lemma StepAdds(f: Flags, h: seq<Event>, b: Books, e: Event)
    requires Faithful(f, h, b) && FreshResult(f, h, e)
    ensures LogOf(Step(f, b, e)) == b.log + Added(f, b, e)
    ensures Listed(b.elems, Named(e)) == Recorded(f, h, Named(e))
  {
    hide Find, Live, Report, EnterAndReport, Enter, ReallocStep, ConsumerStep, Added, Deserved, Distinct, Recorded;
    ZeroUnknown(f, h);
    assert forall a :: Listed(b.elems, a) == Recorded(f, h, a);
    match e {
      case MallocCall(size, r) => MallocAdds(f, b, size, r);
      case CallocCall(n, size, r) => CallocAdds(f, b, n, size, r);
      case ConsumerCall(who, a) => ConsumerNeverStops(f, h, b, who, a); ConsumerAdds(f, b, who, a);
      case ReallocCall(a, size, r) => ListedAlive(f, h, b, a); ReallocAdds(f, b, a, size, r);
      case UsageCall => UsageAdds(f, b);
    }
  }

  lemma MallocAdds(f: Flags, b: Books, size: Word, r: Word)
    requires r == 0 || Listed(b.elems, r).Unknown?
    ensures LogOf(Step(f, b, MallocCall(size, r))) == b.log + Added(f, b, MallocCall(size, r))
  {
    hide Live, Report, EnterAndReport, Enter, Find;
    if r != 0 {
      EnterLog(f, b, r, size, Malloc);
    }
  }

  lemma CallocAdds(f: Flags, b: Books, n: Word, size: Word, r: Word)
    requires r == 0 || Listed(b.elems, r).Unknown?
    ensures LogOf(Step(f, b, CallocCall(n, size, r))) == b.log + Added(f, b, CallocCall(n, size, r))
  {
    hide Live, Report, EnterAndReport, Enter, Find, Wrap;
    if r != 0 {
      EnterLog(f, b, r, Wrap(n * size), Calloc);
    }
  }

  lemma UsageAdds(f: Flags, b: Books)
    ensures LogOf(Step(f, b, UsageCall)) == b.log + Added(f, b, UsageCall)
  {
    hide Report;
    SameReport(b, b.log + [Report(b)]);
  }

  lemma ConsumerNeverStops(f: Flags, h: seq<Event>, b: Books, who: Action, a: Word)
    requires Faithful(f, h, b)
    ensures ConsumerStep(f, b, who, a).Done?
  {
    StopsIff(f, h, b, ConsumerCall(who, a));
  }

  lemma ListedAlive(f: Flags, h: seq<Event>, b: Books, a: Word)
    requires Faithful(f, h, b)
    ensures f.free ==> !Listed(b.elems, a).Gone?
    ensures Listed(b.elems, a).Alive? ==> b.active > 0
  {
    LiveShorter(b.elems);
    var i := Find(b.elems, a);
    if i < |b.elems| && b.elems[i].consumer.None? {
      LivePositive(b.elems, i);
    }
  }

  // ---- whole runs -------------------------------------------------------

  lemma ReportFits(f: Flags, h: seq<Event>, b: Books)
    requires Faithful(f, h, b)
    ensures Fits(f, Listing(h), Report(b))
  {
    hide Live, Recorded;
    LiveMembers(b.elems);
    var r := Report(b);
    forall o
      ensures o in r.objects <==> Recorded(f, h, o.addr) == Alive(o.size, o.producer)
    {
      assert Listed(b.elems, o.addr) == Recorded(f, h, o.addr);
      LeakListed(b, o);
      LeakIsObject(b, o);
    }
  }

  lemma LeakIsObject(b: Books, o: Object)
    ensures Leak(o) in Leaks(b) <==> o in Objects(Live(b.elems))
  {
    hide Live;
    var os, ls := Objects(Live(b.elems)), Leaks(b);
    if o in os {
      var i :| 0 <= i < |os| && os[i] == o;
      assert ls[i] == Leak(o);
    }
  }

  lemma AddedFits(f: Flags, h: seq<Event>, b: Books, e: Event)
    requires Faithful(f, h, b) && FreshResult(f, h, e)
    requires Step(f, b, e).Stopped? ==> !Reports(f, Recorded(f, h, Named(e)), e)
    ensures Follows(f, Notes(f, h, e), Added(f, b, e))
  {
    hide Step, Report, Recorded, Told, Reports, Listed;
    StepAdds(f, h, b, e);
    var s := Recorded(f, h, Named(e));
    if Reports(f, s, e) {
      StepFaithful(f, h, b, e);
      ReportFits(f, h + [e], Step(f, b, e).books);
    }
  }

  /** A call that ends the run is followed by no report. */
  lemma StoppedReportsNothing(f: Flags, h: seq<Event>, b: Books, e: Event)
    requires Faithful(f, h, b) && FreshResult(f, h, e) && Step(f, b, e).Stopped?
    ensures !Reports(f, Recorded(f, h, Named(e)), e)
  {
    hide Step, Recorded, Faithful;
    StopsIff(f, h, b, e);
    ZeroUnknown(f, h);
  }

  /** Over every run with fresh results the log is, record by record, what the history calls for. */
  lemma {:induction false} ScriptFollowed(f: Flags, h: seq<Event>)
    requires FreshResults(f, h) && Replay(f, h).Done?
    ensures Follows(f, Script(f, h), Replay(f, h).books.log)
  {
    if h != [] {
      var before, e := h[..|h| - 1], h[|h| - 1];
      ScriptFollowed(f, before);
      ReplayFaithful(f, before);
      CallFollows(f, before, Replay(f, before).books, e);
    }
  }

  /** So is the log of a run that a call ends. */
  lemma EndFollowed(f: Flags, h: seq<Event>, e: Event)
    requires FreshResults(f, h + [e]) && Replay(f, h).Done?
    ensures Follows(f, Script(f, h + [e]), LogOf(Replay(f, h + [e])))
  {
    assert (h + [e])[..|h|] == h;
    ScriptFollowed(f, h);
    ReplayFaithful(f, h);
    CallFollows(f, h, Replay(f, h).books, e);
  }

  lemma CallFollows(f: Flags, h: seq<Event>, b: Books, e: Event)
    requires Faithful(f, h, b) && FreshResult(f, h, e) && Follows(f, Script(f, h), b.log)
    ensures Follows(f, Script(f, h) + Notes(f, h, e), LogOf(Step(f, b, e)))
  {
    hide Script, Notes, Added, Follows, Faithful, Step, Recorded;
    if Step(f, b, e).Stopped? {
      StoppedReportsNothing(f, h, b, e);
    }
    AddedFits(f, h, b, e);
    StepAdds(f, h, b, e);
    FollowsMore(f, Script(f, h), b.log, Notes(f, h, e), Added(f, b, e));
  }

  // ---- closing ----------------------------------------------------------

  /** The bytes of the objects that leak records name. */
  function Lost(ls: seq<Record>): int {
    if ls == [] then 0 else (if ls[0].Leak? then ls[0].what.size else 0) + Lost(ls[1..])
  }

  /** `ls` reports exactly the objects on record as alive, each once. */
  ghost predicate LeaksAre(f: Flags, h: seq<Event>, ls: seq<Record>) {
    && (forall i :: 0 <= i < |ls| ==> ls[i].Leak?)
    && (forall o :: Leak(o) in ls <==> Recorded(f, h, o.addr) == Alive(o.size, o.producer))
    && LeaksOnce(ls)
  }

  /** `end` is the record of the statistics, if they are kept; they count what is leaked. */
  ghost predicate EndsWith(f: Flags, h: seq<Event>, ls: seq<Record>, end: seq<Record>) {
    if f.stats then
      |end| == 1 && end[0].Statistics? && Statistical(f, h, end[0].stats) && end[0].stats.now == Stat(Lost(ls), |ls|)
    else end == []
  }

  /** The whole log of a session: what the history calls for, then the leaks, then the statistics. */
  ghost predicate Complete(f: Flags, h: seq<Event>, log: seq<Record>) {
    exists run: seq<Record>, ls: seq<Record>, end: seq<Record> ::
      log == run + (ls + end) && Follows(f, Script(f, h), run) && LeaksAre(f, h, ls) && EndsWith(f, h, ls, end)
  }

  /** Closing completes the log. */
  lemma ClosedIsComplete(f: Flags, h: seq<Event>)
    requires FreshResults(f, h) && Replay(f, h).Done?
    ensures var b := Replay(f, h).books; Complete(f, h, b.log + Closing(f, b))
  {
    hide Replay, Recorded, Leaks, Script, Statistical, FreshResults;
    var b := Replay(f, h).books;
    ScriptFollowed(f, h);
    LeaksAgree(f, h);
    var end := if f.stats then [Statistics(b.stats)] else [];
    if f.stats {
      StatisticsAre(f, h);
      NowIsLive(f, h);
      LostIsSpace(b);
    }
    assert Closing(f, b) == Leaks(b) + end;
  }

  lemma LostIsSpace(b: Books)
    ensures Lost(Leaks(b)) == Space(Live(b.elems)) && |Leaks(b)| == |Live(b.elems)|
  {
    LostSizes(Live(b.elems), Leaks(b));
  }

  lemma {:induction false} LostSizes(es: seq<Entry>, ls: seq<Record>)
    requires |ls| == |es| && forall i :: 0 <= i < |es| ==> ls[i] == Leak(ObjectOf(es[i]))
    ensures Lost(ls) == Space(es)
  {
    if es != [] {
      LostSizes(es[1..], ls[1..]);
    }
  }

  /** A complete log holds one record of the statistics, the last, if they are kept, and none otherwise. */
  lemma StatisticsOnce(f: Flags, h: seq<Event>, log: seq<Record>)
    requires Complete(f, h, log)
    ensures forall i :: 0 <= i < |log| ==> (log[i].Statistics? <==> f.stats && i == |log| - 1)
    ensures f.stats ==> log != [] && Statistical(f, h, log[|log| - 1].stats)
  {
    hide Script, Statistical, Fits, Recorded;
    var run: seq<Record>, ls: seq<Record>, end: seq<Record> :|
      log == run + (ls + end) && Follows(f, Script(f, h), run) && LeaksAre(f, h, ls) && EndsWith(f, h, ls, end);
    forall i | 0 <= i < |run|
      ensures !run[i].Statistics?
    {
      ScriptIsPlain(f, h, i);
      FitsPlain(f, Script(f, h)[i], run[i]);
    }
  }

  ghost predicate Plain(n: Note) {
    n.Said? ==> !n.record.Statistics? && !n.record.Leak? && !n.record.Usage?
  }

  lemma FitsPlain(f: Flags, n: Note, r: Record)
    requires Plain(n) && Fits(f, n, r)
    ensures !r.Statistics? && !r.Leak?
  {
  }

  lemma {:induction false} ScriptIsPlain(f: Flags, h: seq<Event>, i: nat)
    requires i < |Script(f, h)|
    ensures Plain(Script(f, h)[i])
  {
    hide Notes, Plain;
    var before, e := h[..|h| - 1], h[|h| - 1];
    if i < |Script(f, before)| {
      ScriptIsPlain(f, before, i);
    } else {
      NotesArePlain(f, before, e, i - |Script(f, before)|);
    }
  }

  lemma NotesArePlain(f: Flags, before: seq<Event>, e: Event, i: nat)
    requires i < |Notes(f, before, e)|
    ensures Plain(Notes(f, before, e)[i])
  {
    hide Recorded;
  }
}

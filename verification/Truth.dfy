/** What the target really has, by the history of its calls alone, and when the findings agree with it.
    Under -f the tracker enters nothing for a realloc of an unknown address, although the target gets an
    object from it (src/mut.c:1235-1240); everything else agrees. */
module Truth {
  import opened Words
  import opened Ledger
  import opened History
  import opened Findings

  /** What there is at an address, last event first. */
  function StatusOf(f: Flags, h: seq<Event>, a: Word): Status
    decreases |h|, 0
  {
    if h == [] then Unknown else StatusAfter(f, h[..|h| - 1], h[|h| - 1], a)
  }

  function StatusAfter(f: Flags, before: seq<Event>, e: Event, a: Word): Status
    decreases |before|, 2
  {
    match e
    case MallocCall(size, r) => if r == a && a != 0 then Alive(size, Malloc) else StatusOf(f, before, a)
    case CallocCall(n, size, r) => if r == a && a != 0 then Alive(Wrap(n * size), Calloc) else StatusOf(f, before, a)
    case ConsumerCall(who, x) =>
      if x == a && StatusOf(f, before, a).Alive? then AfterFree(f, StatusOf(f, before, a).size, who)
      else StatusOf(f, before, a)
    case ReallocCall(x, size, r) =>
      if r == a && a != 0 then Alive(size, Realloc)
      else if x == a && r != 0 && StatusOf(f, before, a).Alive? then AfterFree(f, StatusOf(f, before, a).size, Realloc)
      else StatusOf(f, before, a)
    case UsageCall => StatusOf(f, before, a)
  }

  /** The allocator returns nothing that is in use and, when memory is kept, nothing it ever returned
      before.  A real realloc may return its argument. */
  ghost predicate Honest(f: Flags, h: seq<Event>) {
    h == [] || (Honest(f, h[..|h| - 1]) && HonestResult(f, h[..|h| - 1], h[|h| - 1]))
  }

  ghost predicate HonestResult(f: Flags, before: seq<Event>, e: Event) {
    match e
    case MallocCall(_, r) => r == 0 || StatusOf(f, before, r).Unknown?
    case CallocCall(_, _, r) => r == 0 || StatusOf(f, before, r).Unknown?
    case ReallocCall(x, _, r) => r == 0 || StatusOf(f, before, r).Unknown? || (f.free && r == x)
    case _ => true
  }

  // ---- statuses in terms of single events -------------------------------

  /** Event `i` gives the target an object at `a`. */
  predicate Gives(h: seq<Event>, i: nat, a: Word)
    requires i < |h|
  {
    match h[i]
    case MallocCall(_, r) => r == a && a != 0
    case CallocCall(_, _, r) => r == a && a != 0
    case ReallocCall(x, _, r) => r == a && a != 0
    case _ => false
  }

  /** Event `i` takes the object at `a`, if there is one, away. */
  predicate Takes(h: seq<Event>, i: nat, a: Word)
    requires i < |h|
  {
    match h[i]
    case ConsumerCall(_, x) => x == a
    case ReallocCall(x, _, r) => x == a && r != 0 && r != a
    case _ => false
  }

  ghost predicate LastGiven(h: seq<Event>, i: nat, a: Word) {
    i < |h| && Gives(h, i, a) && forall j :: i < j < |h| ==> !Takes(h, j, a)
  }

  /** An address is alive exactly when some call produced it and none since consumed it. */
  lemma {:induction false} AliveIff(f: Flags, h: seq<Event>, a: Word)
    ensures StatusOf(f, h, a).Alive? <==> exists i :: LastGiven(h, i, a)
  {
    if h != [] {
      var n, before := |h| - 1, h[..|h| - 1];
      AliveIff(f, before, a);
      EventsOfPrefix(h, n, a);
      ZeroUnknown(f, before);
      if Gives(h, n, a) {
        assert LastGiven(h, n, a);
      } else if Takes(h, n, a) {
        assert forall i :: LastGiven(h, i, a) ==> i == n;
      } else {
        assert forall i :: LastGiven(before, i, a) ==> LastGiven(h, i, a);
        assert forall i :: LastGiven(h, i, a) ==> i != n && LastGiven(before, i, a);
      }
    }
  }

  /** When memory is kept, an address is unknown exactly when no call ever produced it. */
  lemma {:induction false} UnknownIff(f: Flags, h: seq<Event>, a: Word)
    requires !f.free
    ensures StatusOf(f, h, a).Unknown? <==> forall i :: 0 <= i < |h| ==> !Gives(h, i, a)
  {
    if h != [] {
      var n, before := |h| - 1, h[..|h| - 1];
      UnknownIff(f, before, a);
      EventsOfPrefix(h, n, a);
      assert forall i :: 0 <= i < n ==> (Gives(h, i, a) <==> Gives(before, i, a));
      assert StatusOf(f, h, a).Unknown? <==> StatusOf(f, before, a).Unknown? && !Gives(h, n, a);
    }
  }

  lemma EventsOfPrefix(h: seq<Event>, n: nat, a: Word)
    requires n <= |h|
    ensures forall i :: 0 <= i < n ==> (Gives(h, i, a) <==> Gives(h[..n], i, a))
    ensures forall i :: 0 <= i < n ==> (Takes(h, i, a) <==> Takes(h[..n], i, a))
  {
    forall i | 0 <= i < n
      ensures h[..n][..i] == h[..i] && h[..n][i] == h[i]
    {
    }
  }

  lemma {:induction false} NothingAtZero(f: Flags, h: seq<Event>)
    ensures StatusOf(f, h, 0).Unknown?
  {
    if h != [] {
      NothingAtZero(f, h[..|h| - 1]);
    }
  }

  // ---- the record against the truth -------------------------------------

  /** The target has an object there that the tracker does not know of. */
  ghost predicate Hidden(f: Flags, h: seq<Event>, a: Word) {
    f.free && StatusOf(f, h, a).Alive? && Recorded(f, h, a).Unknown?
  }

  /** The record is right about an address. */
  ghost predicate Right(f: Flags, h: seq<Event>, a: Word) {
    StatusOf(f, h, a) == Recorded(f, h, a)
  }

  lemma LastEvent(f: Flags, h: seq<Event>, a: Word)
    requires h != []
    ensures StatusOf(f, h, a) == StatusAfter(f, h[..|h| - 1], h[|h| - 1], a)
    ensures Recorded(f, h, a) == RecordedAfter(f, h[..|h| - 1], h[|h| - 1], a)
  {
  }

  /** Of every address the record is right, or it misses an object. */
  lemma {:induction false} RightOrHidden(f: Flags, h: seq<Event>, a: Word)
    requires Honest(f, h)
    ensures Right(f, h, a) || Hidden(f, h, a)
  {
    if h != [] {
      var before, e := h[..|h| - 1], h[|h| - 1];
      LastEvent(f, h, a);
      RightOrHidden(f, before, a);
      if e.ReallocCall? {
        RightOrHidden(f, before, e.addr);
        ReallocRightOrHidden(f, before, e.addr, e.size, e.result, a);
      } else {
        hide StatusOf, Recorded;
      }
    }
  }

  lemma ReallocRightOrHidden(f: Flags, before: seq<Event>, x: Word, size: Word, r: Word, a: Word)
    requires Right(f, before, a) || Hidden(f, before, a)
    requires Right(f, before, x) || Hidden(f, before, x)
    requires HonestResult(f, before, ReallocCall(x, size, r))
    ensures var e := ReallocCall(x, size, r);
            var s, t := StatusAfter(f, before, e, a), RecordedAfter(f, before, e, a);
            s == t || (f.free && s.Alive? && t.Unknown?)
  {
    hide StatusOf, Recorded;
  }

  lemma {:induction false} HonestIsFresh(f: Flags, h: seq<Event>)
    requires Honest(f, h)
    ensures FreshResults(f, h)
  {
    if h != [] {
      var before, e := h[..|h| - 1], h[|h| - 1];
      HonestIsFresh(f, before);
      if !e.ConsumerCall? && !e.UsageCall? {
        RightOrHidden(f, before, e.result);
        hide StatusOf, Recorded;
      }
    }
  }

  /** Event `i` gives the target an object that the tracker does not enter. */
  ghost predicate Escapes(f: Flags, h: seq<Event>, i: nat)
    requires i < |h|
  {
    && f.free && h[i].ReallocCall? && h[i].addr != 0 && h[i].result != 0
    && StatusOf(f, h[..i], h[i].addr).Unknown?
  }

  ghost predicate NothingEscapes(f: Flags, h: seq<Event>) {
    forall i :: 0 <= i < |h| ==> !Escapes(f, h, i)
  }

  lemma EscapesBefore(f: Flags, h: seq<Event>)
    requires h != []
    ensures NothingEscapes(f, h) <==> NothingEscapes(f, h[..|h| - 1]) && !Escapes(f, h, |h| - 1)
  {
    var before := h[..|h| - 1];
    forall i {:trigger Escapes(f, h, i)} {:trigger Escapes(f, before, i)} | 0 <= i < |before|
      ensures Escapes(f, h, i) <==> Escapes(f, before, i)
    {
      assert before[..i] == h[..i];
    }
    hide Escapes;
    if NothingEscapes(f, before) && !Escapes(f, h, |before|) {
      forall i | 0 <= i < |h|
        ensures !Escapes(f, h, i)
      {
        if i < |before| {
          assert !Escapes(f, before, i);
        }
      }
    }
  }

  /** If nothing escapes the record is right about everything. */
  lemma {:induction false} RightIfNothingEscapes(f: Flags, h: seq<Event>, a: Word)
    requires Honest(f, h) && NothingEscapes(f, h)
    ensures Right(f, h, a)
  {
    if h != [] {
      var before, e := h[..|h| - 1], h[|h| - 1];
      EscapesBefore(f, h);
      LastEvent(f, h, a);
      RightIfNothingEscapes(f, before, a);
      if e.ReallocCall? {
        RightIfNothingEscapes(f, before, e.addr);
      }
      hide StatusOf, Recorded;
    }
  }

  // ---- the diagnoses that are due ---------------------------------------

  /** The diagnosis a call deserves. */
  function DueFor(f: Flags, before: seq<Event>, e: Event): seq<Record> {
    match e
    case ConsumerCall(who, a) => Deserved(StatusOf(f, before, a), who, a)
    case ReallocCall(a, _, _) => Deserved(StatusOf(f, before, a), Realloc, a)
    case _ => []
  }

  /** All diagnoses a history deserves, in order. */
  function Due(f: Flags, h: seq<Event>): seq<Record> {
    if h == [] then [] else Due(f, h[..|h| - 1]) + DueFor(f, h[..|h| - 1], h[|h| - 1])
  }

  /** Nothing due is missing; a call that names a hidden object gets a diagnosis that is not due. */
  lemma DueForCall(f: Flags, before: seq<Event>, e: Event)
    requires Honest(f, before)
    ensures |DueFor(f, before, e)| <= |DeservedBy(f, before, e)|
    ensures (e.ConsumerCall? || e.ReallocCall?) && Right(f, before, e.addr) ==>
              DueFor(f, before, e) == DeservedBy(f, before, e)
    ensures (e.ConsumerCall? || e.ReallocCall?) && Hidden(f, before, e.addr) ==>
              |DueFor(f, before, e)| < |DeservedBy(f, before, e)|
  {
    NothingAtZero(f, before);
    if e.ConsumerCall? || e.ReallocCall? {
      RightOrHidden(f, before, e.addr);
    }
  }

  /** Event `i` names an object that the tracker does not know of. */
  ghost predicate NamesHidden(f: Flags, h: seq<Event>, i: nat)
    requires i < |h|
  {
    (h[i].ConsumerCall? || h[i].ReallocCall?) && Hidden(f, h[..i], h[i].addr)
  }

  ghost predicate NothingMisnamed(f: Flags, h: seq<Event>) {
    forall i :: 0 <= i < |h| ==> !NamesHidden(f, h, i)
  }

  /** The diagnoses the record calls for are those due exactly when no call names a hidden object; what the
      last call returns does not matter. */
  lemma {:induction false} DueIff(f: Flags, h: seq<Event>)
    requires h == [] || Honest(f, h[..|h| - 1])
    ensures |Due(f, h)| <= |Expected(f, h)|
    ensures Due(f, h) == Expected(f, h) <==> NothingMisnamed(f, h)
  {
    if h != [] {
      var before, e := h[..|h| - 1], h[|h| - 1];
      DueIff(f, before);
      DueForCall(f, before, e);
      NamesHiddenBefore(f, h);
      if e.ConsumerCall? || e.ReallocCall? {
        RightOrHidden(f, before, e.addr);
      }
      hide Due, Expected, DueFor, DeservedBy, NothingMisnamed, Honest;
      DueSplit(f, h);
    }
  }

  lemma DueSplit(f: Flags, h: seq<Event>)
    requires h != []
    requires |Due(f, h[..|h| - 1])| <= |Expected(f, h[..|h| - 1])|
    requires |DueFor(f, h[..|h| - 1], h[|h| - 1])| <= |DeservedBy(f, h[..|h| - 1], h[|h| - 1])|
    ensures |Due(f, h)| <= |Expected(f, h)|
    ensures Due(f, h) == Expected(f, h) <==>
            && Due(f, h[..|h| - 1]) == Expected(f, h[..|h| - 1])
            && DueFor(f, h[..|h| - 1], h[|h| - 1]) == DeservedBy(f, h[..|h| - 1], h[|h| - 1])
  {
    hide DueFor, DeservedBy;
    var xs, ys := Due(f, h[..|h| - 1]), DueFor(f, h[..|h| - 1], h[|h| - 1]);
    var xs', ys' := Expected(f, h[..|h| - 1]), DeservedBy(f, h[..|h| - 1], h[|h| - 1]);
    if xs + ys == xs' + ys' {
      assert xs == (xs + ys)[..|xs|] && xs' == (xs' + ys')[..|xs'|];
      assert ys == (xs + ys)[|xs|..] && ys' == (xs' + ys')[|xs'|..];
    }
  }

  lemma NamesHiddenBefore(f: Flags, h: seq<Event>)
    requires h != []
    ensures NothingMisnamed(f, h) <==> NothingMisnamed(f, h[..|h| - 1]) && !NamesHidden(f, h, |h| - 1)
  {
    var before := h[..|h| - 1];
    forall i {:trigger NamesHidden(f, h, i)} {:trigger NamesHidden(f, before, i)} | 0 <= i < |before|
      ensures NamesHidden(f, h, i) <==> NamesHidden(f, before, i)
    {
      assert before[..i] == h[..i];
    }
    hide NamesHidden;
    if NothingMisnamed(f, before) && !NamesHidden(f, h, |before|) {
      forall i | 0 <= i < |h|
        ensures !NamesHidden(f, h, i)
      {
        if i < |before| {
          assert !NamesHidden(f, before, i);
        }
      }
    }
  }

  /** The diagnoses of a session, whose calls up to `last` were handled completely, are those the record
      calls for; over an honest allocator they are those due exactly when no call names a hidden object. */
  ghost predicate Accurate(f: Flags, h: seq<Event>, last: Event, log: seq<Record>) {
    && (FreshResults(f, h) ==> Diagnoses(log) == Expected(f, h + [last]))
    && (Honest(f, h) ==> (Diagnoses(log) == Due(f, h + [last]) <==> NothingMisnamed(f, h + [last])))
  }

  lemma LogIsAccurate(f: Flags, h: seq<Event>, last: Event, log: seq<Record>)
    requires Replay(f, h).Done?
    requires var b := Replay(f, h).books; Diagnoses(log) == Diagnoses(b.log) + DiagnosisOf(b.elems, last)
    ensures Accurate(f, h, last, log)
  {
    hide Replay, Diagnoses, DiagnosisOf, Expected, Due, NothingMisnamed, Honest, FreshResults;
    if FreshResults(f, h) {
      LastDiagnosis(f, h, last);
    }
    if Honest(f, h) {
      HonestIsFresh(f, h);
      assert (h + [last])[..|h + [last]| - 1] == h;
      DueIff(f, h + [last]);
    }
  }

  /** A run that ends in the realloc of an object consumed before has that realloc reported last. */
  lemma EndsWithFfm(f: Flags, h: seq<Event>, e: Event)
    requires Honest(f, h) && Replay(f, h).Done? && e.ReallocCall? && StatusOf(f, h, e.addr).Gone?
    ensures Replay(f, h + [e]).Stopped?
    ensures Expected(f, h + [e]) == Expected(f, h) + [Ffm(Realloc, e.addr, StatusOf(f, h, e.addr).consumer)]
  {
    assert (h + [e])[..|h|] == h;
    HonestIsFresh(f, h);
    RightOrHidden(f, h, e.addr);
    NothingAtZero(f, h);
    ReplayFaithful(f, h);
    var b := Replay(f, h).books;
    assert Listed(b.elems, e.addr) == Recorded(f, h, e.addr);
    hide StatusOf, Recorded, Honest;
  }

  lemma {:induction false} DueIfNothingEscapes(f: Flags, h: seq<Event>)
    requires Honest(f, h) && NothingEscapes(f, h)
    ensures Due(f, h) == Expected(f, h)
  {
    if h != [] {
      var before, e := h[..|h| - 1], h[|h| - 1];
      EscapesBefore(f, h);
      DueIfNothingEscapes(f, before);
      if e.ConsumerCall? || e.ReallocCall? {
        RightIfNothingEscapes(f, before, e.addr);
      }
      DueForCall(f, before, e);
    }
  }

  /** Once something has escaped, an object is hidden or a diagnosis was made that was not due. */
  ghost predicate Astray(f: Flags, h: seq<Event>) {
    |Due(f, h)| < |Expected(f, h)| || exists a :: Hidden(f, h, a)
  }

  lemma {:induction false} AstrayOnceEscaped(f: Flags, h: seq<Event>)
    requires Honest(f, h)
    ensures |Due(f, h)| <= |Expected(f, h)|
    ensures !NothingEscapes(f, h) ==> Astray(f, h)
  {
    if h != [] {
      var before, e := h[..|h| - 1], h[|h| - 1];
      AstrayOnceEscaped(f, before);
      EscapesBefore(f, h);
      DueForCall(f, before, e);
      if !NothingEscapes(f, before) {
        if a :| Hidden(f, before, a) {
          StaysHidden(f, h, a);
        }
      } else if Escapes(f, h, |h| - 1) {
        EscapedIsHidden(f, h);
      }
    }
  }

  /** A hidden object stays hidden until a call names it, which is then diagnosed wrongly. */
  lemma StaysHidden(f: Flags, h: seq<Event>, a: Word)
    requires Honest(f, h) && h != [] && Hidden(f, h[..|h| - 1], a)
    ensures Hidden(f, h, a) ||
            ((h[|h| - 1].ConsumerCall? || h[|h| - 1].ReallocCall?) && h[|h| - 1].addr == a)
  {
    LastEvent(f, h, a);
    NothingAtZero(f, h[..|h| - 1]);
    hide StatusOf, Recorded;
  }

  lemma EscapedIsHidden(f: Flags, h: seq<Event>)
    requires Honest(f, h) && h != [] && Escapes(f, h, |h| - 1)
    ensures Hidden(f, h, h[|h| - 1].result)
  {
    var before, e := h[..|h| - 1], h[|h| - 1];
    LastEvent(f, h, e.result);
    RightOrHidden(f, before, e.addr);
    RightOrHidden(f, before, e.result);
    hide StatusOf, Recorded;
  }

  // ---- the log of a session ---------------------------------------------

  /** The diagnoses are those due, and the leaks are the objects still alive, each of them once. */
  ghost predicate Truthful(f: Flags, h: seq<Event>, log: seq<Record>) {
    && Diagnoses(log) == Due(f, h)
    && (forall o :: Leak(o) in log <==> StatusOf(f, h, o.addr) == Alive(o.size, o.producer))
    && LeaksOnce(log)
  }

  /** The log of a closed tracker over an honest allocator is the truth exactly when nothing has escaped:
      always without -f, and with it when no realloc of an unknown address succeeded. */
  lemma TruthfulIff(f: Flags, h: seq<Event>)
    requires Honest(f, h) && Replay(f, h).Done?
    ensures var b := Replay(f, h).books; Truthful(f, h, b.log + Closing(f, b)) <==> NothingEscapes(f, h)
    ensures !f.free ==> NothingEscapes(f, h)
  {
    HonestIsFresh(f, h);
    ClosedLog(f, h);
    var b := Replay(f, h).books;
    var log := b.log + Closing(f, b);
    if NothingEscapes(f, h) {
      DueIfNothingEscapes(f, h);
      forall a
        ensures Right(f, h, a)
      {
        RightIfNothingEscapes(f, h, a);
      }
      TrueIfRight(f, h, log);
    } else {
      AstrayOnceEscaped(f, h);
      UntrueIfAstray(f, h, log);
    }
  }

  lemma TrueIfRight(f: Flags, h: seq<Event>, log: seq<Record>)
    requires AsRecorded(f, h, log) && Due(f, h) == Expected(f, h) && forall a :: Right(f, h, a)
    ensures Truthful(f, h, log)
  {
    hide LeaksOnce, Diagnoses, Due, Expected, StatusOf, Recorded;
    forall o
      ensures Leak(o) in log <==> StatusOf(f, h, o.addr) == Alive(o.size, o.producer)
    {
      assert Right(f, h, o.addr);
    }
  }

  lemma UntrueIfAstray(f: Flags, h: seq<Event>, log: seq<Record>)
    requires AsRecorded(f, h, log) && Astray(f, h)
    ensures !Truthful(f, h, log)
  {
    hide LeaksOnce, Diagnoses, Due, Expected, StatusOf, Recorded;
    if a :| Hidden(f, h, a) {
      var s := StatusOf(f, h, a);
      var o := Object(s.producer, a, s.size);
      assert Leak(o) !in log;
    }
  }

  /** A history of an honest allocator under -f: realloc of an unknown address gives the target an object,
      and freeing that object is reported as an error. */
  lemma FalseAlarm(f: Flags)
    requires f.free
    ensures var h := [ReallocCall(8, 4, 16), ConsumerCall(Free, 16)];
            && Honest(f, h) && Replay(f, h).Done?
            && Replay(f, h).books.log == [Fum(Realloc, 8), Fum(Free, 16)] && Due(f, h) == [Fum(Realloc, 8)]
            && StatusOf(f, h[..1], 16) == Alive(4, Realloc)
            && Leaks(Replay(f, h[..1]).books) == []
  {
    var h, h1 := [ReallocCall(8, 4, 16), ConsumerCall(Free, 16)], [ReallocCall(8, 4, 16)];
    assert h[..|h| - 1] == h1 && h1[..|h1| - 1] == [];
    LastEvent(f, h1, 16);
    assert StatusOf(f, h1, 16) == Alive(4, Realloc);
    assert Honest(f, h1) && Honest(f, h);
    var b := EMPTY.(log := [Fum(Realloc, 8)]);
    assert Replay(f, []) == Done(EMPTY);
    assert Replay(f, h1) == Step(f, EMPTY, h1[0]) == Done(b);
    assert Replay(f, h) == Step(f, b, h[1]);
    assert Due(f, []) == [];
    assert Due(f, h1) == Due(f, []) + DueFor(f, [], h1[0]) == [Fum(Realloc, 8)];
    assert Due(f, h) == Due(f, h1) + DueFor(f, h1, h[1]) == [Fum(Realloc, 8)];
  }

  /** A run ends in a call exactly when it is a realloc that returns zero, unless under -f of an address
      that has no object or a hidden one, or one of an object consumed before. */
  lemma EndsIff(f: Flags, h: seq<Event>, e: Event)
    requires Honest(f, h + [e]) && Replay(f, h).Done?
    ensures Replay(f, h + [e]).Stopped? <==>
            && e.ReallocCall?
            && (|| (e.result == 0 &&
                    !(f.free && e.addr != 0 && (StatusOf(f, h, e.addr).Unknown? || Hidden(f, h, e.addr))))
                || StatusOf(f, h, e.addr).Gone?)
  {
    assert (h + [e])[..|h|] == h;
    HonestIsFresh(f, h + [e]);
    Findings.EndsIff(f, h, e);
    if e.ReallocCall? {
      RightOrHidden(f, h, e.addr);
    }
    hide StatusOf, Recorded, Replay;
  }
}

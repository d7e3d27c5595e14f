/** The tracker itself (src/mut.c): it runs the target from breakpoint to breakpoint, handles each
    allocation call it stops at, and keeps the books of module Ledger.  Safety zones (the -c
    control) are in module Zones. */
module Trackers {
  import opened Words
  import opened Memory
  import opened WordCopy
  import opened Backtraces
  import opened FrameWalk
  import opened Processes
  import opened ResourceLists
  import opened Breakpoints
  import L = Ledger
  import F = Findings

  datatype Kind = MallocKind | CallocKind | ReallocKind | ConsumerKind(who: L.Action) | UsageKind

  /** A registered function: its address, what to do there, and the word its breakpoint overwrote. */
  datatype Registered = Registered(addr: Word, kind: Kind, instr: Quad)

  function Addrs(actions: seq<Registered>): (addrs: seq<Word>)
    ensures |addrs| == |actions| && forall i :: 0 <= i < |actions| ==> addrs[i] == actions[i].addr
  {
    seq(|actions|, i requires 0 <= i < |actions| => actions[i].addr)
  }

  function Instrs(actions: seq<Registered>): (ss: seq<Quad>)
    ensures |ss| == |actions| && forall i :: 0 <= i < |actions| ==> ss[i] == actions[i].instr
  {
    seq(|actions|, i requires 0 <= i < |actions| => actions[i].instr)
  }

  /** What is registered where. */
  datatype Place = Place(addr: Word, kind: Kind)

  function Registry(actions: seq<Registered>): (places: seq<Place>)
    ensures |places| == |actions|
    ensures forall i :: 0 <= i < |actions| ==> places[i] == Place(actions[i].addr, actions[i].kind)
  {
    seq(|actions|, i requires 0 <= i < |actions| => Place(actions[i].addr, actions[i].kind))
  }

  // ---- the calls a target makes, from the stops it comes to -------------

  function KindAt(places: seq<Place>, a: Word): Option<Kind> {
    if places == [] then None else if places[0].addr == a then Some(places[0].kind) else KindAt(places[1..], a)
  }

  lemma {:induction false} KindFound(places: seq<Place>, i: nat, a: Word)
    requires i <= |places| && forall j :: 0 <= j < i ==> places[j].addr != a
    requires i < |places| ==> places[i].addr == a
    ensures KindAt(places, a) == if i < |places| then Some(places[i].kind) else None
  {
    if i != 0 {
      KindFound(places[1..], i - 1, a);
    }
  }

  /** Argument `n` of the function the target has just entered. */
  function Arg(s: Stop, n: nat): Word {
    var a := Wrap(s.regs.esp + 4 + 4 * n);
    if Mapped(s.data, a) then Number(Peek(s.data, a), false) else 0
  }

  /** The call made at a stop, given its result. */
  function CallAt(kind: Kind, s: Stop, r: Word): L.Event {
    match kind
    case MallocKind => L.MallocCall(Arg(s, 0), r)
    case CallocKind => L.CallocCall(Arg(s, 0), Arg(s, 1), r)
    case ReallocKind => L.ReallocCall(Arg(s, 0), Arg(s, 1), r)
    case ConsumerKind(who) => L.ConsumerCall(who, Arg(s, 0))
    case UsageKind => L.UsageCall
  }

  /** Calls that the target is not let run: those that would free something while memory is kept. */
  predicate Skipped(free: bool, kind: Kind, s: Stop) {
    kind.ConsumerKind? && !free && Arg(s, 0) != 0
  }

  /** The history of completed calls, from the stops alone: a stop at a registered function and, unless
      the call was skipped, the stop at its return. */
  function CallsOf(free: bool, places: seq<Place>, stops: seq<Stop>): seq<L.Event> {
    if stops == [] then []
    else
      var n := |stops| - 1;
      var s := stops[n];
      if s.handled.Some? then
        if n > 0 && KindAt(places, stops[n - 1].pc).Some? then
          CallsOf(free, places, stops[..n - 1])
          + [CallAt(KindAt(places, stops[n - 1].pc).value, stops[n - 1], s.regs.eax)]
        else []
      else if KindAt(places, s.pc).Some? && Skipped(free, KindAt(places, s.pc).value, s) then
        CallsOf(free, places, stops[..n]) + [CallAt(KindAt(places, s.pc).value, s, 0)]
      else
        CallsOf(free, places, stops[..n])
  }

  /** The address that the function entered at a stop returns to. */
  function ReturnOf(s: Stop): Word {
    if Mapped(s.data, s.regs.esp) then Number(Peek(s.data, s.regs.esp), false) else 0
  }

  /** What a completed handler adds to the stops: the one at the return address, where the target arrives with
      these registers and this data, unless the call was skipped. */
  ghost predicate Returned(before: seq<Stop>, after: seq<Stop>, skipped: bool, ra: Word, regs: Registers, m: Memory) {
    after == before + if skipped then [] else [Stop(ra, regs, m, Some(ra))]
  }

  /** What any handler adds to the stops: at most one, met while the function ran. */
  ghost predicate PerhapsReturned(before: seq<Stop>, after: seq<Stop>, ra: Word, regs: Registers) {
    || after == before
    || (&& |after| == |before| + 1 && after[..|before|] == before
        && after[|before|].handled == Some(ra) && after[|before|].regs.eax == regs.eax)
  }

  /** The first `n` stops are those of the history; the rest belong to the call under way, if there is one.
      That is `last`, unless its arguments could not be read.  Its result is in the stop after, if the target
      has come there. */
  ghost predicate UnderHand(free: bool, places: seq<Place>, stops: seq<Stop>, n: nat, h: seq<L.Event>, last: L.Event) {
    && n <= |stops| <= n + 2
    && h == CallsOf(free, places, stops[..n])
    && if n == |stops| then last == L.UsageCall else MadeAt(places, stops[n..], last)
  }

  ghost predicate MadeAt(places: seq<Place>, stops: seq<Stop>, e: L.Event)
    requires 1 <= |stops| <= 2
  {
    && stops[0].handled.None? && KindAt(places, stops[0].pc).Some?
    && (|stops| == 2 ==> stops[1].handled == Some(ReturnOf(stops[0])))
    && (|| e == L.UsageCall
        || e == CallAt(KindAt(places, stops[0].pc).value, stops[0],
                       if |stops| == 2 then stops[1].regs.eax else L.ResultOf(e)))
  }

  lemma CallAtHand(free: bool, places: seq<Place>, before: seq<Stop>, s: Stop, after: seq<Stop>, kind: Kind,
                   regs: Registers, e: L.Event)
    requires s.handled.None? && KindAt(places, s.pc) == Some(kind)
    requires PerhapsReturned(before + [s], after, ReturnOf(s), regs)
    requires e == L.UsageCall || e == CallAt(kind, s, regs.eax)
    ensures UnderHand(free, places, after, |before|, CallsOf(free, places, before), e)
    ensures after == before + [s] <==> |after| == |before| + 1
  {
    hide CallsOf, KindAt, Arg, ReturnOf;
    assert (before + [s])[..|before|] == before;
    if after != before + [s] {
      assert after[..|before| + 1][..|before|] == after[..|before|];
      assert after[|before|] == after[..|before| + 1][|before|];
    }
  }

  lemma NoCallAtHand(free: bool, places: seq<Place>, stops: seq<Stop>)
    ensures UnderHand(free, places, stops, |stops|, CallsOf(free, places, stops), L.UsageCall)
  {
    assert stops[..|stops|] == stops;
  }

  /** No diagnosis has been added to a log. */
  ghost predicate Quiet(before: seq<L.Record>, after: seq<L.Record>) {
    before <= after && F.Diagnoses(after) == F.Diagnoses(before)
  }

  lemma QuietMore(log: seq<L.Record>, r: L.Record)
    requires !r.Fum? && !r.Ffm?
    ensures Quiet(log, log + [r])
  {
    F.DiagnosesConcat(log, [r]);
    assert [r][1..] == [];
  }

  /** A diagnosis is added and, later, other records. */
  lemma DiagnosisAdded(log: seq<L.Record>, es: seq<L.Entry>, who: L.Action, a: Word, after: seq<L.Record>)
    requires Quiet(log + L.Diagnose(es, who, a), after)
    ensures log <= after && F.Diagnoses(after) == F.Diagnoses(log) + L.Diagnose(es, who, a)
  {
    var ds := L.Diagnose(es, who, a);
    F.DiagnosesConcat(log, ds);
    assert |ds| <= 1;
    if ds != [] {
      assert ds[1..] == [];
    }
  }

  /** One handled call more in the stops is one more in the history. */
  lemma OneCallMore(free: bool, places: seq<Place>, before: seq<Stop>, s: Stop, after: seq<Stop>, kind: Kind,
                    regs: Registers, m: Memory)
    requires s.handled.None? && KindAt(places, s.pc) == Some(kind)
    requires Returned(before + [s], after, Skipped(free, kind, s), ReturnOf(s), regs, m)
    ensures CallsOf(free, places, after) == CallsOf(free, places, before) + [CallAt(kind, s, regs.eax)]
  {
    hide ReturnOf, Arg;
    assert (before + [s])[..|before|] == before;
    if Skipped(free, kind, s) {
      assert after == before + [s];
    } else {
      assert after[..|after| - 2] == before && after[|after| - 2] == s;
    }
  }

  /** A stop anywhere else adds nothing. */
  lemma NoCallThere(free: bool, places: seq<Place>, before: seq<Stop>, s: Stop)
    requires s.handled.None? && KindAt(places, s.pc).None?
    ensures CallsOf(free, places, before + [s]) == CallsOf(free, places, before)
  {
    assert (before + [s])[..|before|] == before;
  }

  // ---- registering ------------------------------------------------------

  /** A function the target has is registered unless something is registered at its address already. */
  function Register(places: seq<Place>, kind: Kind, fn: Option<Word>): seq<Place> {
    if fn.None? || KindAt(places, fn.value).Some? then places else [Place(fn.value, kind)] + places
  }

  /** What is known of the functions the tracker handles. */
  datatype Symbols = Symbols(malloc: Option<Word>, calloc: Option<Word>, realloc: Option<Word>,
                             free: Option<Word>, cfree: Option<Word>, usage: Option<Word>)

  function Places(s: Symbols): seq<Place> {
    Register(Register(Register(Register(Register(Register([],
      MallocKind, s.malloc), CallocKind, s.calloc), ReallocKind, s.realloc),
      ConsumerKind(L.Free), s.free), ConsumerKind(L.Cfree), s.cfree), UsageKind, s.usage)
  }

  lemma RegisterMore(places: seq<Place>, kind: Kind, fn: Option<Word>, a: Word)
    ensures KindAt(Register(places, kind, fn), a) ==
            if KindAt(places, a).Some? then KindAt(places, a) else if fn == Some(a) then Some(kind) else None
  {
    if fn.Some? {
      assert ([Place(fn.value, kind)] + places)[1..] == places;
    }
  }

  /** Each function is handled as what it is; of functions at one address the first counts. */
  lemma PlacesExact(s: Symbols, a: Word)
    ensures KindAt(Places(s), a) ==
            if s.malloc == Some(a) then Some(MallocKind)
            else if s.calloc == Some(a) then Some(CallocKind)
            else if s.realloc == Some(a) then Some(ReallocKind)
            else if s.free == Some(a) then Some(ConsumerKind(L.Free))
            else if s.cfree == Some(a) then Some(ConsumerKind(L.Cfree))
            else if s.usage == Some(a) then Some(UsageKind)
            else None
  {
    var p1 := Register([], MallocKind, s.malloc);
    var p2 := Register(p1, CallocKind, s.calloc);
    var p3 := Register(p2, ReallocKind, s.realloc);
    var p4 := Register(p3, ConsumerKind(L.Free), s.free);
    var p5 := Register(p4, ConsumerKind(L.Cfree), s.cfree);
    RegisterMore([], MallocKind, s.malloc, a);
    RegisterMore(p1, CallocKind, s.calloc, a);
    RegisterMore(p2, ReallocKind, s.realloc, a);
    RegisterMore(p3, ConsumerKind(L.Free), s.free, a);
    RegisterMore(p4, ConsumerKind(L.Cfree), s.cfree, a);
    RegisterMore(p5, UsageKind, s.usage, a);
  }

  /** How a handler ends: completely, with an error return, or in a failed assertion. */
  datatype Result = Handled | Failed | Aborted

  datatype Start = Start(text: Memory, trail: seq<Resumption>, events: seq<Event>, stops: seq<Stop>,
                         pc: Word, regs: Registers)

  datatype RunResult = TargetGone | RunFailed | RunAborted

  lemma EntriesOfUpdate(rs: seq<Resource>, i: nat, r: Resource)
    requires i < |rs|
    ensures Entries(rs[i := r]) == Entries(rs)[i := r.entry]
  {
  }

  lemma EntriesOfRemoval(rs: seq<Resource>, i: nat)
    requires i < |rs|
    ensures Entries(rs[..i] + rs[i + 1..]) == L.Remove(Entries(rs), i)
  {
  }

  lemma EntriesOfPrepend(rs: seq<Resource>, rs': seq<Resource>)
    requires rs != [] && rs[1..] == rs'
    ensures Entries(rs) == [rs[0].entry] + Entries(rs')
  {
    forall i | 0 <= i < |rs'|
      ensures rs[i + 1] == rs'[i]
    {
      assert rs[1..][i] == rs[i + 1];
    }
  }

  /** With backtraces a resource has its producer's, and its consumer's once it is consumed. */
  ghost predicate TypedOne(r: Resource, backtraces: bool) {
    if backtraces then r.producerBt != null && (r.entry.consumer.Some? ==> r.consumerBt != null)
    else r.producerBt == null && r.consumerBt == null
  }

  ghost predicate AllTyped(rs: seq<Resource>, backtraces: bool) {
    forall i :: 0 <= i < |rs| ==> TypedOne(rs[i], backtraces)
  }

  lemma TypedUpdate(rs: seq<Resource>, i: nat, r: Resource, backtraces: bool)
    requires i < |rs| && AllTyped(rs, backtraces) && TypedOne(r, backtraces)
    ensures AllTyped(rs[i := r], backtraces)
  {
  }

  lemma TypedRemoval(rs: seq<Resource>, i: nat, backtraces: bool)
    requires i < |rs| && AllTyped(rs, backtraces)
    ensures AllTyped(rs[..i] + rs[i + 1..], backtraces)
  {
  }

  lemma TypedMember(rs: seq<Resource>, r: Resource, backtraces: bool)
    requires AllTyped(rs, backtraces) && r in rs
    ensures TypedOne(r, backtraces)
  {
  }

  // ---- whose backtraces they are ----------------------------------------

  /** What is registered where, and the stops the target has come to so far. */
  datatype Past = Past(places: seq<Place>, stops: seq<Stop>)

  /** The function that produces for `who`. */
  function ProducerKind(who: L.Action): Kind {
    match who
    case Malloc => MallocKind
    case Calloc => CallocKind
    case _ => ReallocKind
  }

  /** A call of this kind consumes for `who`. */
  predicate Consumes(kind: Kind, who: L.Action) {
    kind == ConsumerKind(who) || (kind.ReallocKind? && who.Realloc?)
  }

  /** The size asked for at a stop. */
  function Asked(s: Stop, who: L.Action): Word {
    match who
    case Malloc => Arg(s, 0)
    case Calloc => Wrap(Arg(s, 0) * Arg(s, 1))
    case _ => Arg(s, 1)
  }

  /** Stop `n` was at a function of this kind, and a backtrace made there holds `frames`. */
  ghost predicate WalkedAt(past: Past, n: nat, kind: Kind, frames: seq<Word>) {
    && n < |past.stops| && past.stops[n].handled.None? && KindAt(past.places, past.stops[n].pc) == Some(kind)
    && Walk(past.stops[n].data, past.stops[n].regs.esp, past.stops[n].regs.ebp) == Some(frames)
  }

  /** The call at stop `n` asked for `size` bytes, and got them at `a` when it returned, at the next stop. */
  ghost predicate ProducedAt(past: Past, n: nat, a: Word, size: Word, who: L.Action, frames: seq<Word>) {
    && WalkedAt(past, n, ProducerKind(who), frames) && Asked(past.stops[n], who) == size
    && n + 1 < |past.stops| && past.stops[n + 1].handled.Some? && past.stops[n + 1].regs.eax == a
  }

  /** The call at stop `n` was to consume what is at `a`. */
  ghost predicate ConsumedAt(past: Past, n: nat, a: Word, who: L.Action, kind: Kind, frames: seq<Word>) {
    Consumes(kind, who) && WalkedAt(past, n, kind, frames) && Arg(past.stops[n], 0) == a
  }

  ghost predicate ByProducer(past: Past, a: Word, size: Word, who: L.Action, bt: Backtrace?) {
    bt != null ==> exists n: nat :: ProducedAt(past, n, a, size, who, bt.due)
  }

  ghost predicate ByConsumer(past: Past, a: Word, who: L.Action, bt: Backtrace?) {
    bt != null ==> exists n: nat, kind :: ConsumedAt(past, n, a, who, kind, bt.due)
  }

  /** The backtraces of a resource are those of the calls that produced and consumed it. */
  ghost predicate TracedOne(r: Resource, past: Past) {
    && ByProducer(past, r.entry.addr, r.entry.size, r.entry.producer, r.producerBt)
    && (r.entry.consumer.Some? ==> ByConsumer(past, r.entry.addr, r.entry.consumer.value, r.consumerBt))
  }

  ghost predicate AllTraced(rs: seq<Resource>, past: Past) {
    forall i :: 0 <= i < |rs| ==> TracedOne(rs[i], past)
  }

  lemma NothingTraced(past: Past)
    ensures AllTraced([], past)
  {
  }

  lemma TracedUpdate(rs: seq<Resource>, i: nat, r: Resource, past: Past)
    requires i < |rs| && AllTraced(rs, past) && TracedOne(r, past)
    ensures AllTraced(rs[i := r], past)
  {
  }

  lemma TracedRemoval(rs: seq<Resource>, i: nat, past: Past)
    requires i < |rs| && AllTraced(rs, past)
    ensures AllTraced(rs[..i] + rs[i + 1..], past)
  {
    hide TracedOne;
  }

  lemma TracedPrepend(rs: seq<Resource>, r: Resource, past: Past)
    requires AllTraced(rs, past) && r.producerBt == null && r.consumerBt == null
    ensures AllTraced([r] + rs, past)
  {
  }

  lemma TracedNew(past: Past, a: Word, size: Word, who: L.Action, bt: Backtrace?)
    requires ByProducer(past, a, size, who, bt)
    ensures TracedOne(Resource(L.Entry(a, size, who, None), bt, null), past)
  {
  }

  lemma TracedConsumed(r: Resource, past: Past, who: L.Action, bt: Backtrace?)
    requires TracedOne(r, past) && ByConsumer(past, r.entry.addr, who, bt)
    ensures TracedOne(r.(entry := L.Consume(r.entry, who), consumerBt := bt), past)
  {
    hide ByProducer, ByConsumer;
  }

  /** Later stops change nothing. */
  ghost predicate Later(past: Past, past': Past) {
    past'.places == past.places && |past.stops| <= |past'.stops| && past'.stops[..|past.stops|] == past.stops
  }

  lemma LaterStop(past: Past, past': Past, n: nat)
    requires Later(past, past') && n < |past.stops|
    ensures past'.stops[n] == past.stops[n]
  {
    assert past'.stops[..|past.stops|][n] == past'.stops[n];
  }

  lemma ByProducerLater(past: Past, past': Past, a: Word, size: Word, who: L.Action, bt: Backtrace?)
    requires Later(past, past') && ByProducer(past, a, size, who, bt)
    ensures ByProducer(past', a, size, who, bt)
  {
    hide Asked, KindAt, Walk, ProducerKind;
    if bt != null {
      var n: nat :| ProducedAt(past, n, a, size, who, bt.due);
      LaterStop(past, past', n);
      LaterStop(past, past', n + 1);
      assert ProducedAt(past', n, a, size, who, bt.due);
    }
  }

  lemma ByConsumerLater(past: Past, past': Past, a: Word, who: L.Action, bt: Backtrace?)
    requires Later(past, past') && ByConsumer(past, a, who, bt)
    ensures ByConsumer(past', a, who, bt)
  {
    hide Arg, KindAt, Walk;
    if bt != null {
      var n: nat, kind :| ConsumedAt(past, n, a, who, kind, bt.due);
      LaterStop(past, past', n);
      assert ConsumedAt(past', n, a, who, kind, bt.due);
    }
  }

  lemma TracedLater(rs: seq<Resource>, past: Past, past': Past)
    requires AllTraced(rs, past) && Later(past, past')
    ensures AllTraced(rs, past')
  {
    hide ByProducer, ByConsumer, Later;
    forall i | 0 <= i < |rs|
      ensures TracedOne(rs[i], past')
    {
      var e := rs[i].entry;
      assert TracedOne(rs[i], past);
      ByProducerLater(past, past', e.addr, e.size, e.producer, rs[i].producerBt);
      if e.consumer.Some? {
        ByConsumerLater(past, past', e.addr, e.consumer.value, rs[i].consumerBt);
      }
    }
  }

  lemma ReturnedIsLater(places: seq<Place>, before: seq<Stop>, after: seq<Stop>, ra: Word, regs: Registers)
    requires PerhapsReturned(before, after, ra, regs)
    ensures Later(Past(places, before), Past(places, after))
  {
    assert before[..|before|] == before;
  }

  lemma ArrivedIsLater(places: seq<Place>, before: seq<Stop>, after: seq<Stop>, ra: Word, regs: Registers, m: Memory)
    requires Returned(before, after, false, ra, regs, m)
    ensures Later(Past(places, before), Past(places, after))
  {
  }

  lemma StillTraced(rs: seq<Resource>, places: seq<Place>, before: seq<Stop>, after: seq<Stop>, ra: Word,
                    regs: Registers)
    requires AllTraced(rs, Past(places, before)) && PerhapsReturned(before, after, ra, regs)
    ensures AllTraced(rs, Past(places, after))
  {
    hide AllTraced, Later, PerhapsReturned;
    ReturnedIsLater(places, before, after, ra, regs);
    TracedLater(rs, Past(places, before), Past(places, after));
  }

  /** The producer at the last stop, once it has returned. */
  lemma ProducedHere(past: Past, before: seq<Stop>, ra: Word, regs: Registers, m: Memory, size: Word,
                     who: L.Action, bt: Backtrace?)
    requires before != [] && Returned(before, past.stops, false, ra, regs, m)
    requires bt != null ==> WalkedAt(Past(past.places, before), |before| - 1, ProducerKind(who), bt.due)
    requires Asked(before[|before| - 1], who) == size
    ensures ByProducer(past, regs.eax, size, who, bt)
  {
    hide Asked, KindAt, Walk, ProducerKind;
    if bt != null {
      assert past.stops[..|before|] == before;
      LaterStop(Past(past.places, before), past, |before| - 1);
      assert ProducedAt(past, |before| - 1, regs.eax, size, who, bt.due);
    }
  }

  /** An object entered with the backtrace of its producer, in a new resource or, without backtraces, one
      that is listed. */
  lemma NewTraced(rs: seq<Resource>, rs1: seq<Resource>, i: nat, a: Word, size: Word, who: L.Action,
                  bt: Backtrace?, past: Past)
    requires AllTraced(rs, past) && ByProducer(past, a, size, who, bt)
    requires AllTyped(rs, bt != null) && i < |rs1| && rs1[i].producerBt == null
    requires L.Find(Entries(rs), a) < |rs| ==> i == L.Find(Entries(rs), a) && rs1 == rs
    requires L.Find(Entries(rs), a) == |rs| ==>
               && i == 0 && rs1[1..] == rs && rs1[0].entry.addr == a
               && rs1[0].entry.consumer.None? && rs1[0].consumerBt == null
    ensures AllTraced(rs1[i := Resource(rs1[i].entry.(producer := who, size := size), bt, rs1[i].consumerBt)], past)
  {
    hide L.Find, Entries, AllTraced;
    var r := Resource(rs1[i].entry.(producer := who, size := size), bt, rs1[i].consumerBt);
    if L.Find(Entries(rs), a) < |rs| {
      assert TypedOne(rs[i], bt != null);
    } else {
      assert rs1 == [rs1[0]] + rs;
      TracedPrepend(rs, rs1[0], past);
    }
    hide AllTyped, TypedOne;
    TracedUpdate(rs1, i, r, past);
  }

  /** A new resource becomes typed when its producer is set. */
  lemma TypedEnter(rs: seq<Resource>, rs': seq<Resource>, r: Resource, backtraces: bool)
    requires rs' != [] && rs'[1..] == rs && AllTyped(rs, backtraces) && TypedOne(r, backtraces)
    ensures AllTyped(rs'[0 := r], backtraces)
  {
    var rs2 := rs'[0 := r];
    forall k | 0 <= k < |rs2|
      ensures TypedOne(rs2[k], backtraces)
    {
      if k != 0 {
        assert rs'[k] == rs'[1..][k - 1];
      }
    }
  }

  /** Creating a resource and making it produced is entering an object in the books. */
  lemma Entered(f: L.Flags, b: L.Books, rs: seq<Resource>, rs1: seq<Resource>, i: nat, a: Word, size: Word,
                who: L.Action, bt: Backtrace?, b': L.Books, rs': seq<Resource>)
    requires b.elems == Entries(rs) && AllTyped(rs, f.backtrace) && (bt != null <==> f.backtrace)
    requires i < |rs1| && rs1[i].producerBt == null
    requires L.Find(Entries(rs), a) < |rs| ==> i == L.Find(Entries(rs), a) && rs1 == rs && b'.active == b.active
    requires L.Find(Entries(rs), a) == |rs| ==> i == 0 && rs1[1..] == rs && b'.active == b.active + 1
    requires L.Find(Entries(rs), a) == |rs| ==>
               rs1[0].entry.addr == a && rs1[0].entry.consumer.None? && rs1[0].consumerBt == null
    requires rs' == rs1[i := Resource(rs1[i].entry.(producer := who, size := size), bt, rs1[i].consumerBt)]
    requires b'.elems == Entries(rs') && b'.consumed == b.consumed && b'.log == b.log
    requires b'.stats == if f.stats then L.Produced(b.stats, size) else b.stats
    ensures AllTyped(rs', f.backtrace)
    ensures L.Enter(f, b, a, size, who) == L.Done(b')
  {
    hide L.Find, L.Produced, Entries;
    var r' := Resource(rs1[i].entry.(producer := who, size := size), bt, rs1[i].consumerBt);
    if L.Find(Entries(rs), a) < |rs| {
      assert TypedOne(rs[i], f.backtrace);
      EntriesOfUpdate(rs, i, r');
      TypedUpdate(rs, i, r', f.backtrace);
    } else {
      EntriesOfPrepend(rs', rs);
      TypedEnter(rs, rs1, r', f.backtrace);
    }
  }

  /** Exactly a listed object with a backtrace cannot be entered again. */
  lemma TakenOver(f: L.Flags, b: L.Books, rs: seq<Resource>, a: Word, size: Word, who: L.Action)
    requires b.elems == Entries(rs) && AllTyped(rs, f.backtrace)
    ensures var i := L.Find(b.elems, a);
            L.Enter(f, b, a, size, who).Stopped? <==> i < |rs| && rs[i].producerBt != null
    ensures var i := L.Find(b.elems, a);
            i < |rs| && rs[i].producerBt != null ==>
              L.Enter(f, b, a, size, who) ==
              L.Stopped(b.log + if who.Realloc? then [] else [L.Twice(who, a, rs[i].entry.producer)])
  {
    var i := L.Find(b.elems, a);
    if i < |rs| {
      assert TypedOne(rs[i], f.backtrace);
    }
  }

  class Tracker {
    const process: Process
    const resources: Resources
    const flags: L.Flags
    /** The -z control: freed memory is zeroed. */
    const zero: bool
    var actions: seq<Registered>
    var stats: L.Stats
    var log: seq<L.Record>

    /** Backtraces are switched off when the target is not `traceable`. */
    constructor (process: Process, flags: L.Flags, zero: bool, traceable: bool)
      requires process.status == Stopped && !process.lost && !process.bigEndian
      ensures this.process == process && this.zero == zero
      ensures this.flags == flags.(backtrace := flags.backtrace && traceable)
      ensures fresh(resources) && Ready() && resources.owned == {}
      ensures actions == [] && CurrentBooks() == L.EMPTY
    {
      this.process, this.zero := process, zero;
      this.flags := flags.(backtrace := flags.backtrace && traceable);
      actions, stats, log := [], L.NO_STATS, [];
      resources := new Resources(flags.free);
    }

    function CurrentBooks(): L.Books
      reads this`stats, this`log, resources`elems, resources`nActive, resources`nConsumed
    {
      L.Books(Entries(resources.elems), resources.nActive, resources.nConsumed, stats, log)
    }

    /** With -b every resource has its producer's backtrace, and its consumer's once it is consumed;
        without, none has any. */
    ghost predicate Typed()
      reads resources`elems
    {
      AllTyped(resources.elems, flags.backtrace)
    }

    /** Where the functions are and where the target has stopped so far. */
    ghost function SoFar(): Past
      reads this`actions, process`stops
    {
      Past(Registry(actions), process.stops)
    }

    /** Every backtrace kept is that of the call that produced or consumed the object. */
    ghost predicate Traced()
      reads this`actions, process`stops, resources`elems
    {
      AllTraced(resources.elems, SoFar())
    }

    /** Every backtrace in use holds what was walked. */
    ghost predicate AllComplete()
      reads resources`owned, resources.owned, set bt | bt in resources.owned :: bt.frame
    {
      forall bt :: bt in resources.owned ==> bt.Complete()
    }

    ghost predicate Consistent()
      reads this`actions, process`lost, process`stops, resources, resources.owned
    {
      && resources.Accounts() && Typed() && Traced()
      && !process.lost && !process.bigEndian
      && resources.reallyFree == flags.free
    }

    /** Between two calls: the target is stopped and no handler holds a backtrace. */
    ghost predicate Ready()
      reads this`actions, process`lost, process`status, process`stops, resources, resources.owned
    {
      Consistent() && resources.held == null && process.status == Stopped
    }

    lemma LittleEndian()
      requires Ready()
      ensures !process.bigEndian && process.status == Stopped && !process.lost && Closable()
    {
    }

    /** What even a handler that fails leaves: backtraces are counted right, and a target that is not
        stopped or gone is one that the system lost. */
    ghost predicate Closable()
      reads process`lost, process`status, resources, resources.owned
    {
      resources.Accounts() && (process.status == Running <==> process.lost)
    }

    /** What a handler starts from, as far as running the target goes. */
    ghost function Origin(): Start
      reads process`text, process`trail, process`events, process`stops, process`pc, process`regs
    {
      Start(process.text, process.trail, process.events, process.stops, process.pc, process.regs)
    }

    /** While a call is handled the target runs, if at all, from where it stood, with this data and with
        nothing but the return address patched; after that it is only sent on after signals. */
    static ghost predicate RunsOf(from: Start, ra: Word, m: Memory, trail: seq<Resumption>, bp: Quad) {
      forall i :: |from.trail| <= i < |trail| ==>
        && trail[i].handled == Some(ra) && Mapped(from.text, ra) && trail[i].text == Poke(from.text, ra, bp)
        && trail[i].after == |from.stops|
        && (trail[i].signalled ||
            (i == |from.trail| && trail[i].regs == from.regs.(eip := from.pc) && trail[i].data == m))
    }

    /** What the target has done since a handler's start: it ran as that is to be, stopped once at most, and
        stands where the answers heard meanwhile have put it. */
    ghost predicate Guarded(from: Start, ra: Word, m: Memory)
      reads process`trail, process`events, process`status, process`lost, process`stops, process`regs
    {
      && PerhapsReturned(from.stops, process.stops, ra, process.regs)
      && Keeps(from.trail, process.trail)
      && process.Followed(from.events)
      && RunsOf(from, ra, m, process.trail, process.Breakpoint())
    }

    lemma NothingRun(ra: Word, m: Memory)
      requires process.status == Stopped && !process.lost
      ensures Guarded(Origin(), ra, m)
    {
      NothingHeard(process.events);
    }

    /** The target stands at the return address: it has come there, or the call was popped off its stack. */
    ghost predicate Back(before: seq<Stop>, ra: Word, was: Registers, skipped: bool)
      reads process`pc, process`regs, process`stops, process`arrived
    {
      && process.pc == ra
      && Returned(before, process.stops, skipped, ra, process.regs, process.arrived)
      && (skipped ==> process.regs == was.(esp := Wrap(was.esp + 4)))
    }

    // ---- the target's memory ----------------------------------------------

    /** Memory at a stop with argument 0 replaced by zero. */
    static function NullArg(s: Stop): Memory {
      var a := Wrap(s.regs.esp + 4);
      if Mapped(s.data, a) then Poke(s.data, a, ZEROS) else s.data
    }

    /** The data the called function runs on: that of the stop, except that realloc of an object becomes
        malloc when memory is kept, and that an object that is freed is zeroed before, with -z. */
    ghost function Passed(b: L.Books, kind: Kind, s: Stop): Memory {
      match kind
      case ReallocKind => if !flags.free && Arg(s, 0) != 0 then NullArg(s) else s.data
      case ConsumerKind(_) => Emptied(b, Arg(s, 0), s.data)
      case _ => s.data
    }

    /** Memory once a live object is zeroed, with -z, if all of it can be written. */
    ghost function Emptied(b: L.Books, a: Word, m: Memory): Memory {
      if zero && LiveAt(b, a) then
        match Fill(m, a, ZEROS, b.elems[L.Find(b.elems, a)].size, false)
        case Some(m') => m'
        case None => m
      else m
    }

    /** Argument 0 is zero then, and no other byte has changed. */
    static lemma NullArgBytes(s: Stop, x: Word)
      requires x in s.data && Mapped(s.data, Wrap(s.regs.esp + 4))
      ensures NullArg(s).Keys == s.data.Keys
      ensures var a := Wrap(s.regs.esp + 4); NullArg(s)[x] == if a <= x < a + 4 then 0 else s.data[x]
    {
    }

    /** What a completed call leaves of memory `m`, which the target has arrived with. */
    ghost predicate Leaves(b: L.Books, e: L.Event, m: Memory, m': Memory) {
      match e
      case ConsumerCall(_, a) => if a == 0 || flags.free then m' == m else Scrubbed(m, m', b.elems, a)
      case ReallocCall(a, size, r) => Moved(m, m', b.elems, a, size, r)
      case _ => m' == m
    }

    /** The system has refused something, or the tracker is out of memory. */
    ghost predicate Trouble()
      reads process`refused, resources`full
    {
      process.refused || resources.full
    }

    /** The call makes the tracker copy or zero a listed object a word at a time that is not aligned. */
    predicate Misaligned(b: L.Books, e: L.Event) {
      match e
      case ConsumerCall(_, a) => zero && LiveAt(b, a) && !Aligned(a)
      case ReallocCall(a, _, r) =>
        && LiveAt(b, a) && r != 0 && r != a
        && if flags.free then zero && !Aligned(a) else !Aligned(a) || !Aligned(r)
      case _ => false
    }

    predicate LiveAt(b: L.Books, a: Word) {
      var i := L.Find(b.elems, a);
      a != 0 && i < |b.elems| && b.elems[i].consumer.None?
    }

    /** A handler completes its call unless the system or the memory of the tracker fails it; it is aborted
        only by misaligned objects and calls that end runs, and then the log says no more than they do. */
    ghost predicate Excused(result: Result, b: L.Books, before: seq<Stop>, e: L.Event)
      reads this`log, process`refused, process`stops, resources`full
    {
      || result.Handled?
      || (result.Failed? && Trouble())
      || EndsIn(b, e, process.stops == before)
    }

    lemma Refused(b: L.Books, before: seq<Stop>, e: L.Event)
      requires Trouble()
      ensures Excused(Failed, b, before, e)
    {
    }

    lemma NoExcuse(b: L.Books, before: seq<Stop>, e: L.Event)
      ensures Excused(Handled, b, before, e)
    {
    }

    /** A call that has returned. */
    lemma HasReturned(result: Result, b: L.Books, before: seq<Stop>, ra: Word, regs: Registers, m: Memory, e: L.Event)
      requires Returned(before, process.stops, false, ra, regs, m)
      requires result.Handled? || (result.Failed? && Trouble()) || Ending(b, e)
      ensures Excused(result, b, before, e)
    {
      hide Ending;
    }

    /** The call ends the run; if it has not returned, with whatever result it might. */
    ghost predicate EndsIn(b: L.Books, e: L.Event, early: bool)
      reads this`log
    {
      if early then forall r :: Ending(b, L.WithResult(e, r)) else Ending(b, e)
    }

    ghost predicate Ending(b: L.Books, e: L.Event)
      reads this`log
    {
      (Misaligned(b, e) && log == b.log) || L.Step(flags, b, e) == L.Stopped(log)
    }

    /** `e` is the call of a function of this kind made at a stop, or nothing is known of the call yet. */
    ghost predicate Known(kind: Kind, s: Stop, e: L.Event)
      reads process`regs
    {
      e == L.UsageCall || e == CallAt(kind, s, process.regs.eax)
    }

    /** The arguments of the function entered at a stop can be read. */
    predicate Readable(kind: Kind, s: Stop) {
      match kind
      case UsageKind => true
      case CallocKind => ReadableArg(s, 0) && ReadableArg(s, 1)
      case ReallocKind => ReadableArg(s, 0) && ReadableArg(s, 1)
      case _ => ReadableArg(s, 0)
    }

    predicate ReadableArg(s: Stop, n: nat) {
      Mapped(s.data, Wrap(s.regs.esp + 4 + 4 * n))
    }

    /** What every handler of a call of this kind, made at stop `s` when the books were `b`, comes to: the
        target ran as it should, the address was diagnosed, and the call is completed - the step of the ledger
        taken, the target back at the return address with its text as it was, its memory as the call leaves
        it - or there is an excuse. */
    ghost predicate Outcome(result: Result, kind: Kind, from: Start, s: Stop, b: L.Books, e: L.Event)
      reads this`stats, this`log, process, resources
    {
      && Guarded(from, ReturnOf(s), Passed(b, kind, s))
      && Excused(result, b, from.stops, e) && Known(kind, s, e)
      && b.log <= log && F.Diagnoses(log) == F.Diagnoses(b.log) + L.DiagnosisOf(b.elems, e)
      && (result.Handled? ==> Completed(kind, from, s, b, e))
    }

    ghost predicate Completed(kind: Kind, from: Start, s: Stop, b: L.Books, e: L.Event)
      reads this`stats, this`log, resources`elems, resources`nActive, resources`nConsumed
      reads process`text, process`pc, process`regs, process`stops, process`arrived, process`data
    {
      Readable(kind, s) && process.text == from.text && Settled(kind, from.stops, from.regs, s, b, e)
    }

    /** A call made at stop `s` is over: the books have taken its step, the target is back. */
    ghost predicate Settled(kind: Kind, before: seq<Stop>, was: Registers, s: Stop, b: L.Books, e: L.Event)
      reads this`stats, this`log, resources`elems, resources`nActive, resources`nConsumed
      reads process`pc, process`regs, process`stops, process`arrived, process`data
    {
      var skipped := Skipped(flags.free, kind, s);
      && e == CallAt(kind, s, process.regs.eax)
      && L.Step(flags, b, e) == L.Done(CurrentBooks())
      && Back(before, ReturnOf(s), was, skipped)
      && Leaves(b, e, if skipped then s.data else process.arrived, process.data)
    }

    /** A handler that is refused something before it knows its call. */
    lemma NothingKnown(kind: Kind, from: Start, s: Stop, b: L.Books)
      requires Guarded(from, ReturnOf(s), Passed(b, kind, s)) && Trouble() && log == b.log
      ensures Outcome(Failed, kind, from, s, b, L.UsageCall)
    {
      hide Guarded, Passed;
    }

    // ---- running the called function --------------------------------------

    method DoAction(ra: Word) returns (ok: bool)
      requires process.status == Stopped && !process.lost && Traced()
      modifies process
      ensures Guarded(old(Origin()), ra, old(process.data))
      ensures ok ==> process.status == Stopped && !process.lost && Traced()
      ensures ok ==> process.text == old(process.text) && process.arrived == process.data
      ensures ok ==> Back(old(process.stops), ra, old(process.regs), false)
      ensures process.status == Running <==> process.lost
      ensures !ok ==> process.refused
    {
      hide Poke, Peek, Mapped, Bytes, Ongoing, Ended, CutOff, Continued, Guarded, RunsOf, AllTraced;
      NothingRun(ra, process.data);
      ghost var from, m := Origin(), process.data;
      var armed, instr := process.SetBreakpoint(ra);
      if !armed {
        return false;
      }
      ok := process.Resume(Some(ra));
      if !ok {
        StillGuarded(from, ra, m);
        return false;
      }
      ok := AwaitReturn(ra, from);
      if !ok {
        return;
      }
      PokeBack(old(process.text), ra, process.Breakpoint());
      ok := process.Restore(ra, instr);
    }

    /** Waits until the target has come back from the function. */
    method AwaitReturn(ra: Word, ghost from: Start) returns (ok: bool)
      requires process.status == Running && !process.lost && process.regs == from.regs.(eip := from.pc)
      requires Mapped(from.text, ra) && process.text == Poke(from.text, ra, process.Breakpoint())
      requires process.trail == from.trail + [process.Setting(Some(ra), false)]
      requires process.events == from.events && process.stops == from.stops && Traced()
      modifies process`status, process`pc, process`regs, process`data, process`events, process`trail, process`lost
      modifies process`arrived, process`refused, process`stops, process`denials
      ensures Guarded(from, ra, old(process.data))
      ensures ok ==> process.status == Stopped && !process.lost && Traced()
      ensures ok ==> process.arrived == process.data && Back(from.stops, ra, from.regs, false)
      ensures process.status == Running <==> process.lost
      ensures !ok ==> process.refused
    {
      hide Poke, Peek, Mapped, Bytes, Ongoing, Ended, CutOff, Continued, Guarded, RunsOf, AllTraced;
      ghost var r, r' := process.Setting(Some(ra), false), process.Setting(Some(ra), true);
      var w := process.Wait(Some(ra));
      RunOn(from.trail, process.trail, r, r');
      OnePatchGuarded(from, ra, r);
      ok := w.AtBreakpoint? && w.pc == ra;
      if ok {
        StillTraced(resources.elems, Registry(actions), from.stops, process.stops, ra, process.regs);
      }
    }

    /** The target has run with the return address alone patched. */
    lemma OnePatchGuarded(from: Start, ra: Word, r: Resumption)
      requires Mapped(from.text, ra) && process.Followed(from.events) && Keeps(from.trail, process.trail)
      requires PerhapsReturned(from.stops, process.stops, ra, process.regs)
      requires r.handled == Some(ra) && r.text == Poke(from.text, ra, process.Breakpoint())
      requires r.after == |from.stops| && r.regs == from.regs.(eip := from.pc)
      requires |from.trail| < |process.trail| && process.trail[|from.trail|] == r
      requires forall i :: |from.trail| < i < |process.trail| ==> SentOn(process.trail[i], r)
      ensures Guarded(from, ra, r.data)
    {
    }

    /** The target has not run. */
    lemma StillGuarded(from: Start, ra: Word, m: Memory)
      requires process.Followed(from.events) && process.trail == from.trail && process.stops == from.stops
      ensures Guarded(from, ra, m)
    {
    }

    /** The backtrace, if there is one, is that of the function the target has entered. */
    ghost predicate Walked(bt: Backtrace?)
      reads process`data, process`regs
    {
      bt != null ==> Walk(process.data, process.regs.esp, process.regs.ebp) == Some(bt.due)
    }

    /** The target has just stopped at a function of this kind. */
    ghost predicate AtCall(kind: Kind)
      reads this`actions, process`stops, process`pc, process`regs, process`data
    {
      && process.stops != [] && process.stops[|process.stops| - 1] == Here()
      && KindAt(Registry(actions), process.pc) == Some(kind)
    }

    /** The last stop was at a producer asked for `size` bytes, and the backtrace was made there. */
    ghost predicate Begun(who: L.Action, size: Word, bt: Backtrace?)
      reads this`actions, process`stops
    {
      BegunAt(SoFar(), who, size, bt)
    }

    static ghost predicate BegunAt(past: Past, who: L.Action, size: Word, bt: Backtrace?) {
      && past.stops != [] && Asked(past.stops[|past.stops| - 1], who) == size
      && (bt != null ==> WalkedAt(past, |past.stops| - 1, ProducerKind(who), bt.due))
    }

    lemma CallBegun(who: L.Action, bt: Backtrace?)
      requires AtCall(ProducerKind(who)) && Walked(bt)
      ensures Begun(who, Asked(Here(), who), bt)
    {
      hide Asked, KindAt, Walk, ProducerKind;
    }

    lemma ConsumedHere(kind: Kind, who: L.Action, bt: Backtrace?)
      requires AtCall(kind) && Consumes(kind, who) && Walked(bt)
      ensures ByConsumer(SoFar(), Arg(Here(), 0), who, bt)
    {
      hide Arg, KindAt, Walk, Consumes;
      if bt != null {
        assert ConsumedAt(SoFar(), |process.stops| - 1, Arg(Here(), 0), who, kind, bt.due);
      }
    }

    /** A new backtrace of the function the target has entered. */
    method MakeBacktrace() returns (ok: bool, bt: Backtrace)
      requires !process.bigEndian
      modifies process`refused, process`denials
      ensures ok || process.refused
      ensures fresh(bt) && (ok ==> bt.Usable() && bt.refCount == 1 && bt.Complete() && Walked(bt))
    {
      hide Walk;
      ghost var walk := Walk(process.data, process.regs.esp, process.regs.ebp);
      bt := new Backtrace(if walk.Some? then walk.value else []);
      ok := process.FunctionBacktrace(bt);
      if !ok {
        bt.Close();
      }
    }

    method ProduceBacktrace() returns (ok: bool, bt: Backtrace?)
      requires Ready()
      modifies resources`owned, resources`held, resources`full, process`refused, process`denials
      ensures ok || Trouble()
      ensures Consistent() && Closable() && process.status == Stopped && fresh(resources.owned - old(resources.owned))
      ensures ok ==> resources.held == bt && (bt != null <==> flags.backtrace)
      ensures ok && bt != null ==>
                bt.WellFormed() && Walk(process.data, process.regs.esp, process.regs.ebp) == Some(bt.Frames())
      ensures ok ==> Walked(bt)
      ensures forall b :: b in resources.owned ==> b in old(resources.owned) || b.Complete()
      ensures !ok ==> resources.held == null
    {
      hide Walk, AllTyped, AllTraced;
      ok, bt := true, null;
      if flags.backtrace {
        var memFull: bool := *;
        if memFull {
          resources.full := true;
          return false, null;
        }
        var b: Backtrace;
        ok, b := MakeBacktrace();
        if !ok {
          return false, null;
        }
        resources.Adopt(b);
        bt := b;
      }
    }

    method CloseBacktrace(bt: Backtrace?)
      requires resources.Accounts() && resources.held == bt
      modifies resources`owned, resources`held, resources.owned`refCount, resources.owned`freed
      ensures resources.Accounts() && resources.held == null
      ensures resources.owned <= old(resources.owned)
    {
      if bt != null {
        resources.CloseHeld(bt);
      }
    }

    // ---- usage ------------------------------------------------------------

    method ReportUsage()
      requires Typed()
      modifies this`log
      ensures log == old(log) + [L.Report(old(CurrentBooks()))] && Quiet(old(log), log)
    {
      hide L.Live, L.Find, AllTyped, AllTraced, Remaining;
      ghost var es := Entries(resources.elems);
      var it, n := resources.IterOpen(false);
      var objects := [];
      ghost var read := [];
      NothingRead(es, it);
      var item;
      it, item := resources.IterRead(it);
      while item.Some?
        invariant it.pos <= |resources.elems| && !it.all
        invariant log == old(log) && objects == L.Objects(read)
        invariant item.Some? ==> item.value in resources.elems
        invariant L.Live(es) == read + (if item.Some? then [item.value.entry] + Remaining(es, it) else [])
        decreases item.Some?, |resources.elems| - it.pos
      {
        var r := item.value;
        TypedMember(resources.elems, r, flags.backtrace);
        assert flags.backtrace ==> r.producerBt != null;
        objects := objects + [L.ObjectOf(r.entry)];
        read := read + [r.entry];
        it, item := resources.IterRead(it);
      }
      assert L.Live(es) == read;
      log := log + [L.Usage(n, objects)];
      QuietMore(old(log), L.Usage(n, objects));
    }

    // ---- producers --------------------------------------------------------

    /** Who produced what is listed at an address. */
    function ProducerAt(a: Word): L.Action
      reads resources`elems
    {
      var i := L.Find(Entries(resources.elems), a);
      if i < |resources.elems| then resources.elems[i].entry.producer else L.Realloc
    }

    /** Enters the object the target has just been given, with the statistics it brings. */
    method EnterObject(a: Word, size: Word, who: L.Action, bt: Backtrace?) returns (result: Result)
      requires ByProducer(SoFar(), a, size, who, bt)
      requires Consistent() && resources.held == bt && (bt != null <==> flags.backtrace)
      modifies this`stats, this`log, resources`elems, resources`nActive, resources`held, resources`full
      ensures Consistent() && Quiet(old(log), log)
      ensures !result.Handled? ==> resources.held == bt
      ensures L.Enter(flags, old(CurrentBooks()), a, size, who).Stopped? ==>
                if who == L.Realloc then result.Aborted? && log == old(log)
                else result.Failed? && log == old(log) + [L.Twice(who, a, old(ProducerAt(a)))]
      ensures
        || result.Handled? || (result.Failed? && resources.full)
        || L.Enter(flags, old(CurrentBooks()), a, size, who) == L.Stopped(log)
      ensures result.Handled? ==> resources.held == null && log == old(log)
      ensures result.Handled? ==> L.Enter(flags, old(CurrentBooks()), a, size, who) == L.Done(CurrentBooks())
    {
      hide Resources.Accounts, L.Find, L.Produced, L.Enter, Backtrace.Usable, AllTyped, AllTraced, TypedOne, Entries;
      ghost var rs, b := resources.elems, CurrentBooks();
      if flags.stats {
        stats := L.Produced(stats, size);
      }
      TakenOver(flags, b, rs, a, size, who);
      var ok, i := resources.CreateResource(a);
      if !ok {
        return Failed;
      }
      if resources.elems[i].producerBt != null {
        // not a new resource
        if who == L.Realloc {
          return Aborted;
        }
        QuietMore(log, L.Twice(who, a, resources.elems[i].entry.producer));
        log := log + [L.Twice(who, a, resources.elems[i].entry.producer)];
        return Failed;
      }
      ghost var rs1 := resources.elems;
      NewTraced(rs, rs1, i, a, size, who, bt, SoFar());
      resources.MakeProducer(i, who, size, bt);
      Entered(flags, b, rs, rs1, i, a, size, who, bt, CurrentBooks(), resources.elems);
      return Handled;
    }

    method EnterAndReport(a: Word, size: Word, who: L.Action, bt: Backtrace?) returns (result: Result)
      requires ByProducer(SoFar(), a, size, who, bt)
      requires Consistent() && resources.held == bt && (bt != null <==> flags.backtrace)
      modifies this`stats, this`log, resources`elems, resources`nActive, resources`held, resources`full
      ensures Consistent() && Quiet(old(log), log)
      ensures !result.Handled? ==> resources.held == bt
      ensures
        || result.Handled? || (result.Failed? && resources.full)
        || L.EnterAndReport(flags, old(CurrentBooks()), a, size, who) == L.Stopped(log)
      ensures result.Handled? ==> resources.held == null
      ensures result.Handled? ==> L.EnterAndReport(flags, old(CurrentBooks()), a, size, who) == L.Done(CurrentBooks())
    {
      result := EnterObject(a, size, who, bt);
      if result.Handled? && flags.usage {
        ReportUsage();
      }
    }

    /** Runs the function and reads its result; the handler's backtrace is given up if that fails. */
    method RunCall(bt: Backtrace?, ghost who: L.Action, ghost size: Word) returns (ok: bool, a: Word)
      requires Begun(who, size, bt)
      requires Consistent() && process.status == Stopped && resources.held == bt
      modifies process, resources`owned, resources`held, resources.owned`refCount, resources.owned`freed
      ensures Guarded(old(Origin()), ReturnOf(old(Here())), old(process.data))
      ensures Closable() && resources.owned <= old(resources.owned)
      ensures !ok ==> process.refused && resources.held == null
      ensures ok ==> Consistent() && process.status == Stopped && resources.held == bt
      ensures ok ==> process.text == old(process.text) && process.data == process.arrived && a == process.regs.eax
      ensures ok ==> Back(old(process.stops), ReturnOf(old(Here())), old(process.regs), false)
      ensures ok ==> ByProducer(SoFar(), a, size, who, bt)
    {
      hide Resources.Accounts, AllTyped, AllTraced, Mapped, Peek, Poke, Backtrace.Usable, Guarded, Returned;
      hide ByProducer, BegunAt;
      NothingRun(ReturnOf(Here()), process.data);
      a := 0;
      var ra;
      ok, ra := process.ReturnAddr();
      if ok {
        ok := DoAction(ra);
      }
      if ok {
        ok, a := process.ReadResult();
      }
      if !ok {
        CloseBacktrace(bt);
        return;
      }
      ProducedNow(old(SoFar()), who, size, bt);
    }

    /** The producer begun at the last stop of before has returned. */
    lemma ProducedNow(past: Past, who: L.Action, size: Word, bt: Backtrace?)
      requires past.places == Registry(actions) && BegunAt(past, who, size, bt)
      requires Returned(past.stops, process.stops, false, process.pc, process.regs, process.arrived)
      ensures ByProducer(SoFar(), process.regs.eax, size, who, bt)
    {
      ProducedHere(SoFar(), past.stops, process.pc, process.regs, process.arrived, size, who, bt);
    }

    /** The handler gives its backtrace up and the function is run. */
    method JustRun(ra: Word, bt: Backtrace?) returns (result: Result)
      requires Consistent() && process.status == Stopped && resources.held == bt
      modifies process, resources`owned, resources`held, resources.owned`refCount, resources.owned`freed
      ensures Guarded(old(Origin()), ra, old(process.data))
      ensures Closable() && resources.owned <= old(resources.owned)
      ensures result.Handled? ==> Ready() && process.text == old(process.text) && process.data == process.arrived
      ensures result.Handled? || (result.Failed? && process.refused)
      ensures result.Handled? ==> Back(old(process.stops), ra, old(process.regs), false)
    {
      hide Resources.Accounts, AllTyped, AllTraced, Mapped, Peek, Poke, Number, Backtrace.Usable, Guarded, Back;
      CloseBacktrace(bt);
      var ok := DoAction(ra);
      return if ok then Handled else Failed;
    }

    /** The first two arguments. */
    method ReadArgs() returns (ok: bool, x: Word, y: Word)
      requires process.status == Stopped
      modifies process`denials, process`refused
      ensures ok || process.refused
      ensures ok ==> Mapped(process.data, process.ArgAddr(0)) && x == process.WordAt(process.ArgAddr(0))
      ensures ok ==> Mapped(process.data, process.ArgAddr(1)) && y == process.WordAt(process.ArgAddr(1))
    {
      hide Mapped, Peek, Number;
      y := 0;
      ok, x := process.ReadArg(0);
      if ok {
        ok, y := process.ReadArg(1);
      }
    }

    /** What malloc returned is entered, or its failure reported. */
    method MallocResult(size: Word, a: Word, bt: Backtrace?) returns (result: Result)
      requires ByProducer(SoFar(), a, size, L.Malloc, bt)
      requires Consistent() && process.status == Stopped && resources.held == bt && (bt != null <==> flags.backtrace)
      modifies this`stats, this`log, resources, resources.owned`refCount, resources.owned`freed
      ensures Consistent() && Closable() && resources.owned <= old(resources.owned) && Quiet(old(log), log)
      ensures result.Handled? ==>
                Ready() && L.Step(flags, old(CurrentBooks()), L.MallocCall(size, a)) == L.Done(CurrentBooks())
      ensures
        || result.Handled? || (result.Failed? && resources.full)
        || L.Step(flags, old(CurrentBooks()), L.MallocCall(size, a)) == L.Stopped(log)
    {
      hide Resources.Accounts, AllTyped, AllTraced, L.Find, Backtrace.Usable, L.Enter, L.EnterAndReport, Quiet;
      if a == 0 {
        QuietMore(log, L.Zero(L.Malloc, 0, 0, size));
        log := log + [L.Zero(L.Malloc, 0, 0, size)];
        CloseBacktrace(bt);
        return Handled;
      }
      result := EnterAndReport(a, size, L.Malloc, bt);
    }

    /** What calloc returned is entered, or its failure reported. */
    method CallocResult(n: Word, size: Word, a: Word, bt: Backtrace?) returns (result: Result)
      requires ByProducer(SoFar(), a, Wrap(n * size), L.Calloc, bt)
      requires Consistent() && process.status == Stopped && resources.held == bt && (bt != null <==> flags.backtrace)
      modifies this`stats, this`log, resources, resources.owned`refCount, resources.owned`freed
      ensures Consistent() && Closable() && resources.owned <= old(resources.owned) && Quiet(old(log), log)
      ensures result.Handled? ==>
                Ready() && L.Step(flags, old(CurrentBooks()), L.CallocCall(n, size, a)) == L.Done(CurrentBooks())
      ensures
        || result.Handled? || (result.Failed? && resources.full)
        || L.Step(flags, old(CurrentBooks()), L.CallocCall(n, size, a)) == L.Stopped(log)
    {
      hide Resources.Accounts, AllTyped, AllTraced, L.Find, Backtrace.Usable, L.Enter, L.EnterAndReport, Quiet;
      if a == 0 {
        QuietMore(log, L.Zero(L.Calloc, 0, n, size));
        log := log + [L.Zero(L.Calloc, 0, n, size)];
        CloseBacktrace(bt);
        return Handled;
      }
      result := EnterAndReport(a, Wrap(n * size), L.Calloc, bt);
    }

    /** malloc: the call is run and its result entered. */
    method DoMalloc() returns (result: Result, ghost e: L.Event)
      requires Ready() && AtCall(MallocKind)
      modifies this`stats, this`log, process, resources, resources.owned`refCount, resources.owned`freed
      ensures Closable() && fresh(resources.owned - old(resources.owned))
      ensures forall b :: b in resources.owned ==> b in old(resources.owned) || b.Complete()
      ensures result.Handled? ==> Ready()
      ensures Outcome(result, MallocKind, old(Origin()), old(Here()), old(CurrentBooks()), e)
    {
      hide Resources.Accounts, AllTyped, AllTraced, Mapped, Peek, Poke, Number, Wrap, Backtrace.Usable, Guarded, Back;
      hide L.Step, F.Diagnoses, Misaligned, Begun, ByProducer, ByConsumer, Walked, AtCall, Consistent, Closable;
      hide Outcome, Ready, Backtrace.Complete;
      ghost var from, s, b := Origin(), Here(), CurrentBooks();
      LittleEndian();
      NothingRun(ReturnOf(s), s.data);
      e := L.UsageCall;
      result := Failed;
      var ok, size := process.ReadArg(0);
      if !ok {
        NothingKnown(MallocKind, from, s, b);
        return;
      }
      var bt;
      ok, bt := ProduceBacktrace();
      if !ok {
        NothingKnown(MallocKind, from, s, b);
        return;
      }
      CallBegun(L.Malloc, bt);
      var a;
      ok, a := RunCall(bt, L.Malloc, size);
      if !ok {
        NothingKnown(MallocKind, from, s, b);
        return;
      }
      e := L.MallocCall(size, a);
      result := MallocResult(size, a, bt);
      ProducerOutcome(result, MallocKind, from, s, b, e);
    }

    /** calloc: as malloc, for the product of its arguments. */
    method DoCalloc() returns (result: Result, ghost e: L.Event)
      requires Ready() && AtCall(CallocKind)
      modifies this`stats, this`log, process, resources, resources.owned`refCount, resources.owned`freed
      ensures Closable() && fresh(resources.owned - old(resources.owned))
      ensures forall b :: b in resources.owned ==> b in old(resources.owned) || b.Complete()
      ensures result.Handled? ==> Ready()
      ensures Outcome(result, CallocKind, old(Origin()), old(Here()), old(CurrentBooks()), e)
    {
      hide Resources.Accounts, AllTyped, AllTraced, Mapped, Peek, Poke, Number, Wrap, Backtrace.Usable, Guarded, Back;
      hide L.Step, F.Diagnoses, Misaligned, Begun, ByProducer, ByConsumer, Walked, AtCall, Consistent, Closable;
      hide Outcome, Ready, Backtrace.Complete;
      ghost var from, s, b := Origin(), Here(), CurrentBooks();
      LittleEndian();
      NothingRun(ReturnOf(s), s.data);
      e := L.UsageCall;
      result := Failed;
      var ok: bool, n: Word, size: Word := ReadArgs();
      if !ok {
        NothingKnown(CallocKind, from, s, b);
        return;
      }
      var bt;
      ok, bt := ProduceBacktrace();
      if !ok {
        NothingKnown(CallocKind, from, s, b);
        return;
      }
      CallBegun(L.Calloc, bt);
      var a;
      ok, a := RunCall(bt, L.Calloc, Wrap(n * size));
      if !ok {
        NothingKnown(CallocKind, from, s, b);
        return;
      }
      e := L.CallocCall(n, size, a);
      result := CallocResult(n, size, a, bt);
      ProducerOutcome(result, CallocKind, from, s, b, e);
    }

    /** malloc or calloc once it has returned and its result has been entered or not. */
    lemma ProducerOutcome(result: Result, kind: Kind, from: Start, s: Stop, b: L.Books, e: L.Event)
      requires (kind.MallocKind? || kind.CallocKind?) && Readable(kind, s) && e == CallAt(kind, s, process.regs.eax)
      requires Guarded(from, ReturnOf(s), s.data) && Back(from.stops, ReturnOf(s), from.regs, false)
      requires process.text == from.text && process.data == process.arrived && Quiet(b.log, log)
      requires result.Handled? ==> L.Step(flags, b, e) == L.Done(CurrentBooks())
      requires result.Handled? || (result.Failed? && Trouble()) || L.Step(flags, b, e) == L.Stopped(log)
      ensures Outcome(result, kind, from, s, b, e)
    {
      hide Guarded, L.Step, Misaligned;
    }

    // ---- consumers --------------------------------------------------------

    /** Deletes an unconsumed resource under the policy in force. */
    method DeleteObject(i: nat, who: L.Action, bt: Backtrace?)
      requires Consistent() && resources.held == bt && (bt != null <==> flags.backtrace)
      requires i < |resources.elems| && resources.elems[i].entry.consumer.None? && resources.nActive > 0
      requires i == L.Find(Entries(resources.elems), resources.elems[i].entry.addr)
      requires ByConsumer(SoFar(), resources.elems[i].entry.addr, who, bt)
      modifies resources`elems, resources`nActive, resources`nConsumed, resources`owned
      modifies resources.owned`refCount, resources.owned`freed
      ensures Consistent() && resources.held == bt && resources.owned <= old(resources.owned)
      ensures CurrentBooks() == L.Delete(flags, old(CurrentBooks()), i, who)
    {
      hide Resources.Accounts, L.Find, Backtrace.Usable;
      var r := resources.elems[i];
      var r' := r.(entry := L.Consume(r.entry, who), consumerBt := bt);
      EntriesOfUpdate(resources.elems, i, r');
      EntriesOfRemoval(resources.elems, i);
      assert TypedOne(r, flags.backtrace) && TracedOne(r, SoFar());
      TracedConsumed(r, SoFar(), who, bt);
      hide AllTraced, TracedOne, ByConsumer, ByProducer;
      TypedUpdate(resources.elems, i, r', flags.backtrace);
      TypedRemoval(resources.elems, i, flags.backtrace);
      TracedUpdate(resources.elems, i, r', SoFar());
      TracedRemoval(resources.elems, i, SoFar());
      hide AllTyped, AllTraced, TypedOne, Entries;
      resources.DeleteResource(i, who, bt);
    }

    /** Runs the called function, or skips it when memory is to be kept. */
    method RunOrSkip(ra: Word) returns (ok: bool)
      requires process.status == Stopped && !process.lost && Traced()
      modifies process
      ensures Guarded(old(Origin()), ra, old(process.data))
      ensures ok ==> process.status == Stopped && !process.lost && Traced()
      ensures ok ==> process.text == old(process.text) && Back(old(process.stops), ra, old(process.regs), !flags.free)
      ensures ok ==> process.data == if flags.free then process.arrived else old(process.data)
      ensures process.status == Running <==> process.lost
      ensures !ok ==> process.refused
    {
      hide Ongoing, RunsOf;
      if flags.free {
        ok := DoAction(ra);
      } else {
        NothingRun(ra, process.data);
        ghost var from := Origin();
        ok := process.SkipTo(ra);
        NothingHeard(from.events);
        StillGuarded(from, ra, process.data);
      }
    }

    method LogDiagnosis(a: Word, who: L.Action, i: nat)
      requires i == L.Find(Entries(resources.elems), a) && a != 0
      modifies this`log
      ensures log == old(log) + L.Diagnose(Entries(resources.elems), who, a)
    {
      if i == |resources.elems| {
        log := log + [L.Fum(who, a)];
      } else if resources.elems[i].entry.consumer.Some? {
        log := log + [L.Ffm(who, a, resources.elems[i].entry.consumer.value)];
      }
    }

    /** free and cfree: the argument is diagnosed, and a live object taken out of the books. */
    method DoConsumer(who: L.Action) returns (result: Result, ghost e: L.Event)
      requires Ready() && AtCall(ConsumerKind(who))
      modifies this`stats, this`log, process, resources, resources.owned`refCount, resources.owned`freed
      ensures Closable() && fresh(resources.owned - old(resources.owned))
      ensures forall b :: b in resources.owned ==> b in old(resources.owned) || b.Complete()
      ensures result.Handled? ==> Ready()
      ensures Outcome(result, ConsumerKind(who), old(Origin()), old(Here()), old(CurrentBooks()), e)
    {
      hide Resources.Accounts, AllTyped, AllTraced, Mapped, Peek, Poke, Number, Wrap, Backtrace.Usable, Guarded, Back;
      hide L.Step, F.Diagnoses, Misaligned, ByProducer, ByConsumer, Walked, AtCall, Consistent, Closable, Excused;
      hide Outcome, Ready, Backtrace.Complete, Scrubbed, Emptied;
      ghost var from, s, b := Origin(), Here(), CurrentBooks();
      LittleEndian();
      NothingRun(ReturnOf(s), Passed(b, ConsumerKind(who), s));
      e := L.UsageCall;
      result := Failed;
      var ok: bool, a: Word, ra: Word, bt: Backtrace? := EnterConsumer();
      if !ok {
        NothingKnown(ConsumerKind(who), from, s, b);
        return;
      }
      e := L.ConsumerCall(who, a);
      ConsumedHere(ConsumerKind(who), who, bt);
      if a == 0 {
        result := ConsumeNull(who, bt, ra);
      } else {
        result := ConsumeObject(a, who, bt, ra);
      }
      ConsumerOutcome(result, who, from, s, b, a);
    }

    /** free or cfree, however it ends. */
    lemma ConsumerOutcome(result: Result, who: L.Action, from: Start, s: Stop, b: L.Books, a: Word)
      requires ReadableArg(s, 0) && a == Arg(s, 0)
      requires Guarded(from, ReturnOf(s), Emptied(b, a, s.data))
      requires Excused(result, b, from.stops, L.ConsumerCall(who, a))
      requires b.log <= log && F.Diagnoses(log) == F.Diagnoses(b.log) + L.Diagnose(b.elems, who, a)
      requires result.Handled? ==>
                 && L.Step(flags, b, L.ConsumerCall(who, a)) == L.Done(CurrentBooks())
                 && process.text == from.text && Back(from.stops, ReturnOf(s), from.regs, a != 0 && !flags.free)
                 && Freed(b, a, s.data)
      ensures Outcome(result, ConsumerKind(who), from, s, b, L.ConsumerCall(who, a))
    {
      hide Guarded, Excused, L.Step, Emptied, Scrubbed, Arg, Back, F.Diagnoses;
      assert Skipped(flags.free, ConsumerKind(who), s) == (a != 0 && !flags.free);
    }

    /** The target's memory after a completed free: as the function left it, or, if memory is kept, zeroed. */
    ghost predicate Freed(b: L.Books, a: Word, m: Memory)
      reads process`data, process`arrived
    {
      if a == 0 || flags.free then process.data == process.arrived else Scrubbed(m, process.data, b.elems, a)
    }

    /** What a consumer's handler needs to know first. */
    method EnterConsumer() returns (ok: bool, a: Word, ra: Word, bt: Backtrace?)
      requires Ready()
      modifies resources`owned, resources`held, resources`full, process`refused, process`denials
      ensures ok || Trouble()
      ensures Consistent() && Closable() && process.status == Stopped && fresh(resources.owned - old(resources.owned))
      ensures forall b :: b in resources.owned ==> b in old(resources.owned) || b.Complete()
      ensures ok ==> resources.held == bt && (bt != null <==> flags.backtrace) && Walked(bt)
      ensures ok ==> ReadableArg(Here(), 0) && a == Arg(Here(), 0) && ra == ReturnOf(Here())
      ensures !ok ==> resources.held == null
    {
      hide Backtrace.Complete;
      hide Resources.Accounts, AllTyped, AllTraced, Mapped, Peek, Number, Backtrace.Usable;
      ra, bt := 0, null;
      ok, a := process.ReadArg(0);
      if ok {
        ok, ra := process.ReturnAddr();
      }
      if ok {
        ok, bt := ProduceBacktrace();
      }
    }

    /** free of null does nothing. */
    method ConsumeNull(who: L.Action, bt: Backtrace?, ra: Word) returns (result: Result)
      requires Consistent() && process.status == Stopped && resources.held == bt
      modifies process, resources`owned, resources`held, resources.owned`refCount, resources.owned`freed
      ensures Guarded(old(Origin()), ra, Emptied(old(CurrentBooks()), 0, old(process.data)))
      ensures Closable() && resources.owned <= old(resources.owned)
      ensures result.Handled? ==> Ready() && process.text == old(process.text) && process.data == process.arrived
      ensures L.Step(flags, old(CurrentBooks()), L.ConsumerCall(who, 0)) == L.Done(CurrentBooks())
      ensures Excused(result, old(CurrentBooks()), old(process.stops), L.ConsumerCall(who, 0))
      ensures F.Diagnoses(log) == F.Diagnoses(old(log)) + L.Diagnose(old(Entries(resources.elems)), who, 0)
      ensures result.Handled? ==> Back(old(process.stops), ra, old(process.regs), false)
    {
      hide Resources.Accounts, AllTyped, AllTraced, Mapped, Peek, Poke, Number, Backtrace.Usable, Guarded, Back;
      hide L.Step, F.Diagnoses;
      NullFreed(flags, CurrentBooks(), who);
      result := JustRun(ra, bt);
    }

    /** free of an address that is not zero. */
    method ConsumeObject(a: Word, who: L.Action, bt: Backtrace?, ra: Word) returns (result: Result)
      requires ByConsumer(SoFar(), a, who, bt)
      requires Consistent() && process.status == Stopped && a != 0
      requires resources.held == bt && (bt != null <==> flags.backtrace)
      modifies this`stats, this`log, process, resources, resources.owned`refCount, resources.owned`freed
      ensures Guarded(old(Origin()), ra, Emptied(old(CurrentBooks()), a, old(process.data)))
      ensures Closable() && resources.owned <= old(resources.owned)
      ensures result.Handled? ==> Ready() && process.text == old(process.text)
      ensures result.Handled? ==> L.Step(flags, old(CurrentBooks()), L.ConsumerCall(who, a)) == L.Done(CurrentBooks())
      ensures Excused(result, old(CurrentBooks()), old(process.stops), L.ConsumerCall(who, a))
      ensures old(log) <= log
      ensures F.Diagnoses(log) == F.Diagnoses(old(log)) + L.Diagnose(old(Entries(resources.elems)), who, a)
      ensures result.Handled? ==> Back(old(process.stops), ra, old(process.regs), !flags.free)
      ensures result.Handled? ==> Freed(old(CurrentBooks()), a, old(process.data))
    {
      hide Resources.Accounts, AllTyped, AllTraced, L.Find, Mapped, Peek, Poke, Number, Backtrace.Usable, Guarded;
      hide Back, F.Diagnoses, ByConsumer, Fill;
      NothingRun(ra, Emptied(CurrentBooks(), a, process.data));
      ghost var es := Entries(resources.elems);
      var i := resources.Lookup(a);
      LogDiagnosis(a, who, i);
      DiagnosisAdded(old(log), es, who, a, log);
      if i == |resources.elems| {
        result := PassOn(bt, ra);
        return;
      }
      var r := resources.elems[i];
      if r.entry.consumer.Some? {
        if flags.free {
          // double frees are diagnosed only when memory is kept
          return Aborted;
        }
        result := PassOn(bt, ra);
        return;
      }
      result := ConsumeLive(a, who, i, bt, ra);
      DiagnosisAdded(old(log), es, who, a, log);
    }

    /** The handler gives its backtrace up and the call is run or skipped. */
    method PassOn(bt: Backtrace?, ra: Word) returns (result: Result)
      requires Consistent() && process.status == Stopped && resources.held == bt
      modifies process, resources`owned, resources`held, resources.owned`refCount, resources.owned`freed
      ensures Guarded(old(Origin()), ra, old(process.data)) && Closable() && resources.owned <= old(resources.owned)
      ensures result.Handled? ==> Ready() && process.text == old(process.text)
      ensures result.Handled? || (result.Failed? && process.refused)
      ensures result.Handled? ==> Back(old(process.stops), ra, old(process.regs), !flags.free)
      ensures result.Handled? ==> process.data == if flags.free then process.arrived else old(process.data)
    {
      hide Resources.Accounts, AllTyped, AllTraced, Mapped, Peek, Poke, Backtrace.Usable, Guarded, Back;
      CloseBacktrace(bt);
      var ok := RunOrSkip(ra);
      return if ok then Handled else Failed;
    }

    /** When memory is kept, free does nothing to the target's memory; with -z it zeroes a live object. */
    ghost predicate Scrubbed(m: Memory, m': Memory, es: seq<L.Entry>, a: Word) {
      var i := L.Find(es, a);
      if i < |es| && es[i].consumer.None? && zero then Fill(m, a, ZEROS, es[i].size, process.bigEndian) == Some(m')
      else m' == m
    }

    /** Zeroes an object of the target. */
    method Scrub(a: Word, size: Word) returns (result: Result)
      requires process.status == Stopped
      modifies process`data, process`refused
      ensures result.Handled? ==> Fill(old(process.data), a, ZEROS, size, process.bigEndian) == Some(process.data)
      ensures result.Handled? || (result.Failed? && process.refused) || (result.Aborted? && !Aligned(a))
    {
      hide Fill;
      if !Aligned(a) {
        return Aborted;
      }
      var ok := process.Memset(a, 0, size);
      return if ok then Handled else Failed;
    }

    /** Deletes a live object, the handler giving up its backtrace, and reports. */
    method DropObject(i: nat, who: L.Action, bt: Backtrace?)
      requires Consistent() && resources.held == bt && (bt != null <==> flags.backtrace)
      requires i < |resources.elems| && resources.elems[i].entry.consumer.None? && resources.nActive > 0
      requires i == L.Find(Entries(resources.elems), resources.elems[i].entry.addr)
      requires ByConsumer(SoFar(), resources.elems[i].entry.addr, who, bt)
      modifies this`log, resources, resources.owned`refCount, resources.owned`freed
      ensures Consistent() && resources.held == null && resources.owned <= old(resources.owned)
      ensures CurrentBooks() == L.WithUsage(flags, L.Delete(flags, old(CurrentBooks()), i, who)) && Quiet(old(log), log)
    {
      hide Resources.Accounts, AllTyped, AllTraced, L.Find, L.Delete, L.Live, L.Report, Backtrace.Usable;
      DeleteObject(i, who, bt);
      CloseBacktrace(bt);
      if flags.usage {
        ReportUsage();
      }
    }

    /** The object is live: it leaves the statistics, is zeroed if wanted, deleted, and the call run
        or skipped. */
    method ConsumeLive(a: Word, who: L.Action, i: nat, bt: Backtrace?, ra: Word) returns (result: Result)
      requires ByConsumer(SoFar(), a, who, bt)
      requires Consistent() && process.status == Stopped && a != 0
      requires resources.held == bt && (bt != null <==> flags.backtrace)
      requires i == L.Find(Entries(resources.elems), a) < |resources.elems|
      requires resources.elems[i].entry.consumer.None?
      modifies this`stats, this`log, process, resources, resources.owned`refCount, resources.owned`freed
      ensures Guarded(old(Origin()), ra, Emptied(old(CurrentBooks()), a, old(process.data)))
      ensures Closable() && resources.owned <= old(resources.owned)
      ensures result.Handled? ==> Ready() && process.text == old(process.text)
      ensures result.Handled? ==>
                var b := old(CurrentBooks());
                b.active > 0 &&
                CurrentBooks() == L.WithUsage(flags, L.Delete(flags, L.WithRelease(flags, b, b.elems[i].size), i, who))
      ensures
        || result.Handled? || (result.Failed? && process.refused)
        || (result.Aborted? && log == old(log) && ((zero && !Aligned(a)) || old(resources.nActive) == 0))
      ensures Quiet(old(log), log)
      ensures result.Handled? ==> Back(old(process.stops), ra, old(process.regs), !flags.free)
      ensures result.Handled? ==> Freed(old(CurrentBooks()), a, old(process.data))
    {
      hide Resources.Accounts, AllTyped, AllTraced, L.Find, L.Delete, L.Live, L.Report, Mapped, Peek, Poke, Number;
      hide Backtrace.Usable, Guarded, Back, L.WithUsage, L.Released, TypedOne, ByConsumer, Fill, F.Diagnoses;
      NothingRun(ra, Emptied(CurrentBooks(), a, process.data));
      var size := resources.elems[i].entry.size;
      if flags.stats {
        stats := L.Released(stats, size);
      }
      if zero {
        result := Scrub(a, size);
        if result.Failed? {
          CloseBacktrace(bt);
        }
        if !result.Handled? {
          return;
        }
      }
      if resources.nActive == 0 {
        return Aborted;
      }
      DropObject(i, who, bt);
      var ok := RunOrSkip(ra);
      return if ok then Handled else Failed;
    }

    // ---- realloc ----------------------------------------------------------

    method ReallocFailure(size: Word, oldAddr: Word, oldSize: Word, bt: Backtrace?)
      requires resources.Accounts() && resources.held == bt
      modifies this`log, resources`owned, resources`held, resources.owned`refCount, resources.owned`freed
      ensures resources.Accounts() && resources.held == null && resources.owned <= old(resources.owned)
      ensures log == old(log) + [L.Zero(L.Realloc, oldAddr, oldSize, size)] && Quiet(old(log), log)
    {
      QuietMore(log, L.Zero(L.Realloc, oldAddr, oldSize, size));
      log := log + [L.Zero(L.Realloc, oldAddr, oldSize, size)];
      CloseBacktrace(bt);
    }

    /** After realloc(0, n), or a realloc of an unknown address turned into that: an implied malloc.
        Only the first kind is followed by a usage report. */
    method ReallocMalloc(size: Word, bt: Backtrace?, report: bool) returns (result: Result)
      requires ByProducer(SoFar(), process.regs.eax, size, L.Realloc, bt)
      requires Consistent() && process.status == Stopped
      requires resources.held == bt && (bt != null <==> flags.backtrace)
      modifies this`stats, this`log, process`denials, process`refused, resources
      modifies resources.owned`refCount, resources.owned`freed
      ensures Consistent() && resources.owned <= old(resources.owned) && Quiet(old(log), log)
      ensures result.Handled? ==> Ready() && process.regs.eax != 0
      ensures
        || result.Handled? || (result.Failed? && Trouble())
        || (process.regs.eax == 0 && log == old(log) + [L.Zero(L.Realloc, 0, 0, size)])
        || (process.regs.eax != 0 &&
            L.Enter(flags, old(CurrentBooks()), process.regs.eax, size, L.Realloc) == L.Stopped(log))
      ensures result.Handled? && report ==>
                L.EnterAndReport(flags, old(CurrentBooks()), process.regs.eax, size, L.Realloc) ==
                L.Done(CurrentBooks())
      ensures result.Handled? && !report ==>
                L.Enter(flags, old(CurrentBooks()), process.regs.eax, size, L.Realloc) == L.Done(CurrentBooks())
    {
      hide Resources.Accounts, AllTyped, AllTraced, L.Find, Backtrace.Usable;
      hide ByProducer;
      var ok, a := process.ReadResult();
      if !ok {
        CloseBacktrace(bt);
        return Failed;
      }
      if a == 0 {
        ReallocFailure(size, 0, 0, bt);
        return Failed;
      }
      if report {
        result := EnterAndReport(a, size, L.Realloc, bt);
      } else {
        result := EnterObject(a, size, L.Realloc, bt);
      }
      if result.Failed? {
        CloseBacktrace(bt);
      }
    }

    /** The entry of an object that was moved or resized. */
    method RewriteEntry(i: nat, a: Word, size: Word, bt: Backtrace?)
      requires Consistent() && i < |resources.elems| && ByProducer(SoFar(), a, size, L.Realloc, bt)
      requires resources.held == bt && (bt != null <==> flags.backtrace)
      modifies resources`elems, resources`owned, resources`held, resources.owned`refCount, resources.owned`freed
      ensures Consistent() && resources.held == null && resources.owned <= old(resources.owned)
      ensures CurrentBooks() ==
              old(CurrentBooks()).(elems := old(CurrentBooks()).elems[i := L.Entry(a, size, L.Realloc, None)])
    {
      hide Resources.Accounts, Backtrace.Usable, AllTraced, TracedOne, ByProducer, ByConsumer;
      var r' := Resource(L.Entry(a, size, L.Realloc, None), bt, null);
      TracedNew(SoFar(), a, size, L.Realloc, bt);
      assert TypedOne(resources.elems[i], flags.backtrace);
      EntriesOfUpdate(resources.elems, i, r');
      TypedUpdate(resources.elems, i, r', flags.backtrace);
      TracedUpdate(resources.elems, i, r', SoFar());
      hide AllTyped, TypedOne, Entries;
      resources.Rewrite(i, a, size, flags.backtrace, bt);
    }

    /** What an object that was really reallocated leaves behind: with -z, zeros where it was, if it moved. */
    ghost predicate Vacated(m: Memory, m': Memory, was: L.Entry, r: Word) {
      if zero && r != was.addr then Fill(m, was.addr, ZEROS, was.size, process.bigEndian) == Some(m') else m' == m
    }

    /** No byte outside the words of the old object changes, and none at all if it stayed or without -z;
        the object is zeroed exactly if no byte that the mask of a partial word reaches was set. */
    lemma VacatedFrame(m: Memory, m': Memory, was: L.Entry, r: Word)
      requires Vacated(m, m', was, r) && Range(m, was.addr, Ceiling(was.size))
      ensures m'.Keys == m.Keys
      ensures forall x :: x in m && !(was.addr <= x < was.addr + Ceiling(was.size)) ==> m'[x] == m[x]
      ensures !zero || r == was.addr ==> m' == m
      ensures zero && r != was.addr ==>
                (Zeroed(m, m', was.addr, was.size) <==>
                 process.bigEndian || TailAlreadyZero(m, was.addr, was.size))
    {
      hide Fill, Ceiling, Zeroed, TailAlreadyZero, Range;
      ZeroFrame(m, was.addr, was.size, process.bigEndian);
      ZeroCorrectIff(m, was.addr, was.size, process.bigEndian);
    }

    /** After realloc of a listed object while memory is really freed: its entry is rewritten. */
    method ReallocMove(i: nat, size: Word, bt: Backtrace?) returns (result: Result)
      requires ByProducer(SoFar(), process.regs.eax, size, L.Realloc, bt)
      requires Consistent() && process.status == Stopped && flags.free
      requires resources.held == bt && (bt != null <==> flags.backtrace)
      requires i < |resources.elems| && resources.elems[i].entry.consumer.None?
      modifies this`stats, this`log, process`data, process`denials, process`refused, resources
      modifies resources.owned`refCount, resources.owned`freed
      ensures Closable() && resources.owned <= old(resources.owned) && Quiet(old(log), log)
      ensures result.Handled? ==> Ready()
      ensures
        || result.Handled? || (result.Failed? && process.refused)
        || (zero && process.regs.eax != 0 && process.regs.eax != old(resources.elems[i].entry.addr) &&
            !Aligned(old(resources.elems[i].entry.addr)) && log == old(log))
        || L.MoveEntry(flags, old(CurrentBooks()), i, size, process.regs.eax) == L.Stopped(log)
      ensures result.Handled? ==>
                Vacated(old(process.data), process.data, old(resources.elems[i].entry), process.regs.eax)
      ensures result.Handled? ==>
                L.MoveEntry(flags, old(CurrentBooks()), i, size, process.regs.eax) == L.Done(CurrentBooks())
    {
      hide Resources.Accounts, L.Find, Backtrace.Usable, L.Live, L.Report, L.Produced, L.Released, Fill;
      hide AllTyped, AllTraced, ByProducer;
      var ok, a := process.ReadResult();
      if !ok {
        return Failed;
      }
      var r := resources.elems[i];
      if a == 0 {
        ReallocFailure(size, r.entry.addr, r.entry.size, bt);
        return Failed;
      }
      if flags.stats {
        stats := L.Released(stats, r.entry.size);
      }
      if r.entry.addr != a && zero {
        result := Scrub(r.entry.addr, r.entry.size);
        if !result.Handled? {
          return;
        }
      }
      if flags.stats {
        stats := L.Produced(stats, size);
      }
      RewriteEntry(i, a, size, bt);
      if flags.usage {
        ReportUsage();
      }
      return Handled;
    }

    /** After realloc of a listed object while memory is kept: the target was made to allocate a new
        object, to which the contents are copied; the old object is consumed. */
    method ReallocCopy(i: nat, size: Word, bt: Backtrace?) returns (result: Result)
      requires ByProducer(SoFar(), process.regs.eax, size, L.Realloc, bt)
      requires Consistent() && process.status == Stopped && !flags.free
      requires resources.held == bt && (bt != null <==> flags.backtrace)
      requires i < |resources.elems| && i == L.Find(Entries(resources.elems), resources.elems[i].entry.addr)
      requires ByConsumer(SoFar(), resources.elems[i].entry.addr, L.Realloc, bt)
      modifies this`stats, this`log, process`data, process`denials, process`refused, resources
      modifies resources.owned`refCount, resources.owned`freed
      ensures Closable() && resources.owned <= old(resources.owned) && Quiet(old(log), log)
      ensures result.Handled? ==> Ready()
      ensures
        || result.Handled? || (result.Failed? && Trouble())
        || ((!Aligned(old(resources.elems[i].entry.addr)) || !Aligned(process.regs.eax)) && log == old(log) &&
            process.regs.eax != 0 && process.regs.eax != old(resources.elems[i].entry.addr) &&
            old(resources.elems[i].entry).consumer.None?)
        || L.CopyEntry(flags, old(CurrentBooks()), i, size, process.regs.eax) == L.Stopped(log)
      ensures result.Handled? ==>
                L.CopyEntry(flags, old(CurrentBooks()), i, size, process.regs.eax) == L.Done(CurrentBooks())
      ensures result.Handled? ==>
                MovedContents(old(process.data), process.data, process.regs.eax, old(resources.elems[i].entry), size)
    {
      hide Registry, F.Diagnoses, Aligned;
      hide Resources.Accounts, L.Find, Backtrace.Usable, L.Live, L.Report, L.Produced, L.Released, L.Delete, L.Enter;
      hide ByConsumer, ByProducer;
      hide MovedContents, AllTyped, AllTraced;
      var ok, a := process.ReadResult();
      if !ok {
        CloseBacktrace(bt);
        return Failed;
      }
      var was := resources.elems[i].entry;
      if was.addr == a {
        return Aborted;
      }
      if a == 0 {
        ReallocFailure(size, was.addr, was.size, bt);
        return Failed;
      }
      if flags.stats {
        stats := L.Released(stats, was.size);
      }
      if was.consumer.Some? || resources.nActive == 0 {
        return Aborted;
      }
      DeleteObject(i, L.Realloc, bt);
      result := EnterObject(a, size, L.Realloc, bt);
      if result.Failed? {
        CloseBacktrace(bt);
      }
      if !result.Handled? {
        return;
      }
      result := MoveContents(a, was, size);
      if result.Handled? && flags.usage {
        ReportUsage();
      }
    }

    /** The bytes both sizes have in common are copied to the new object; with -z the old object is
        then zeroed. */
    ghost predicate MovedContents(m: Memory, m': Memory, a: Word, was: L.Entry, size: Word) {
      var copied := Copy(m, a, was.addr, if was.size < size then was.size else size, process.bigEndian);
      copied.Some? &&
      Some(m') == if zero then Fill(copied.value, was.addr, ZEROS, was.size, process.bigEndian) else copied
    }

    method MoveContents(a: Word, was: L.Entry, size: Word) returns (result: Result)
      requires process.status == Stopped
      modifies process`data, process`refused
      ensures result.Handled? ==> MovedContents(old(process.data), process.data, a, was, size)
      ensures
        || result.Handled? || (result.Failed? && process.refused)
        || (result.Aborted? && (!Aligned(a) || !Aligned(was.addr)))
    {
      hide Fill, Copy;
      var n := if was.size < size then was.size else size;
      if !Aligned(a) || !Aligned(was.addr) {
        return Aborted;
      }
      var ok := process.Memcpy(a, was.addr, n);
      if !ok {
        return Failed;
      }
      result := Handled;
      if zero {
        result := Scrub(was.addr, was.size);
      }
    }

    /** The content-preservation rule of realloc (section 7.20.3.4 of ISO/IEC 9899:1999) for objects
        that do not overlap: the new object starts with the contents of the old one exactly when no
        byte under the mask of a partial last word had bits of its own. */
    lemma ReallocKeepsContents(m: Memory, m': Memory, a: Word, was: L.Entry, size: Word)
      requires MovedContents(m, m', a, was, size)
      requires Range(m, a, Ceiling(size)) && Range(m, was.addr, Ceiling(was.size))
      requires a + Ceiling(size) <= was.addr || was.addr + Ceiling(was.size) <= a
      ensures var n := if was.size < size then was.size else size;
              && Range(m, a, Ceiling(n)) && Range(m, was.addr, Ceiling(n))
              && (SameBytes(m, m', a, was.addr, n) <==> TailHarmless(m, a, was.addr, n, process.bigEndian))
              && (n % 4 == 0 ==> SameBytes(m, m', a, was.addr, n))
    {
      hide Copy, Fill, SameBytes, TailHarmless;
      var n := if was.size < size then was.size else size;
      assert Ceiling(n) <= Ceiling(size);
      ShorterRange(m, a, Ceiling(size), Ceiling(n));
      ContentsMoved(m, m', a, was.addr, n, was.size, zero, process.bigEndian);
    }

    /** What a completed realloc leaves: the object has been moved, with its contents if memory is kept. */
    ghost predicate Moved(m: Memory, m': Memory, es: seq<L.Entry>, a: Word, size: Word, r: Word) {
      var i := L.Find(es, a);
      if a == 0 || i == |es| then m' == m
      else if flags.free then Vacated(m, m', es[i], r)
      else MovedContents(m, m', r, es[i], size)
    }

    method DoRealloc() returns (result: Result, ghost e: L.Event)
      requires Ready() && AtCall(ReallocKind)
      modifies this`stats, this`log, process, resources, resources.owned`refCount, resources.owned`freed
      ensures Closable() && fresh(resources.owned - old(resources.owned))
      ensures forall b :: b in resources.owned ==> b in old(resources.owned) || b.Complete()
      ensures result.Handled? ==> Ready()
      ensures Outcome(result, ReallocKind, old(Origin()), old(Here()), old(CurrentBooks()), e)
    {
      hide Resources.Accounts, AllTyped, AllTraced, Mapped, Peek, Poke, Number, Wrap, Backtrace.Usable, Guarded, Back;
      hide L.Step, F.Diagnoses, Misaligned, Begun, ByProducer, ByConsumer, Walked, AtCall, Consistent, Closable;
      hide Outcome, Ready, Backtrace.Complete, Moved, Excused;
      ghost var from, s, b := Origin(), Here(), CurrentBooks();
      LittleEndian();
      NothingRun(ReturnOf(s), Passed(b, ReallocKind, s));
      e := L.UsageCall;
      result := Failed;
      var ok: bool, a: Word, size: Word, ra: Word, bt: Backtrace? := EnterRealloc();
      if !ok {
        NothingKnown(ReallocKind, from, s, b);
        return;
      }
      CallBegun(L.Realloc, bt);
      ConsumedHere(ReallocKind, L.Realloc, bt);
      if a == 0 {
        result := ReallocNull(size, ra, bt);
      } else {
        result := ReallocObject(a, size, ra, bt);
      }
      e := L.ReallocCall(a, size, process.regs.eax);
      ReallocOutcome(result, from, s, b, e);
    }

    /** realloc, however it ends. */
    lemma ReallocOutcome(result: Result, from: Start, s: Stop, b: L.Books, e: L.Event)
      requires Readable(ReallocKind, s) && e == L.ReallocCall(Arg(s, 0), Arg(s, 1), process.regs.eax)
      requires Guarded(from, ReturnOf(s), if e.addr != 0 && !flags.free then NullArg(s) else s.data)
      requires Excused(result, b, from.stops, e)
      requires b.log <= log && F.Diagnoses(log) == F.Diagnoses(b.log) + L.Diagnose(b.elems, L.Realloc, e.addr)
      requires result.Handled? ==>
                 && L.Step(flags, b, e) == L.Done(CurrentBooks())
                 && process.text == from.text && Back(from.stops, ReturnOf(s), from.regs, false)
                 && Moved(process.arrived, process.data, b.elems, e.addr, e.size, e.result)
      ensures Outcome(result, ReallocKind, from, s, b, e)
    {
      hide Guarded, Excused, L.Step, Arg, Back, F.Diagnoses, Moved, NullArg;
    }

    /** What realloc's handler needs to know first. */
    method EnterRealloc() returns (ok: bool, a: Word, size: Word, ra: Word, bt: Backtrace?)
      requires Ready()
      modifies resources`owned, resources`held, resources`full, process`refused, process`denials
      ensures ok || Trouble()
      ensures Consistent() && Closable() && process.status == Stopped && fresh(resources.owned - old(resources.owned))
      ensures forall b :: b in resources.owned ==> b in old(resources.owned) || b.Complete()
      ensures ok ==> resources.held == bt && (bt != null <==> flags.backtrace) && Walked(bt)
      ensures ok ==> ReadableArg(Here(), 0) && a == Arg(Here(), 0) && ra == ReturnOf(Here())
      ensures ok ==> ReadableArg(Here(), 1) && size == Arg(Here(), 1)
      ensures !ok ==> resources.held == null
    {
      hide Backtrace.Complete;
      hide Resources.Accounts, AllTyped, AllTraced, Mapped, Peek, Number, Backtrace.Usable;
      ra, bt := 0, null;
      ok, a, size := ReadArgs();
      if ok {
        ok, ra := process.ReturnAddr();
      }
      if ok {
        ok, bt := ProduceBacktrace();
      }
    }

    /** realloc of null: run, and its result entered as a malloc's. */
    method ReallocNull(size: Word, ra: Word, bt: Backtrace?) returns (result: Result)
      requires Begun(L.Realloc, size, bt)
      requires Consistent() && process.status == Stopped
      requires resources.held == bt && (bt != null <==> flags.backtrace)
      modifies this`stats, this`log, process, resources, resources.owned`refCount, resources.owned`freed
      ensures Guarded(old(Origin()), ra, old(process.data)) && Closable() && resources.owned <= old(resources.owned)
      ensures result.Handled? ==> Ready() && process.text == old(process.text)
      ensures result.Handled? ==>
                var b := old(CurrentBooks());
                && L.Step(flags, b, L.ReallocCall(0, size, process.regs.eax)) == L.Done(CurrentBooks())
                && Moved(process.arrived, process.data, b.elems, 0, size, process.regs.eax)
      ensures Excused(result, old(CurrentBooks()), old(process.stops), L.ReallocCall(0, size, process.regs.eax))
      ensures old(log) <= log
      ensures F.Diagnoses(log) == F.Diagnoses(old(log)) + L.Diagnose(old(Entries(resources.elems)), L.Realloc, 0)
      ensures result.Handled? ==> Back(old(process.stops), ra, old(process.regs), false)
    {
      hide Resources.Accounts, AllTyped, AllTraced, L.Find, Mapped, Peek, Poke, Backtrace.Usable, Guarded, Returned;
      hide L.Enter, L.EnterAndReport, L.Step, Misaligned, F.Diagnoses, ByProducer, Excused, Vacated, MovedContents;
      ghost var b := CurrentBooks();
      var ok := DoAction(ra);
      if !ok {
        CloseBacktrace(bt);
        Refused(b, old(process.stops), L.ReallocCall(0, size, process.regs.eax));
        return Failed;
      }
      ProducedNow(old(SoFar()), L.Realloc, size, bt);
      result := ReallocMalloc(size, bt, true);
      ReallocOfNull(flags, b, size, process.regs.eax);
      HasReturned(result, b, old(process.stops), ra, process.regs, process.arrived,
                  L.ReallocCall(0, size, process.regs.eax));
    }

    /** realloc of an address that is not zero: diagnosed, run - as a malloc when memory is kept - and
        entered in the books. */
    method ReallocObject(a: Word, size: Word, ra: Word, bt: Backtrace?) returns (result: Result)
      requires Begun(L.Realloc, size, bt) && ByConsumer(SoFar(), a, L.Realloc, bt)
      requires Consistent() && process.status == Stopped && a != 0
      requires resources.held == bt && (bt != null <==> flags.backtrace)
      modifies this`stats, this`log, process, resources, resources.owned`refCount, resources.owned`freed
      ensures Guarded(old(Origin()), ra, if !flags.free then NullArg(old(Here())) else old(process.data))
      ensures Closable() && resources.owned <= old(resources.owned)
      ensures result.Handled? ==> Ready() && process.text == old(process.text)
      ensures result.Handled? ==>
                var b := old(CurrentBooks());
                && L.Step(flags, b, L.ReallocCall(a, size, process.regs.eax)) == L.Done(CurrentBooks())
                && Moved(process.arrived, process.data, b.elems, a, size, process.regs.eax)
      ensures Excused(result, old(CurrentBooks()), old(process.stops), L.ReallocCall(a, size, process.regs.eax))
      ensures old(log) <= log
      ensures F.Diagnoses(log) == F.Diagnoses(old(log)) + L.Diagnose(old(Entries(resources.elems)), L.Realloc, a)
      ensures result.Handled? ==> Back(old(process.stops), ra, old(process.regs), false)
    {
      hide Resources.Accounts, AllTyped, AllTraced, L.Find, Mapped, Peek, Poke, Number, Bytes;
      hide Backtrace.Usable, Guarded, Returned, F.Diagnoses, NullArg, Vacated, MovedContents, Misaligned;
      hide Begun, ByProducer, ByConsumer, Walked, AtCall, L.Step, L.Diagnose, Excused;
      ghost var b := CurrentBooks();
      NothingRun(ra, if !flags.free then NullArg(Here()) else process.data);
      var ok: bool;
      var i := resources.Lookup(a);
      LogDiagnosis(a, L.Realloc, i);
      DiagnosisAdded(old(log), b.elems, L.Realloc, a, log);
      if i == |resources.elems| && flags.free {
        result := JustRun(ra, bt);
        ReallocOfOther(flags, b, CurrentBooks(), a, size, process.regs.eax);
        if result.Handled? {
          NoExcuse(b, old(process.stops), L.ReallocCall(a, size, process.regs.eax));
        } else {
          Refused(b, old(process.stops), L.ReallocCall(a, size, process.regs.eax));
        }
        return;
      }
      if i < |resources.elems| && resources.elems[i].entry.consumer.Some? && flags.free {
        // double frees are diagnosed only when memory is kept
        ConsumedEnds(b, a, size, process.regs.eax);
        return Aborted;
      }
      ok := RunRealloc(ra, bt, a, size);
      if !ok {
        Refused(b, old(process.stops), L.ReallocCall(a, size, process.regs.eax));
        return Failed;
      }
      result := RecordRealloc(i, a, size, bt, b);
      DiagnosisAdded(old(log), b.elems, L.Realloc, a, log);
      HasReturned(result, b, old(process.stops), ra, process.regs, process.arrived,
                  L.ReallocCall(a, size, process.regs.eax));
    }

    /** With -f the realloc of a consumed object would end the run whatever it returned. */
    lemma ConsumedEnds(b: L.Books, a: Word, size: Word, r: Word)
      requires flags.free && a != 0 && log == b.log + L.Diagnose(b.elems, L.Realloc, a)
      requires var i := L.Find(b.elems, a); i < |b.elems| && b.elems[i].consumer.Some?
      ensures Excused(Aborted, b, process.stops, L.ReallocCall(a, size, r))
    {
      hide L.Diagnose, L.Find, Misaligned;
    }

    lemma MisalignedIsLive(b: L.Books, a: Word)
      ensures LiveAt(b, a) ==> L.Diagnose(b.elems, L.Realloc, a) == []
    {
    }

    /** Enters a realloc that has been diagnosed and run in the books, which were `b` before. */
    method RecordRealloc(i: nat, a: Word, size: Word, bt: Backtrace?, ghost b: L.Books) returns (result: Result)
      requires ByProducer(SoFar(), process.regs.eax, size, L.Realloc, bt) && ByConsumer(SoFar(), a, L.Realloc, bt)
      requires Consistent() && process.status == Stopped && process.arrived == process.data && a != 0
      requires resources.held == bt && (bt != null <==> flags.backtrace)
      requires i == L.Find(Entries(resources.elems), a)
      requires flags.free ==> i < |resources.elems| && resources.elems[i].entry.consumer.None?
      requires CurrentBooks() == b.(log := b.log + L.Diagnose(b.elems, L.Realloc, a))
      modifies this`stats, this`log, process`data, process`denials, process`refused, resources
      modifies resources.owned`refCount, resources.owned`freed
      ensures Closable() && resources.owned <= old(resources.owned) && Quiet(old(log), log)
      ensures result.Handled? ==> Ready()
      ensures result.Handled? ==>
                && L.Step(flags, b, L.ReallocCall(a, size, process.regs.eax)) == L.Done(CurrentBooks())
                && Moved(process.arrived, process.data, b.elems, a, size, process.regs.eax)
      ensures
        || result.Handled? || (result.Failed? && Trouble())
        || Ending(b, L.ReallocCall(a, size, process.regs.eax))
    {
      hide Resources.Accounts, AllTyped, AllTraced, L.Find, Backtrace.Usable, ByProducer, ByConsumer, Quiet;
      hide L.Enter, L.EnterAndReport, L.MoveEntry, L.CopyEntry, MovedContents, L.Step, L.Diagnose, Vacated;
      ghost var b1 := CurrentBooks();
      MisalignedIsLive(b, a);
      result := FinishRealloc(i, a, size, bt);
      ReallocOfOther(flags, b, b1, a, size, process.regs.eax);
    }

    /** The target runs the function, given zero for the address when memory is kept. */
    method RunRealloc(ra: Word, bt: Backtrace?, ghost a: Word, ghost size: Word) returns (ok: bool)
      requires Begun(L.Realloc, size, bt) && ByConsumer(SoFar(), a, L.Realloc, bt)
      requires Consistent() && process.status == Stopped && resources.held == bt
      modifies process, resources`owned, resources`held, resources.owned`refCount, resources.owned`freed
      ensures Guarded(old(Origin()), ra, if !flags.free then NullArg(old(Here())) else old(process.data))
      ensures Closable() && resources.owned <= old(resources.owned)
      ensures !ok ==> process.refused && resources.held == null
      ensures ok ==> Consistent() && process.status == Stopped && resources.held == bt
      ensures ok ==> process.text == old(process.text) && process.arrived == process.data
      ensures ok ==> Back(old(process.stops), ra, old(process.regs), false)
      ensures ok ==> ByProducer(SoFar(), process.regs.eax, size, L.Realloc, bt) && ByConsumer(SoFar(), a, L.Realloc, bt)
    {
      hide Resources.Accounts, AllTyped, AllTraced, Mapped, Peek, Poke, Number, Bytes, Backtrace.Usable;
      hide Guarded, Returned, PerhapsReturned, ByProducer, ByConsumer, Later;
      NullBytes(process.bigEndian);
      NothingRun(ra, if !flags.free then NullArg(Here()) else process.data);
      ok := true;
      if !flags.free {
        ok := process.WriteArg(0, 0);
      }
      if ok {
        ok := DoAction(ra);
      }
      if !ok {
        CloseBacktrace(bt);
        return;
      }
      ProducedNow(old(SoFar()), L.Realloc, size, bt);
      ArrivedIsLater(Registry(actions), old(process.stops), process.stops, ra, process.regs, process.arrived);
      ByConsumerLater(old(SoFar()), SoFar(), a, L.Realloc, bt);
    }

    /** What is left of a realloc of an address that is not zero once the target has run it. */
    method FinishRealloc(i: nat, a: Word, size: Word, bt: Backtrace?) returns (result: Result)
      requires ByProducer(SoFar(), process.regs.eax, size, L.Realloc, bt) && ByConsumer(SoFar(), a, L.Realloc, bt)
      requires Consistent() && process.status == Stopped && process.arrived == process.data && a != 0
      requires resources.held == bt && (bt != null <==> flags.backtrace)
      requires i == L.Find(Entries(resources.elems), a)
      requires flags.free ==> i < |resources.elems| && resources.elems[i].entry.consumer.None?
      modifies this`stats, this`log, process`data, process`denials, process`refused, resources
      modifies resources.owned`refCount, resources.owned`freed
      ensures Closable() && resources.owned <= old(resources.owned) && Quiet(old(log), log)
      ensures result.Handled? ==> Ready()
      ensures
        || result.Handled? || (result.Failed? && Trouble())
        || (Misaligned(old(CurrentBooks()), L.ReallocCall(a, size, process.regs.eax)) && log == old(log))
        || L.ReallocRest(flags, old(CurrentBooks()), a, size, process.regs.eax) == L.Stopped(log)
      ensures result.Handled? ==>
                && L.ReallocRest(flags, old(CurrentBooks()), a, size, process.regs.eax) == L.Done(CurrentBooks())
                && Moved(process.arrived, process.data, old(Entries(resources.elems)), a, size, process.regs.eax)
    {
      hide Resources.Accounts, AllTyped, AllTraced, L.Find, Backtrace.Usable;
      hide ByConsumer, ByProducer;
      hide L.Enter, L.EnterAndReport, MovedContents, Vacated, L.Live, L.Report, L.Produced, L.Released, L.Delete;
      if i == |resources.elems| {
        result := ReallocMalloc(size, bt, false);
      } else if flags.free {
        result := ReallocMove(i, size, bt);
      } else {
        result := ReallocCopy(i, size, bt);
      }
    }

    // ---- usage function ---------------------------------------------------

    method DoUsage() returns (result: Result, ghost e: L.Event)
      requires Ready() && AtCall(UsageKind)
      modifies this`log, process
      ensures Closable() && (result.Handled? ==> Ready())
      ensures Outcome(result, UsageKind, old(Origin()), old(Here()), old(CurrentBooks()), e)
    {
      hide Resources.Accounts, AllTyped, AllTraced, Mapped, Peek, Poke, Number, Bytes, Guarded, Back, F.Diagnoses;
      ghost var s := Here();
      NothingRun(ReturnOf(s), s.data);
      e := L.UsageCall;
      ReportUsage();
      var ok, ra := process.ReturnAddr();
      if ok {
        ok := DoAction(ra);
      }
      result := if ok then Handled else Failed;
    }

    // ---- breakpoints ------------------------------------------------------

    /** Text and saved words are those of the registered breakpoints on the original text. */
    ghost predicate Armed(original: Memory)
      reads this, process
    {
      ArmedText(original, actions, process.text)
    }

    ghost predicate ArmedText(original: Memory, registered: seq<Registered>, text: Memory) {
      var addrs := Addrs(registered);
      && AllMapped(original, addrs)
      && text == Install(original, addrs, process.Breakpoint())
      && Instrs(registered) == Saved(original, addrs, process.Breakpoint())
    }

    method RemoveBreakpoints(ghost original: Memory) returns (ok: bool)
      requires process.status == Stopped
      modifies process`text, process`refused
      ensures ok || process.refused
      ensures PairwiseApart(Addrs(actions)) && old(Armed(original)) ==> ok && process.text == original
    {
      hide Install, Saved, Peek, Poke;
      ghost var addrs, ss := Addrs(actions), Instrs(actions);
      ghost var sound := PairwiseApart(addrs) && Armed(original);
      if sound {
        ApartCycle(original, addrs, process.Breakpoint());
      }
      var i := 0;
      assert addrs[0..] == addrs && ss[0..] == ss;
      while i < |actions|
        invariant i <= |actions|
        invariant sound ==> AllMapped(process.text, addrs[i..]) && Remove(process.text, addrs[i..], ss[i..]) == original
      {
        assert addrs[i..][0] == actions[i].addr && ss[i..][0] == actions[i].instr;
        assert addrs[i..][1..] == addrs[i + 1..] && ss[i..][1..] == ss[i + 1..];
        ok := process.Restore(actions[i].addr, actions[i].instr);
        if !ok {
          return;
        }
        i := i + 1;
      }
      return true;
    }

    method InstallBreakpoints(ghost original: Memory) returns (ok: bool)
      requires process.status == Stopped
      modifies process`text, process`refused, this`actions
      ensures Addrs(actions) == old(Addrs(actions)) && Registry(actions) == old(Registry(actions))
      ensures ok || process.refused
      ensures ok && old(process.text) == original ==> Armed(original)
    {
      hide Peek, Poke, Mapped, AllMapped, Install, Saved;
      ghost var addrs, bp, m := Addrs(actions), process.Breakpoint(), process.text;
      ghost var kept: seq<Quad> := [];
      var i := 0;
      NothingInstalled(m, bp);
      assert addrs[..0] == [];
      while i < |actions|
        invariant i <= |actions| && |kept| == i
        invariant Addrs(actions) == addrs && Registry(actions) == old(Registry(actions))
        invariant forall j :: 0 <= j < i ==> actions[j].instr == kept[j]
        invariant AllMapped(m, addrs[..i])
        invariant process.text == Install(m, addrs[..i], bp) && kept == Saved(m, addrs[..i], bp)
      {
        var instr: Quad;
        ok, instr := process.SetBreakpoint(actions[i].addr);
        if !ok {
          return;
        }
        SameKeysMapped(Install(m, addrs[..i], bp), m, addrs[i]);
        InstallSnoc(m, addrs[..i], addrs[i], bp);
        assert addrs[..i + 1] == addrs[..i] + [addrs[i]];
        actions := actions[i := actions[i].(instr := instr)];
        kept := kept + [instr];
        i := i + 1;
      }
      assert addrs[..i] == addrs && Instrs(actions) == kept;
      return true;
    }

    // ---- opening ----------------------------------------------------------

    /** The registered addresses differ, and if their words do not overlap the text is armed. */
    ghost predicate Registrations(original: Memory)
      reads this, process
    {
      && (forall i, j :: 0 <= i < j < |actions| ==> actions[i].addr != actions[j].addr)
      && (PairwiseApart(Addrs(actions)) ==> Armed(original))
    }

    method FindAction(a: Word) returns (i: nat)
      ensures i <= |actions| && (i < |actions| ==> actions[i].addr == a)
      ensures forall j :: 0 <= j < i ==> actions[j].addr != a
      ensures KindAt(Registry(actions), a) == if i < |actions| then Some(actions[i].kind) else None
    {
      i := 0;
      while i < |actions| && actions[i].addr != a
        invariant i <= |actions|
        invariant forall j :: 0 <= j < i ==> actions[j].addr != a
      {
        i := i + 1;
      }
      KindFound(Registry(actions), i, a);
    }

    /** Registers a function if the target has it and nothing is registered at its address yet. */
    method ManageAction(kind: Kind, fn: Option<Word>, ghost original: Memory) returns (ok: bool)
      requires process.status == Stopped && Registrations(original)
      modifies this`actions, process`text, process`refused
      ensures ok || (process.refused && fn.Some? && !Mapped(old(process.text), fn.value))
      ensures process.text.Keys == old(process.text).Keys
      ensures ok ==> Registrations(original)
      ensures ok ==> Registry(actions) == Register(old(Registry(actions)), kind, fn)
    {
      hide Install, Saved, Peek, Poke, Mapped, AllMapped, PairwiseApart, ArmedText, KindAt;
      if fn.None? {
        return true;
      }
      var a := fn.value;
      var i := FindAction(a);
      if i < |actions| {
        return true;
      }
      var instr: Quad;
      ok, instr := process.SetBreakpoint(a);
      if !ok {
        return;
      }
      var was := actions;
      actions := [Registered(a, kind, instr)] + was;
      OneMoreRegistered(original, was, actions[0], old(process.text));
      assert Registry(actions) == [Place(a, kind)] + old(Registry(actions));
    }

    /** Registering one more function keeps the registrations sound. */
    lemma OneMoreRegistered(original: Memory, was: seq<Registered>, one: Registered, text: Memory)
      requires actions == [one] + was
      requires forall j :: 0 <= j < |was| ==> was[j].addr != one.addr
      requires forall i, j :: 0 <= i < j < |was| ==> was[i].addr != was[j].addr
      requires PairwiseApart(Addrs(was)) ==> ArmedText(original, was, text)
      requires Mapped(text, one.addr) && one.instr == Peek(text, one.addr)
      requires process.text == Poke(text, one.addr, process.Breakpoint())
      ensures Registrations(original)
    {
      hide Install, Saved, Peek, Poke, Mapped, Apart, AllMapped, PairwiseApart, ArmedText;
      assert Addrs(actions) == [one.addr] + Addrs(was);
      forall i, j | 0 <= i < j < |actions|
        ensures actions[i].addr != actions[j].addr
      {
        assert actions[j] == was[j - 1];
      }
      if PairwiseApart(Addrs(actions)) {
        ApartTail(one.addr, Addrs(was));
        ArmedOnceMore(original, was, one, text);
      }
    }

    /** A breakpoint away from the others arms the text with one function more. */
    lemma ArmedOnceMore(original: Memory, was: seq<Registered>, one: Registered, text: Memory)
      requires PairwiseApart([one.addr] + Addrs(was)) && ArmedText(original, was, text)
      requires Mapped(text, one.addr) && one.instr == Peek(text, one.addr)
      ensures ArmedText(original, [one] + was, Poke(text, one.addr, process.Breakpoint()))
    {
      hide Install, Saved, Peek, Poke, Mapped, Apart, PairwiseApart;
      assert Mapped(original, one.addr) by { SameKeysMapped(text, original, one.addr); }
      EnterBreakpoint(original, one.addr, Addrs(was), process.Breakpoint());
      assert Addrs([one] + was) == [one.addr] + Addrs(was);
      assert Instrs([one] + was) == [one.instr] + Instrs(was);
    }

    /** Registers the allocation functions the target has, and the usage function. */
    method Open(symbols: Symbols) returns (ok: bool)
      requires Ready() && actions == [] && resources.elems == []
      modifies this`actions, process`text, process`refused
      ensures Ready() && (ok || process.refused)
      ensures AllThere(old(process.text), symbols) ==> ok
      ensures ok ==> Registrations(old(process.text)) && Registry(actions) == Places(symbols)
    {
      hide Resources.Accounts, Registrations, AllTyped, AllTraced, AllThere, Places;
      ok := RegisterAll(symbols);
      NothingTraced(SoFar());
    }

    method RegisterAll(symbols: Symbols) returns (ok: bool)
      requires process.status == Stopped && actions == []
      modifies this`actions, process`text, process`refused
      ensures ok || process.refused
      ensures AllThere(old(process.text), symbols) ==> ok
      ensures ok ==> Registrations(old(process.text)) && Registry(actions) == Places(symbols)
    {
      hide Registrations, Register;
      ghost var original := process.text;
      NothingRegistered(original);
      assert Registry(actions) == [];
      ok := ManageAction(MallocKind, symbols.malloc, original);
      if ok {
        ok := ManageAction(CallocKind, symbols.calloc, original);
      }
      if ok {
        ok := ManageAction(ReallocKind, symbols.realloc, original);
      }
      if ok {
        ok := ManageAction(ConsumerKind(L.Free), symbols.free, original);
      }
      if ok {
        ok := ManageAction(ConsumerKind(L.Cfree), symbols.cfree, original);
      }
      if ok {
        ok := ManageAction(UsageKind, symbols.usage, original);
      }
    }

    /** The first word of every function can be overwritten. */
    static predicate AllThere(text: Memory, s: Symbols) {
      && There(text, s.malloc) && There(text, s.calloc) && There(text, s.realloc)
      && There(text, s.free) && There(text, s.cfree) && There(text, s.usage)
    }

    static predicate There(text: Memory, fn: Option<Word>) {
      fn.Some? ==> Mapped(text, fn.value)
    }

    lemma NothingRegistered(original: Memory)
      requires actions == [] && process.text == original
      ensures Registrations(original)
    {
      assert Addrs(actions) == [] && Instrs(actions) == [];
    }

    // ---- the run ----------------------------------------------------------

    /** The target is resumed only with breakpoints at exactly the registered addresses on its
        original text, or, while a call is handled, with the return address alone patched. */
    ghost predicate Disciplined(original: Memory, addrs: seq<Word>, r: Resumption)
    {
      match r.handled
      case None => AllMapped(original, addrs) && r.text == Install(original, addrs, process.Breakpoint())
      case Some(ra) => Mapped(original, ra) && r.text == Poke(original, ra, process.Breakpoint())
    }

    /** The stop the target is at. */
    ghost function Here(): Stop
      reads process`pc, process`regs, process`data
    {
      Stop(process.pc, process.regs, process.data, None)
    }

    method Handle(kind: Kind) returns (result: Result, ghost e: L.Event)
      requires Ready() && AtCall(kind)
      modifies this`stats, this`log, process, resources, resources.owned`refCount, resources.owned`freed
      ensures Closable() && fresh(resources.owned - old(resources.owned))
      ensures forall b :: b in resources.owned ==> b in old(resources.owned) || b.Complete()
      ensures result.Handled? ==> Ready()
      ensures Outcome(result, kind, old(Origin()), old(Here()), old(CurrentBooks()), e)
    {
      hide Closable, Ready, Consistent, AtCall, Outcome, Backtrace.Complete, Origin, Here;
      match kind {
        case MallocKind => result, e := DoMalloc();
        case CallocKind => result, e := DoCalloc();
        case ReallocKind => result, e := DoRealloc();
        case ConsumerKind(who) => result, e := DoConsumer(who);
        case UsageKind => result, e := DoUsage();
      }
    }

    /** Handles the call of a registered function: breakpoints out, the call, breakpoints in. */
    method HandleStop(i: nat, ghost original: Memory) returns (result: Result, ghost e: L.Event)
      requires Ready() && i < |actions| && AtCall(actions[i].kind)
      requires PairwiseApart(Addrs(actions)) ==> Armed(original)
      modifies this`stats, this`log, this`actions, process, resources
      modifies resources.owned`refCount, resources.owned`freed
      ensures Closable() && fresh(resources.owned - old(resources.owned))
      ensures forall b :: b in resources.owned ==> b in old(resources.owned) || b.Complete()
      ensures Addrs(actions) == old(Addrs(actions)) && Registry(actions) == old(Registry(actions))
      ensures process.Followed(old(process.events)) && |process.events| <= |old(process.events)|
      ensures Keeps(old(process.trail), process.trail)
      ensures CallRuns(|old(process.trail)|, old(process.stops), old(Here()),
                       Passed(old(CurrentBooks()), old(actions)[i].kind, old(Here())))
      ensures PairwiseApart(Addrs(actions)) ==> Discipline(original, Addrs(actions), |old(process.trail)|)
      ensures result.Handled? ==> Ready() && (PairwiseApart(Addrs(actions)) ==> Armed(original))
      ensures result.Handled? ==>
                Settled(old(actions)[i].kind, old(process.stops), old(process.regs), old(Here()),
                        old(CurrentBooks()), e)
      ensures Excused(result, old(CurrentBooks()), old(process.stops), e) && Known(old(actions)[i].kind, old(Here()), e)
      ensures PerhapsReturned(old(process.stops), process.stops, ReturnOf(old(Here())), process.regs)
      ensures old(log) <= log
      ensures F.Diagnoses(log) == F.Diagnoses(old(log)) + L.DiagnosisOf(old(Entries(resources.elems)), e)
    {
      hide F.Diagnoses, Backtrace.Complete, Resources.Accounts, AllTyped, AllTraced, Install, Saved, Poke, Peek, Mapped;
      hide AllMapped, PairwiseApart, L.Step, Armed, Disciplined, PerhapsReturned, RunsOf, Settled, EndsIn;
      hide CallAt, Passed;
      ghost var sound, s, b := PairwiseApart(Addrs(actions)), Here(), CurrentBooks();
      e := L.UsageCall;
      result := Failed;
      var kind := actions[i].kind;
      var ok := RemoveBreakpoints(original);
      if !ok {
        NothingStopped(process.stops, ReturnOf(s), process.regs);
        return;
      }
      ghost var from := Origin();
      result, e := Handle(kind);
      RunsAreCalls(from, s, Passed(b, kind, s));
      if sound {
        GuardedIsDisciplined(from, ReturnOf(s), Passed(b, kind, s), original, Addrs(actions));
      }
      if result.Handled? {
        ok := InstallBreakpoints(original);
        if !ok {
          result := Failed;
        }
      }
    }

    lemma NothingStopped(stops: seq<Stop>, ra: Word, regs: Registers)
      ensures PerhapsReturned(stops, stops, ra, regs)
    {
    }

    /** A resumption while the call made at stop `s` is handled: the target runs from there on data `m` to the
        address that the function returns to, or is sent on after a signal. */
    static ghost predicate Within(before: seq<Stop>, s: Stop, m: Memory, r: Resumption) {
      && r.handled == Some(ReturnOf(s)) && r.after == |before|
      && (r.signalled || (r.regs == s.regs.(eip := s.pc) && r.data == m))
    }

    /** Resumption `n` and those after it are such. */
    ghost predicate CallRuns(n: nat, before: seq<Stop>, s: Stop, m: Memory)
      reads process`trail
    {
      forall i :: n <= i < |process.trail| ==> Within(before, s, m, process.trail[i])
    }

    lemma RunsAreCalls(from: Start, s: Stop, m: Memory)
      requires RunsOf(from, ReturnOf(s), m, process.trail, process.Breakpoint())
      requires from.pc == s.pc && from.regs == s.regs
      ensures CallRuns(|from.trail|, from.stops, s, m)
    {
    }

    lemma GuardedIsDisciplined(from: Start, ra: Word, m: Memory, original: Memory, addrs: seq<Word>)
      requires RunsOf(from, ra, m, process.trail, process.Breakpoint()) && from.text == original
      ensures Discipline(original, addrs, |from.trail|)
    {
    }

    /** From resumption `n` on, all are disciplined. */
    ghost predicate Discipline(original: Memory, addrs: seq<Word>, n: nat)
      reads process`trail
    {
      DisciplinedFrom(original, addrs, process.trail, n)
    }

    ghost predicate DisciplinedFrom(original: Memory, addrs: seq<Word>, t: seq<Resumption>, n: nat) {
      forall i :: n <= i < |t| ==> Disciplined(original, addrs, t[i])
    }

    static ghost predicate Keeps(t0: seq<Resumption>, t: seq<Resumption>) {
      |t0| <= |t| && t[..|t0|] == t0
    }

    // ---- how the target goes on -------------------------------------------

    /** The books once the calls of these stops were handled. */
    ghost function BooksAt(places: seq<Place>, stops: seq<Stop>): L.Books {
      match L.Replay(flags, CallsOf(flags.free, places, stops))
      case Done(b) => b
      case Stopped(_) => L.EMPTY
    }

    /** After these stops the target, started at `start`, is to go on with these registers and memory: from
        where it returned from a call, with what the call left; from the return address of a call that was
        skipped, which is popped; or from where it happened to stop. */
    ghost predicate Poised(start: Stop, places: seq<Place>, stops: seq<Stop>, regs: Registers, m: Memory) {
      if stops == [] then regs == start.regs.(eip := start.pc) && m == start.data
      else
        var n := |stops| - 1;
        var s := stops[n];
        if s.handled.Some? then
          && n > 0 && KindAt(places, stops[n - 1].pc).Some? && regs == s.regs.(eip := s.pc)
          && Leaves(BooksAt(places, stops[..n - 1]),
                    CallAt(KindAt(places, stops[n - 1].pc).value, stops[n - 1], s.regs.eax), s.data, m)
        else match KindAt(places, s.pc)
          case None => regs == s.regs.(eip := s.pc) && m == s.data
          case Some(kind) =>
            && Skipped(flags.free, kind, s)
            && regs == s.regs.(eip := ReturnOf(s), esp := Wrap(s.regs.esp + 4))
            && Leaves(BooksAt(places, stops[..n]), CallAt(kind, s, 0), s.data, m)
    }

    /** A resumption is as the stops before it call for, unless it only sends the target on after a signal. */
    ghost predicate Sent(start: Stop, places: seq<Place>, stops: seq<Stop>, r: Resumption) {
      && r.after <= |stops|
      && match r.handled
         case None => r.signalled || Poised(start, places, stops[..r.after], r.regs, r.data)
         case Some(ra) =>
           && r.after > 0 && KindAt(places, stops[r.after - 1].pc).Some? && stops[r.after - 1].handled.None?
           && ra == ReturnOf(stops[r.after - 1])
           && (r.signalled || SetOff(places, stops[..r.after - 1], stops[r.after - 1], r))
    }

    /** The function entered at a stop is run from there, with the data it is to have. */
    ghost predicate SetOff(places: seq<Place>, before: seq<Stop>, s: Stop, r: Resumption)
      requires KindAt(places, s.pc).Some?
    {
      && r.regs == s.regs.(eip := s.pc)
      && r.data == Passed(BooksAt(places, before), KindAt(places, s.pc).value, s)
    }

    ghost predicate Orderly(start: Stop, places: seq<Place>, stops: seq<Stop>, trail: seq<Resumption>) {
      forall i :: 0 <= i < |trail| ==> Sent(start, places, stops, trail[i])
    }

    lemma SentLater(start: Stop, places: seq<Place>, stops: seq<Stop>, stops': seq<Stop>, r: Resumption)
      requires Sent(start, places, stops, r) && stops <= stops'
      ensures Sent(start, places, stops', r)
    {
      hide Poised, KindAt, ReturnOf, SetOff;
      assert stops'[..r.after] == stops[..r.after];
      if r.handled.Some? {
        assert stops'[..r.after - 1] == stops[..r.after - 1] && stops'[r.after - 1] == stops[r.after - 1];
      }
    }

    lemma OrderlyMore(start: Stop, places: seq<Place>, stops: seq<Stop>, stops': seq<Stop>,
                      t: seq<Resumption>, t': seq<Resumption>)
      requires Orderly(start, places, stops, t) && stops <= stops' && Keeps(t, t')
      requires forall i :: |t| <= i < |t'| ==> Sent(start, places, stops', t'[i])
      ensures Orderly(start, places, stops', t')
    {
      hide Sent;
      forall i | 0 <= i < |t|
        ensures Sent(start, places, stops', t'[i])
      {
        assert t'[..|t|][i] == t'[i];
        SentLater(start, places, stops, stops', t[i]);
      }
    }

    /** A turn's resumptions before a call are those of a target that is poised. */
    lemma PoisedSent(start: Stop, places: seq<Place>, stops: seq<Stop>, stops': seq<Stop>, r: Resumption,
                     regs: Registers, m: Memory)
      requires stops <= stops' && r.handled.None? && r.after == |stops|
      requires Poised(start, places, stops, regs, m) && (r.signalled || (r.regs == regs && r.data == m))
      ensures Sent(start, places, stops', r)
    {
      hide Poised, KindAt;
      assert stops'[..|stops|] == stops;
    }

    /** A poised target that is set running and then only sent on after signals. */
    lemma OrderlyOn(start: Stop, places: seq<Place>, stops: seq<Stop>, stops': seq<Stop>,
                    t: seq<Resumption>, t': seq<Resumption>, r: Resumption)
      requires Orderly(start, places, stops, t) && Poised(start, places, stops, r.regs, r.data)
      requires stops <= stops' && Keeps(t, t') && |t| < |t'| && t'[|t|] == r
      requires r.handled.None? && r.after == |stops|
      requires forall i :: |t| < i < |t'| ==> SentOn(t'[i], r)
      ensures Orderly(start, places, stops', t')
    {
      hide Poised, Orderly, Sent;
      forall k | |t| <= k < |t'|
        ensures Sent(start, places, stops', t'[k])
      {
        PoisedSent(start, places, stops, stops', t'[k], r.regs, r.data);
      }
      OrderlyMore(start, places, stops, stops', t, t');
    }

    lemma CallSent(start: Stop, places: seq<Place>, before: seq<Stop>, s: Stop, kind: Kind, stops': seq<Stop>,
                   b: L.Books, r: Resumption)
      requires before + [s] <= stops' && s.handled.None? && KindAt(places, s.pc) == Some(kind)
      requires BooksAt(places, before) == b && Within(before + [s], s, Passed(b, kind, s), r)
      ensures Sent(start, places, stops', r)
    {
      hide KindAt, BooksAt, Passed, ReturnOf;
      assert stops'[..|before|] == (before + [s])[..|before|] == before;
      assert stops'[|before|] == (before + [s])[|before|];
    }

    /** A completed call leaves the target poised. */
    lemma SettledPoised(start: Stop, places: seq<Place>, before: seq<Stop>, s: Stop, kind: Kind, b: L.Books, e: L.Event)
      requires s.handled.None? && KindAt(places, s.pc) == Some(kind) && BooksAt(places, before) == b
      requires Settled(kind, before + [s], s.regs, s, b, e)
      ensures Poised(start, places, process.stops, process.regs.(eip := process.pc), process.data)
    {
      hide KindAt, BooksAt, ReturnOf, Leaves, L.Step, Arg;
      var stops, n := process.stops, |process.stops| - 1;
      if Skipped(flags.free, kind, s) {
        assert stops == before + [s] && stops[..n] == before && stops[n] == s;
      } else {
        assert stops[..n - 1] == before && stops[n - 1] == s;
      }
    }

    lemma StoppedPoised(start: Stop, places: seq<Place>, before: seq<Stop>)
      requires process.stops == before + [Here()] && KindAt(places, process.pc).None?
      ensures Poised(start, places, process.stops, process.regs.(eip := process.pc), process.data)
    {
      hide KindAt;
    }

    /** Between two turns of the run: the books are those of the history, which is that of the stops, the
        target is and was armed, went on as it should and is poised to do so. */
    ghost predicate UnderWay(original: Memory, start: Stop, h: seq<L.Event>)
      reads this, process, resources, resources.owned, set bt | bt in resources.owned :: bt.frame
    {
      && Ready() && AllComplete()
      && L.Replay(flags, h) == L.Done(CurrentBooks())
      && h == CallsOf(flags.free, Registry(actions), process.stops)
      && (PairwiseApart(Addrs(actions)) ==> Armed(original) && Discipline(original, Addrs(actions), 0))
      && Poised(start, Registry(actions), process.stops, process.regs.(eip := process.pc), process.data)
      && Orderly(start, Registry(actions), process.stops, process.trail)
    }

    /** What a run that is over leaves: `h` are the calls handled completely before, and `last` the one
        under way, if there was one, the argument of which has been diagnosed. */
    ghost predicate RunOver(r: RunResult, start: Stop, h: seq<L.Event>, last: L.Event)
      reads this, process, resources, resources.owned, set bt | bt in resources.owned :: bt.frame
    {
      && Closable() && AllComplete() && Orderly(start, Registry(actions), process.stops, process.trail)
      && (r.TargetGone? ==>
            && process.status == Exited && Consistent() && resources.held == null && last == L.UsageCall
            && L.Replay(flags, h) == L.Done(CurrentBooks())
            && h == CallsOf(flags.free, Registry(actions), process.stops))
      && L.Replay(flags, h).Done?
      && DiagnosedSoFar(L.Replay(flags, h).books, last)
      && Accounted(h, last)
      && (r.TargetGone? || (r.RunFailed? && Trouble()) || CallEnds(L.Replay(flags, h).books, h, last))
    }

    /** The diagnoses in the log are those in the books and that of the call under way. */
    ghost predicate DiagnosedSoFar(b: L.Books, last: L.Event)
      reads this`log
    {
      b.log <= log && F.Diagnoses(log) == F.Diagnoses(b.log) + L.DiagnosisOf(b.elems, last)
    }

    /** The history and the call under way are those of the stops. */
    ghost predicate Accounted(h: seq<L.Event>, last: L.Event)
      reads this`actions, process`stops
    {
      exists n :: UnderHand(flags.free, Registry(actions), process.stops, n, h, last)
    }

    /** The call under way, as it is in the stops, ends the run. */
    ghost predicate CallEnds(b: L.Books, h: seq<L.Event>, last: L.Event)
      reads this`actions, this`log, process`stops
    {
      exists n: nat ::
        && UnderHand(flags.free, Registry(actions), process.stops, n, h, last)
        && EndsIn(b, last, |process.stops| == n + 1)
    }

    /** Runs the target to its end, handling every call it stops at; `h` is the history of the calls
        that were handled completely. */
    method Run(ghost original: Memory) returns (r: RunResult, ghost h: seq<L.Event>, ghost last: L.Event)
      requires Ready() && CurrentBooks() == L.EMPTY && process.trail == [] && process.stops == []
      requires Registrations(original)
      modifies this, process, resources, resources.owned`refCount, resources.owned`freed
      ensures RunOver(r, old(Here()), h, last) && fresh(resources.owned - old(resources.owned))
      ensures process.Followed(old(process.events))
      ensures LostAtOnce(old(process.denials), old(process.events)) ==> process.lost
      ensures Addrs(actions) == old(Addrs(actions)) && Registry(actions) == old(Registry(actions))
      ensures PairwiseApart(Addrs(actions)) ==> Discipline(original, Addrs(actions), 0)
    {
      hide UnderWay, RunOver, Armed, Discipline, PairwiseApart, LostAtOnce, Ongoing, Ended, CutOff, Ready;
      LittleEndian();
      h := [];
      ghost var start := Here();
      RunStarts(original);
      ghost var all, ds := process.events, process.denials;
      NothingHeard(all);
      while true
        invariant UnderWay(original, start, h)
        invariant Addrs(actions) == old(Addrs(actions)) && Registry(actions) == old(Registry(actions))
        invariant fresh(resources.owned - old(resources.owned))
        invariant Ongoing(all, process.events) && process.status == Stopped
        invariant (process.events == all && process.denials == ds) || !LostAtOnce(ds, all)
        decreases |process.events|
      {
        ghost var heard := process.events;
        var over: Option<RunResult>;
        over, h, last := Turn(original, start, h);
        process.FollowedOn(all, heard);
        if over.Some? {
          return over.value, h, last;
        }
      }
    }

    lemma RunStarts(original: Memory)
      requires Ready() && CurrentBooks() == L.EMPTY && process.trail == [] && process.stops == []
      requires Registrations(original)
      ensures UnderWay(original, Here(), [])
    {
      hide AllTyped, AllTraced, Armed, PairwiseApart;
      assert resources.elems == [];
      assert forall bt :: Refs(resources.elems, bt) == 0;
      assert resources.owned == {};
    }

    /** Runs the target to its next stop and handles the call it makes there. */
    method Turn(ghost original: Memory, ghost start: Stop, ghost h0: seq<L.Event>)
      returns (over: Option<RunResult>, ghost h: seq<L.Event>, ghost last: L.Event)
      requires UnderWay(original, start, h0)
      modifies this, process, resources, resources.owned`refCount, resources.owned`freed
      ensures over.None? ==>
                UnderWay(original, start, h) && process.status == Stopped && |process.events| < |old(process.events)|
      ensures over.Some? ==> RunOver(over.value, start, h, last)
      ensures fresh(resources.owned - old(resources.owned))
      ensures process.Followed(old(process.events))
      ensures LostAtOnce(old(process.denials), old(process.events)) ==> process.lost
      ensures Addrs(actions) == old(Addrs(actions)) && Registry(actions) == old(Registry(actions))
      ensures PairwiseApart(Addrs(actions)) ==> Discipline(original, Addrs(actions), 0)
    {
      hide Backtrace.Complete, Resources.Accounts, AllTyped, AllTraced, Install, Saved, Poke, Peek, Mapped, AllMapped;
      hide PairwiseApart, L.Step, Skipped, Returned, LostAtOnce, Ongoing, Ended, CutOff, ArmedText, DisciplinedFrom;
      hide Registrations, L.Replay, CallsOf, CallAt, KindAt, Awaited, Keeps, EndsIn, PerhapsReturned, UnderHand;
      hide F.Diagnoses, Poised, Orderly;
      h, last := h0, L.UsageCall;
      ghost var places, before, all := Registry(actions), process.stops, process.events;
      var w := ResumeAndWait(original, start);
      if !w.AtBreakpoint? {
        assert process.stops == before;
        NoCallAtHand(flags.free, places, before);
        return Some(if w.Gone? then TargetGone else RunFailed), h, last;
      }
      var i := FindAction(process.pc);
      if i == |actions| {
        NoCallThere(flags.free, places, before, Here());
        StoppedPoised(start, places, before);
        return None, h, last;
      }
      ghost var heard := process.events;
      over, h, last := CallTurn(i, original, start, h, before);
      process.FollowedOn(all, heard);
    }

    /** Handles the call at the stop the target has just come to. */
    method CallTurn(i: nat, ghost original: Memory, ghost start: Stop, ghost h0: seq<L.Event>, ghost before: seq<Stop>)
      returns (over: Option<RunResult>, ghost h: seq<L.Event>, ghost last: L.Event)
      requires Ready() && AllComplete() && i < |actions| && AtCall(actions[i].kind)
      requires process.stops == before + [Here()]
      requires L.Replay(flags, h0) == L.Done(CurrentBooks()) && h0 == CallsOf(flags.free, Registry(actions), before)
      requires Orderly(start, Registry(actions), process.stops, process.trail)
      requires PairwiseApart(Addrs(actions)) ==> Armed(original) && Discipline(original, Addrs(actions), 0)
      modifies this, process, resources, resources.owned`refCount, resources.owned`freed
      ensures over.None? ==> UnderWay(original, start, h) && process.status == Stopped
      ensures over.Some? ==> RunOver(over.value, start, h, last)
      ensures fresh(resources.owned - old(resources.owned))
      ensures process.Followed(old(process.events)) && |process.events| <= |old(process.events)|
      ensures Addrs(actions) == old(Addrs(actions)) && Registry(actions) == old(Registry(actions))
      ensures PairwiseApart(Addrs(actions)) ==> Discipline(original, Addrs(actions), 0)
    {
      hide Backtrace.Complete, Resources.Accounts, AllTyped, AllTraced, Install, Saved, Poke, Peek, Mapped, AllMapped;
      hide L.Step, Skipped, Returned, Ongoing, Ended, CutOff, ArmedText, DisciplinedFrom, Registrations, PairwiseApart;
      hide L.Replay, CallsOf, CallAt, KindAt, Keeps, EndsIn, PerhapsReturned, UnderHand, F.Diagnoses, Poised, Orderly;
      hide Passed, Within, Leaves, BooksAt, ReturnOf;
      ghost var places, s, kind := Registry(actions), Here(), actions[i].kind;
      ghost var b, addrs, t := CurrentBooks(), Addrs(actions), process.trail;
      h := h0;
      var result: Result;
      result, last := HandleStop(i, original);
      DisciplineJoins(original, addrs, t);
      ReplaySnoc(flags, h, b, last);
      BooksAre(places, before, b);
      StopsKept(before + [s], process.stops, ReturnOf(s), process.regs);
      forall k | |t| <= k < |process.trail|
        ensures Sent(start, places, process.stops, process.trail[k])
      {
        CallSent(start, places, before, s, kind, process.stops, b, process.trail[k]);
      }
      OrderlyMore(start, places, before + [s], process.stops, t, process.trail);
      if !result.Handled? {
        CallAtHand(flags.free, places, before, s, process.stops, kind, process.regs, last);
        return Some(if result.Failed? then RunFailed else RunAborted), h, last;
      }
      OneCallMore(flags.free, places, before, s, process.stops, kind, process.regs, process.arrived);
      SettledPoised(start, places, before, s, kind, b, last);
      h := h + [last];
      over := None;
    }

    lemma BooksAre(places: seq<Place>, stops: seq<Stop>, b: L.Books)
      requires L.Replay(flags, CallsOf(flags.free, places, stops)) == L.Done(b)
      ensures BooksAt(places, stops) == b
    {
    }

    lemma StopsKept(before: seq<Stop>, after: seq<Stop>, ra: Word, regs: Registers)
      requires PerhapsReturned(before, after, ra, regs)
      ensures before <= after
    {
    }

    /** The first wait for the target fails. */
    static predicate LostAtOnce(denials: seq<bool>, events: seq<Event>) {
      !Denied(denials) && !ContinueRefused(events) && Fails(Awaited(events).0)
    }

    /** Two stretches of disciplined resumptions. */
    lemma DisciplineJoins(original: Memory, addrs: seq<Word>, t: seq<Resumption>)
      requires Keeps(t, process.trail)
      ensures DisciplinedFrom(original, addrs, t, 0) && Discipline(original, addrs, |t|) ==>
                Discipline(original, addrs, 0)
    {
      hide Disciplined;
      forall i | 0 <= i < |t|
        ensures process.trail[i] == t[i]
      {
        assert process.trail[..|t|][i] == t[i];
      }
    }

    method ResumeAndWait(ghost original: Memory, ghost start: Stop) returns (w: WaitResult)
      requires Ready() && (PairwiseApart(Addrs(actions)) ==> Armed(original) && Discipline(original, Addrs(actions), 0))
      requires Poised(start, Registry(actions), process.stops, process.regs.(eip := process.pc), process.data)
      requires Orderly(start, Registry(actions), process.stops, process.trail)
      modifies process
      ensures process.text == old(process.text)
      ensures w.Gone? ==> Consistent() && process.status == Exited
      ensures w.Failure? ==> Closable() && process.refused
      ensures w.AtBreakpoint? ==> Ready() && |process.events| < |old(process.events)|
      ensures process.Followed(old(process.events))
      ensures process.lost <==> LostAtOnce(old(process.denials), old(process.events))
      ensures process.stops == old(process.stops) + if w.AtBreakpoint? then [Here()] else []
      ensures Orderly(start, Registry(actions), process.stops, process.trail)
      ensures PairwiseApart(Addrs(actions)) ==> Discipline(original, Addrs(actions), 0)
    {
      hide Resources.Accounts, AllTyped, AllTraced, PairwiseApart, ArmedText, Ongoing, Ended, CutOff, Poised, Orderly;
      hide Awaited, DisciplinedFrom;
      ghost var t := process.trail;
      var ok := process.Resume(None);
      if !ok {
        assert process.trail == t;
        return Failure;
      }
      w := AwaitStop(original, start, t);
    }

    /** Waits for a target that has been set running on armed text. */
    method AwaitStop(ghost original: Memory, ghost start: Stop, ghost t: seq<Resumption>) returns (w: WaitResult)
      requires Consistent() && resources.held == null && process.status == Running
      requires process.trail == t + [process.Setting(None, false)]
      requires PairwiseApart(Addrs(actions)) ==> Armed(original) && DisciplinedFrom(original, Addrs(actions), t, 0)
      requires Poised(start, Registry(actions), process.stops, process.regs, process.data)
      requires Orderly(start, Registry(actions), process.stops, t)
      modifies process
      ensures process.text == old(process.text)
      ensures w.Gone? ==> Consistent() && process.status == Exited
      ensures w.Failure? ==> Closable() && process.refused
      ensures w.AtBreakpoint? ==> Ready() && |process.events| < |old(process.events)|
      ensures process.Followed(old(process.events))
      ensures process.lost <==> Fails(Awaited(old(process.events)).0)
      ensures process.stops == old(process.stops) + if w.AtBreakpoint? then [Here()] else []
      ensures Orderly(start, Registry(actions), process.stops, process.trail)
      ensures PairwiseApart(Addrs(actions)) ==> Discipline(original, Addrs(actions), 0)
    {
      hide Resources.Accounts, AllTyped, AllTraced, Install, Saved, Poke, Peek, Mapped, AllMapped, PairwiseApart;
      hide Ongoing, Ended, CutOff, Continued, Poised, Orderly, Sent, Later, SentOn;
      ghost var stops, past := process.stops, SoFar();
      AwaitedHeard(process.events);
      ghost var r, r' := process.Setting(None, false), process.Setting(None, true);
      w := process.Wait(None);
      Onward(r, r');
      RunOn(t, process.trail, r, r');
      OnArmedText(original, Addrs(actions), t, r);
      OrderlyOn(start, Registry(actions), stops, process.stops, t, process.trail, r);
      PrefixIsLater(past, SoFar());
      TracedLater(resources.elems, past, SoFar());
    }

    lemma Onward(r: Resumption, r': Resumption)
      requires r' == r.(signalled := true)
      ensures SentOn(r', r)
    {
    }

    /** The target was set running on armed text. */
    lemma OnArmedText(original: Memory, addrs: seq<Word>, t: seq<Resumption>, r: Resumption)
      requires |t| < |process.trail| && process.trail[|t|] == r && Keeps(t, process.trail)
      requires forall i :: |t| < i < |process.trail| ==> SentOn(process.trail[i], r)
      ensures DisciplinedFrom(original, addrs, t, 0) && Disciplined(original, addrs, r) ==>
                Discipline(original, addrs, 0)
    {
      hide AllMapped, Install, Mapped, Poke;
      forall i | 0 <= i < |t|
        ensures process.trail[i] == t[i]
      {
        assert process.trail[..|t|][i] == t[i];
      }
    }

    lemma PrefixIsLater(past: Past, past': Past)
      requires past.places == past'.places && past.stops <= past'.stops
      ensures Later(past, past')
    {
    }

    // ---- closing ----------------------------------------------------------

    /** Reports what was never freed and gives everything up. */
    method Close()
      requires Consistent() && resources.held == null && process.status != Running
      modifies this`log, process`status, resources.owned`refCount, resources.owned`freed
      ensures log == old(log) + L.Closing(flags, old(CurrentBooks()))
      ensures process.status == Exited
      ensures forall bt :: bt in resources.owned ==> bt.freed
    {
      LogLeaks();
      if flags.stats {
        log := log + [L.Statistics(stats)];
      }
      resources.Close();
      process.Close();
    }

    /** Gives everything up after a run that failed. */
    method CloseOnError()
      requires Closable() && process.status != Running
      modifies process`status, resources.owned`refCount, resources.owned`freed
      ensures process.status == Exited
      ensures forall bt :: bt in resources.owned && bt != resources.held ==> bt.freed
    {
      resources.Close();
      process.Close();
    }

    method LogLeaks()
      requires Typed()
      modifies this`log
      ensures log == old(log) + L.Leaks(old(CurrentBooks()))
    {
      hide L.Live, L.Find, AllTyped, AllTraced, Remaining;
      ghost var es := Entries(resources.elems);
      var it, _ := resources.IterOpen(false);
      ghost var read := [];
      NothingRead(es, it);
      assert old(log) == old(log) + LeaksOf([]);
      var item;
      it, item := resources.IterRead(it);
      while item.Some?
        invariant it.pos <= |resources.elems| && !it.all
        invariant log == old(log) + LeaksOf(read)
        invariant item.Some? ==> item.value in resources.elems
        invariant L.Live(es) == read + (if item.Some? then [item.value.entry] + Remaining(es, it) else [])
        decreases item.Some?, |resources.elems| - it.pos
      {
        var r := item.value;
        TypedMember(resources.elems, r, flags.backtrace);
        assert flags.backtrace ==> r.producerBt != null;
        log := log + [L.Leak(L.ObjectOf(r.entry))];
        LeaksSnoc(read, r.entry);
        read := read + [r.entry];
        it, item := resources.IterRead(it);
      }
      assert LeaksOf(read) == L.Leaks(old(CurrentBooks()));
    }
  }

  function LeaksOf(es: seq<L.Entry>): seq<L.Record> {
    seq(|es|, i requires 0 <= i < |es| => L.Leak(L.ObjectOf(es[i])))
  }

  lemma LeaksSnoc(es: seq<L.Entry>, e: L.Entry)
    ensures LeaksOf(es + [e]) == LeaksOf(es) + [L.Leak(L.ObjectOf(e))]
  {
  }

  /** A fresh iterator over the live resources has them all to read. */
  lemma NothingRead(es: seq<L.Entry>, it: Iter)
    requires it == Iter(0, false)
    ensures Remaining(es, it) == L.Live(es)
  {
    assert es[0..] == es;
  }

  lemma NullFreed(f: L.Flags, b: L.Books, who: L.Action)
    ensures L.Step(f, b, L.ConsumerCall(who, 0)) == L.Done(b)
  {
    assert b.log + [] == b.log;
  }

  lemma ReallocOfNull(f: L.Flags, b: L.Books, size: Word, r: Word)
    ensures r == 0 ==> L.Step(f, b, L.ReallocCall(0, size, r)) == L.Stopped(b.log + [L.Zero(L.Realloc, 0, 0, size)])
    ensures r != 0 ==> L.Step(f, b, L.ReallocCall(0, size, r)) == L.EnterAndReport(f, b, r, size, L.Realloc)
    ensures forall log :: L.Enter(f, b, r, size, L.Realloc) == L.Stopped(log) ==>
                            L.EnterAndReport(f, b, r, size, L.Realloc) == L.Stopped(log)
    ensures L.Diagnose(b.elems, L.Realloc, 0) == []
  {
    hide L.Enter;
  }

  lemma ReallocOfOther(f: L.Flags, b: L.Books, b1: L.Books, a: Word, size: Word, r: Word)
    requires a != 0 && b1 == b.(log := b.log + L.Diagnose(b.elems, L.Realloc, a))
    ensures L.Step(f, b, L.ReallocCall(a, size, r)) == L.ReallocRest(f, b1, a, size, r)
    ensures f.free && L.Find(b.elems, a) == |b.elems| ==> L.Step(f, b, L.ReallocCall(a, size, r)) == L.Done(b1)
  {
    hide L.Enter, L.MoveEntry, L.CopyEntry, L.Diagnose, L.Find;
  }

  /** Argument 0 is overwritten with four zero bytes. */
  lemma NullBytes(big: bool)
    ensures Bytes(0, big) == ZEROS
  {
  }

  lemma ReplaySnoc(f: L.Flags, h: seq<L.Event>, b: L.Books, e: L.Event)
    requires L.Replay(f, h) == L.Done(b)
    ensures L.Replay(f, h + [e]) == L.Step(f, b, e)
  {
    assert (h + [e])[..|h|] == h;
  }
}

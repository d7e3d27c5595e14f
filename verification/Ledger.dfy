/** What the tracker does to its books on each completed call of the target: the specification
    the imperative tracker (module Trackers) is proved against.  Covers the resource list
    (src/resources/list/mut_resources.c) and the handlers of src/mut.c, without safety zones. */
module Ledger {
  import opened Words

  datatype Action = Malloc | Calloc | Realloc | Free | Cfree

  /** The command line controls that the books depend on. */
  datatype Flags = Flags(free: bool, stats: bool, usage: bool, backtrace: bool)

  /** A call the target made together with the result it got. */
  datatype Event =
    | MallocCall(size: Word, result: Word)
    | CallocCall(nElems: Word, elemSize: Word, result: Word)
    | ReallocCall(addr: Word, size: Word, result: Word)
    | ConsumerCall(who: Action, addr: Word)
    | UsageCall

  /** A resource: an object at an address, who produced it and who has consumed it. */
  datatype Entry = Entry(addr: Word, size: Word, producer: Action, consumer: Option<Action>)

  datatype Object = Object(producer: Action, addr: Word, size: Word)

  datatype Record =
    | Zero(who: Action, addr: Word, oldSize: Word, newSize: Word)  // MR0, CR0, RR0
    | Fum(who: Action, addr: Word)
    | Ffm(who: Action, addr: Word, earlier: Action)
    | Twice(who: Action, addr: Word, earlier: Action)              // MMM, CMM
    | Usage(count: nat, objects: seq<Object>)
    | Leak(what: Object)
    | Statistics(stats: Stats)

  datatype Stat = Stat(space: int, count: int)

  datatype Stats = Stats(now: Stat, total: Stat, maxSpace: Stat, maxCount: Stat)

  datatype Books = Books(elems: seq<Entry>, active: nat, consumed: nat, stats: Stats, log: seq<Record>)

  /** A call is handled completely, or the run ends in it (an error return or a failed assertion) with
      this log. */
  datatype Outcome = Done(books: Books) | Stopped(log: seq<Record>)

  // ---- the resource list ------------------------------------------------

  /** The first entry at an address, or the length of the list. */
  function Find(es: seq<Entry>, a: Word): (i: nat)
    ensures i <= |es|
    ensures i < |es| ==> es[i].addr == a
    ensures forall j :: 0 <= j < i ==> es[j].addr != a
  {
    if es == [] then 0 else if es[0].addr == a then 0 else 1 + Find(es[1..], a)
  }

  function Consume(e: Entry, who: Action): Entry {
    e.(consumer := Some(who))
  }

  function Remove(es: seq<Entry>, i: nat): seq<Entry>
    requires i < |es|
  {
    es[..i] + es[i + 1..]
  }

  /** The unconsumed entries, in list order: what an iterator opened with `all` = 0 reads. */
  function Live(es: seq<Entry>): seq<Entry> {
    if es == [] then []
    else (if es[0].consumer.None? then [es[0]] else []) + Live(es[1..])
  }

  function ObjectOf(e: Entry): Object {
    Object(e.producer, e.addr, e.size)
  }

  function Objects(es: seq<Entry>): (os: seq<Object>)
    ensures |os| == |es| && forall i :: 0 <= i < |es| ==> os[i] == ObjectOf(es[i])
  {
    seq(|es|, i requires 0 <= i < |es| => ObjectOf(es[i]))
  }

  // ---- statistics -------------------------------------------------------

  const NO_STATS := Stats(Stat(0, 0), Stat(0, 0), Stat(0, 0), Stat(0, 0))

  function Produced(st: Stats, size: Word): Stats {
    var now := Stat(st.now.space + size, st.now.count + 1);
    Stats(now,
          Stat(st.total.space + size, st.total.count + 1),
          if st.maxSpace.space < now.space then now else st.maxSpace,
          if st.maxCount.count < now.count then now else st.maxCount)
  }

  function Released(st: Stats, size: Word): Stats {
    st.(now := Stat(st.now.space - size, st.now.count - 1))
  }

  // ---- one call ---------------------------------------------------------

  const EMPTY := Books([], 0, 0, NO_STATS, [])

  function Report(b: Books): Record {
    Usage(b.active, Objects(Live(b.elems)))
  }

  function WithUsage(f: Flags, b: Books): Books {
    if f.usage then b.(log := b.log + [Report(b)]) else b
  }

  /** Enters an object that the target has just been given.  An address that is already listed is
      noticed only through its backtrace; without backtraces its entry is silently taken over. */
  function Enter(f: Flags, b: Books, a: Word, size: Word, who: Action): Outcome {
    var i := Find(b.elems, a);
    var stats := if f.stats then Produced(b.stats, size) else b.stats;
    if i == |b.elems| then
      Done(b.(elems := [Entry(a, size, who, None)] + b.elems, active := b.active + 1, stats := stats))
    else if f.backtrace then
      Stopped(b.log + if who.Realloc? then [] else [Twice(who, a, b.elems[i].producer)])
    else
      Done(b.(elems := b.elems[i := b.elems[i].(size := size, producer := who)], stats := stats))
  }

  function EnterAndReport(f: Flags, b: Books, a: Word, size: Word, who: Action): Outcome {
    match Enter(f, b, a, size, who)
    case Done(b') => Done(WithUsage(f, b'))
    case Stopped(log) => Stopped(log)
  }

  /** Takes an unconsumed object out of the books, under either deletion policy. */
  function Delete(f: Flags, b: Books, i: nat, who: Action): Books
    requires i < |b.elems| && b.active > 0
  {
    if f.free then
      b.(elems := Remove(b.elems, i), active := b.active - 1)
    else
      b.(elems := b.elems[i := Consume(b.elems[i], who)], active := b.active - 1, consumed := b.consumed + 1)
  }

  function WithRelease(f: Flags, b: Books, size: Word): Books {
    if f.stats then b.(stats := Released(b.stats, size)) else b
  }

  /** What is diagnosed about the address handed to free, cfree or realloc. */
  function Diagnose(es: seq<Entry>, who: Action, a: Word): seq<Record> {
    var i := Find(es, a);
    if a == 0 then []
    else if i == |es| then [Fum(who, a)]
    else if es[i].consumer.Some? then [Ffm(who, a, es[i].consumer.value)]
    else []
  }

  /** The diagnosis a call calls for when its address is looked up. */
  function DiagnosisOf(es: seq<Entry>, e: Event): seq<Record> {
    match e
    case ConsumerCall(who, a) => Diagnose(es, who, a)
    case ReallocCall(a, _, _) => Diagnose(es, Realloc, a)
    case _ => []
  }

  function ResultOf(e: Event): Word {
    match e
    case MallocCall(_, r) => r
    case CallocCall(_, _, r) => r
    case ReallocCall(_, _, r) => r
    case _ => 0
  }

  /** The same call with another result, if it has one. */
  function WithResult(e: Event, r: Word): Event {
    match e
    case MallocCall(size, _) => MallocCall(size, r)
    case CallocCall(n, size, _) => CallocCall(n, size, r)
    case ReallocCall(a, size, _) => ReallocCall(a, size, r)
    case _ => e
  }

  function ConsumerStep(f: Flags, b: Books, who: Action, a: Word): Outcome {
    var b1 := b.(log := b.log + Diagnose(b.elems, who, a));
    var i := Find(b.elems, a);
    if a == 0 || i == |b.elems| then Done(b1)
    else if b.elems[i].consumer.Some? then
      if f.free then Stopped(b1.log) else Done(b1)
    else if b.active == 0 then Stopped(b1.log)
    else Done(WithUsage(f, Delete(f, WithRelease(f, b1, b.elems[i].size), i, who)))
  }

  /** realloc of a listed object when memory is really freed: the entry is rewritten in place. */
  function MoveEntry(f: Flags, b: Books, i: nat, size: Word, r: Word): Outcome
    requires i < |b.elems|
  {
    if b.elems[i].consumer.Some? then Stopped(b.log)
    else if r == 0 then Stopped(b.log + [Zero(Realloc, b.elems[i].addr, b.elems[i].size, size)])
    else
      var b1 := WithRelease(f, b, b.elems[i].size);
      var b2 := b1.(elems := b.elems[i := Entry(r, size, Realloc, None)],
                    stats := if f.stats then Produced(b1.stats, size) else b1.stats);
      Done(WithUsage(f, b2))
  }

  /** realloc of a listed object when memory is kept: the old entry is consumed, a new one entered. */
  function CopyEntry(f: Flags, b: Books, i: nat, size: Word, r: Word): Outcome
    requires i < |b.elems|
  {
    if r == b.elems[i].addr then Stopped(b.log)
    else if r == 0 then Stopped(b.log + [Zero(Realloc, b.elems[i].addr, b.elems[i].size, size)])
    else if b.elems[i].consumer.Some? || b.active == 0 then Stopped(b.log)
    else EnterAndReport(f, Delete(f, WithRelease(f, b, b.elems[i].size), i, Realloc), r, size, Realloc)
  }

  /** What is left of realloc of an address that is not zero once it is diagnosed. */
  function ReallocRest(f: Flags, b: Books, a: Word, size: Word, r: Word): Outcome {
    var i := Find(b.elems, a);
    if i == |b.elems| then
      if f.free then Done(b)
      else if r == 0 then Stopped(b.log + [Zero(Realloc, 0, 0, size)])
      else Enter(f, b, r, size, Realloc)
    else if f.free then MoveEntry(f, b, i, size, r)
    else CopyEntry(f, b, i, size, r)
  }

  function ReallocStep(f: Flags, b: Books, a: Word, size: Word, r: Word): Outcome {
    if a != 0 then ReallocRest(f, b.(log := b.log + Diagnose(b.elems, Realloc, a)), a, size, r)
    else if r == 0 then Stopped(b.log + [Zero(Realloc, 0, 0, size)])
    else EnterAndReport(f, b, r, size, Realloc)
  }

  function Step(f: Flags, b: Books, e: Event): Outcome {
    match e
    case MallocCall(size, r) =>
      if r == 0 then Done(b.(log := b.log + [Zero(Malloc, 0, 0, size)]))
      else EnterAndReport(f, b, r, size, Malloc)
    case CallocCall(n, size, r) =>
      if r == 0 then Done(b.(log := b.log + [Zero(Calloc, 0, n, size)]))
      else EnterAndReport(f, b, r, Wrap(n * size), Calloc)
    case ReallocCall(a, size, r) => ReallocStep(f, b, a, size, r)
    case ConsumerCall(who, a) => ConsumerStep(f, b, who, a)
    case UsageCall => Done(b.(log := b.log + [Report(b)]))
  }

  /** The books after a whole history of completed calls. */
  function Replay(f: Flags, h: seq<Event>): Outcome {
    if h == [] then Done(EMPTY)
    else match Replay(f, h[..|h| - 1])
      case Done(b) => Step(f, b, h[|h| - 1])
      case Stopped(log) => Stopped(log)
  }

  /** What closing the tracker reports. */
  function Leaks(b: Books): seq<Record> {
    var os := Objects(Live(b.elems));
    seq(|os|, i requires 0 <= i < |os| => Leak(os[i]))
  }

  /** All that closing the tracker reports: the leaks and, if they are kept, the statistics. */
  function Closing(f: Flags, b: Books): seq<Record> {
    Leaks(b) + if f.stats then [Statistics(b.stats)] else []
  }
}

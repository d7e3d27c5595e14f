/** The process under control: run status, registers, text and data of the target, and the reports
    the operating system will make about it (src/proc/ptrace/mut_process.c and
    src/proc/ptrace/arch/x86/mut_process_arch.c). */
module Processes {
  import opened Words
  import opened Memory
  import opened WordCopy
  import opened Backtraces
  import opened FrameWalk

  datatype Status = Running | Stopped | Exited

  datatype Registers = Registers(eip: Word, esp: Word, ebp: Word, eax: Word)

  /** What the operating system answers next: an outcome of waiting for the target, with the state
      the target has reached, or a refusal to continue it. */
  datatype Event =
    | WaitFailed
    | ContinueFailed
    | Exit(code: int)
    | Killed(signal: int)
    | Trap(regs: Registers, data: Memory)
    | OtherSignal(signal: int, regs: Registers, data: Memory)
    | Unrecognised

  /** How the target was set running: its text, registers (the program counter is `eip`) and data, the
      return address of the call being handled, how many stops it had come to by then, and whether it was
      only sent on after a signal. */
  datatype Resumption = Resumption(text: Memory, handled: Option<Word>, after: nat, signalled: bool,
                                   regs: Registers, data: Memory)

  /** Where and how the target stopped, and the return address whose call is being handled. */
  datatype Stop = Stop(pc: Word, regs: Registers, data: Memory, handled: Option<Word>)

  datatype WaitResult = Gone | Failure | AtBreakpoint(pc: Word)

  /** An answer after which a running target cannot be followed any more. */
  predicate Fails(e: Event) {
    e.WaitFailed? || e.ContinueFailed?
  }

  /** The target is gone. */
  predicate Ends(e: Event) {
    e.Exit? || e.Killed?
  }

  predicate ContinueRefused(events: seq<Event>) {
    events != [] && events[0] == ContinueFailed
  }

  /** What waiting comes to, given everything the operating system will answer: the first answer after
      which the target is not simply continued; and the answers that remain. */
  function Awaited(events: seq<Event>): (Event, seq<Event>) {
    if events == [] then (WaitFailed, [])
    else if events[0].OtherSignal? || events[0].Unrecognised? then
      if ContinueRefused(events[1..]) then (ContinueFailed, events[2..]) else Awaited(events[1..])
    else (events[0], events[1..])
  }

  lemma AwaitedNext(events: seq<Event>)
    ensures events == [] ==> Awaited(events) == (WaitFailed, [])
    ensures events != [] && (events[0].OtherSignal? || events[0].Unrecognised?) ==>
              Awaited(events) ==
              if ContinueRefused(events[1..]) then (ContinueFailed, events[1..][1..]) else Awaited(events[1..])
    ensures events != [] && !(events[0].OtherSignal? || events[0].Unrecognised?) ==>
              Awaited(events) == (events[0], events[1..])
  {
  }

  // ---- how far the answers have been heard ------------------------------

  ghost predicate IsSuffix(left: seq<Event>, all: seq<Event>) {
    |left| <= |all| && all[|all| - |left|..] == left
  }

  /** The last answer, if there was any, did not end the target. */
  ghost predicate Ongoing(all: seq<Event>, left: seq<Event>) {
    IsSuffix(left, all) && (|left| == |all| || !Ends(all[|all| - |left| - 1]))
  }

  ghost predicate Ended(all: seq<Event>, left: seq<Event>) {
    IsSuffix(left, all) && |left| < |all| && Ends(all[|all| - |left| - 1])
  }

  /** The last answer was a failure, or there is none left and the last one did not end the target. */
  ghost predicate CutOff(all: seq<Event>, left: seq<Event>) {
    && IsSuffix(left, all)
    && ((|left| < |all| && Fails(all[|all| - |left| - 1])) || (left == [] && Ongoing(all, left)))
  }

  lemma SuffixOfSuffix(all: seq<Event>, mid: seq<Event>, left: seq<Event>)
    requires IsSuffix(mid, all) && IsSuffix(left, mid)
    ensures IsSuffix(left, all)
    ensures |left| < |mid| ==> mid[|mid| - |left| - 1] == all[|all| - |left| - 1]
  {
    assert all[|all| - |left|..] == all[|all| - |mid|..][|mid| - |left|..];
  }

  /** Hearing more after some that did not end the target. */
  lemma HeardOn(all: seq<Event>, mid: seq<Event>, left: seq<Event>)
    requires Ongoing(all, mid)
    ensures Ongoing(mid, left) ==> Ongoing(all, left)
    ensures Ended(mid, left) ==> Ended(all, left)
    ensures CutOff(mid, left) ==> CutOff(all, left)
  {
    if IsSuffix(left, mid) {
      SuffixOfSuffix(all, mid, left);
    }
  }

  lemma NothingHeard(all: seq<Event>)
    ensures Ongoing(all, all)
  {
  }

  lemma OneHeard(all: seq<Event>)
    requires all != []
    ensures IsSuffix(all[1..], all) && |all| - |all[1..]| - 1 == 0
  {
  }

  /** Waiting stops the target, sees its end or loses it. */
  lemma {:induction false} AwaitedHeard(all: seq<Event>)
    ensures var (e, left) := Awaited(all);
            if e.Trap? then Ongoing(all, left) && |left| < |all|
            else if Ends(e) then Ended(all, left)
            else Fails(e) && CutOff(all, left)
  {
    if all != [] {
      OneHeard(all);
      var rest := all[1..];
      if (all[0].OtherSignal? || all[0].Unrecognised?) && !ContinueRefused(rest) {
        AwaitedHeard(rest);
        HeardOn(all, rest, Awaited(rest).1);
      } else if all[0].OtherSignal? || all[0].Unrecognised? {
        OneHeard(rest);
        HeardOn(all, rest, rest[1..]);
        assert all[2..] == rest[1..];
      }
    }
  }

  /** Answers without a failure that end with the target's end. */
  predicate Healthy(all: seq<Event>) {
    all != [] && Ends(all[|all| - 1]) && forall i :: 0 <= i < |all| ==> !Fails(all[i])
  }

  /** They never lose it. */
  lemma HealthyNeverCutOff(all: seq<Event>, left: seq<Event>)
    requires Healthy(all)
    ensures !CutOff(all, left)
  {
  }

  // ---- register accesses ------------------------------------------------

  /** Whether the system refuses the next register access, and what it will say to those after it. */
  predicate Denied(denials: seq<bool>) {
    denials != [] && denials[0]
  }

  function Rest(denials: seq<bool>): seq<bool> {
    if denials == [] then [] else denials[1..]
  }

  /** The target was sent on after a signal, as part of the same wait as `r`. */
  ghost predicate SentOn(r': Resumption, r: Resumption) {
    r'.text == r.text && r'.handled == r.handled && r'.after == r.after && r'.signalled
  }

  /** Only resumptions after signals have been added. */
  ghost predicate Continued(before: seq<Resumption>, trail: seq<Resumption>, r: Resumption) {
    && |before| <= |trail| && trail[..|before|] == before
    && forall i :: |before| <= i < |trail| ==> SentOn(trail[i], r)
  }

  /** A stretch of resumptions, seen from before the first. */
  lemma RunOn(before: seq<Resumption>, trail: seq<Resumption>, r: Resumption, r': Resumption)
    requires Continued(before + [r], trail, r') && SentOn(r', r)
    ensures |before| < |trail| && trail[..|before|] == before && trail[|before|] == r
    ensures forall i :: |before| < i < |trail| ==> SentOn(trail[i], r)
  {
    assert trail[..|before| + 1] == before + [r];
    assert trail[..|before|] == trail[..|before| + 1][..|before|];
    assert trail[|before|] == trail[..|before| + 1][|before|];
  }

  lemma NotContinued(trail: seq<Resumption>, r: Resumption)
    ensures Continued(trail, trail, r)
  {
  }

  lemma ContinuedMore(before: seq<Resumption>, trail: seq<Resumption>, r: Resumption, r': Resumption)
    requires Continued(before, trail, r) && SentOn(r', r)
    ensures Continued(before, trail + [r'], r) && Continued(before, trail + [], r)
  {
    assert (trail + [r'])[..|before|] == trail[..|before|] && trail + [] == trail;
  }

  class Process {
    const bigEndian: bool
    var status: Status
    var pc: Word
    var regs: Registers
    var text: Memory
    var data: Memory
    var events: seq<Event>
    /** Which register accesses the operating system refuses, in order; none after the last. */
    var denials: seq<bool>
    ghost var trail: seq<Resumption>
    ghost var stops: seq<Stop>
    /** Waiting for a running target, or continuing it meanwhile, has failed. */
    ghost var lost: bool
    /** The system has refused something the debugger asked for, or the target has not come back from
        a call it was to run. */
    ghost var refused: bool
    /** Data as the target left it at its latest stop. */
    ghost var arrived: Memory

    function Breakpoint(): Quad
    {
      Bytes(0xCC, bigEndian)
    }

    /** The trap instruction, 0xCC, is at the address itself exactly if words are little-endian. */
    lemma BreakpointBytes()
      ensures Breakpoint() == if bigEndian then Quad(0, 0, 0, 0xCC) else Quad(0xCC, 0, 0, 0)
    {
    }

    function WordAt(a: Word): Word
      requires Mapped(data, a)
      reads this`data
    {
      Number(Peek(data, a), bigEndian)
    }

    /** A target stopped before its first instruction. */
    constructor (regs: Registers, text: Memory, data: Memory, events: seq<Event>, denials: seq<bool>,
                 bigEndian: bool)
      ensures status == Stopped && !lost && !refused && trail == [] && stops == [] && pc == regs.eip
      ensures this.text == text && this.data == data && this.events == events && this.denials == denials
      ensures this.regs == regs && this.bigEndian == bigEndian
    {
      this.bigEndian := bigEndian;
      this.regs, this.text, this.data, this.events, this.denials := regs, text, data, events, denials;
      status, pc, trail, stops, lost, arrived, refused := Stopped, regs.eip, [], [], false, data, false;
    }

    /** As the answers `all` have been heard, the target stands where it should. */
    ghost predicate Followed(all: seq<Event>)
      reads this`events, this`status, this`lost
    {
      match status
      case Stopped => !lost && Ongoing(all, events)
      case Exited => !lost && Ended(all, events)
      case Running => lost && CutOff(all, events)
    }

    lemma FollowedOn(all: seq<Event>, heard: seq<Event>)
      requires Ongoing(all, heard) && Followed(heard)
      ensures Followed(all)
    {
      HeardOn(all, heard, events);
    }

    method AccessRegister() returns (ok: bool)
      modifies this`denials, this`refused
      ensures ok <==> !Denied(old(denials))
      ensures denials == Rest(old(denials))
      ensures refused == (old(refused) || !ok)
    {
      ok := denials == [] || !denials[0];
      denials, refused := Rest(denials), refused || !ok;
    }

    // ---- running ------------------------------------------------------

    /** How the target is about to be set running. */
    ghost function Setting(handled: Option<Word>, signalled: bool): Resumption
      reads this`text, this`stops, this`regs, this`data
    {
      Resumption(text, handled, |stops|, signalled, regs, data)
    }

    method Continue(ghost handled: Option<Word>, ghost signalled: bool) returns (ok: bool)
      modifies this`events, this`trail, this`refused
      ensures ok <==> !ContinueRefused(old(events))
      ensures events == if ok then old(events) else old(events)[1..]
      ensures trail == old(trail) + if ok then [Setting(handled, signalled)] else []
      ensures refused == (old(refused) || !ok)
    {
      ok := events == [] || events[0] != ContinueFailed;
      if ok {
        trail := trail + [Setting(handled, signalled)];
      } else {
        events, refused := events[1..], true;
      }
    }

    method Resume(ghost handled: Option<Word>) returns (ok: bool)
      requires status == Stopped
      modifies this`status, this`regs, this`events, this`denials, this`trail, this`refused
      ensures ok <==> !Denied(old(denials)) && !ContinueRefused(old(events))
      ensures denials == Rest(old(denials))
      ensures events == if !Denied(old(denials)) && !ok then old(events)[1..] else old(events)
      ensures regs == if Denied(old(denials)) then old(regs) else old(regs).(eip := pc)
      ensures status == if ok then Running else Stopped
      ensures trail == old(trail) + if ok then [Setting(handled, false)] else []
      ensures refused == (old(refused) || !ok)
      ensures !ok && !lost ==> Followed(old(events))
    {
      NothingHeard(events);
      if events != [] {
        OneHeard(events);
      }
      ok := AccessRegister();
      if !ok {
        return;
      }
      regs := regs.(eip := pc);
      ok := Continue(handled, false);
      if ok {
        status := Running;
      }
    }

    /** The target has come to a breakpoint, which its program counter is one byte past. */
    method StopAt(rs: Registers, d: Memory, ghost handled: Option<Word>) returns (r: WaitResult)
      modifies this`status, this`pc, this`regs, this`data, this`arrived, this`refused, this`stops, this`denials
      ensures regs == rs && data == d == arrived && status == Stopped && denials == Rest(old(denials))
      ensures Denied(old(denials)) ==> r == Failure && pc == old(pc)
      ensures !Denied(old(denials)) ==> pc == Wrap(rs.eip - 1) && r == AtBreakpoint(pc)
      ensures stops == old(stops) + if r.AtBreakpoint? then [Stop(pc, regs, data, handled)] else []
      ensures refused == (old(refused) || r.Failure? || (handled.Some? && r != AtBreakpoint(handled.value)))
    {
      status := Stopped;
      regs, data, arrived := rs, d, d;
      var readable := AccessRegister();
      if !readable {
        return Failure;
      }
      pc := Wrap(regs.eip - 1);
      refused := refused || (handled.Some? && pc != handled.value);
      stops := stops + [Stop(pc, regs, data, handled)];
      return AtBreakpoint(pc);
    }

    /** Waits until the target stops at a breakpoint, exits or cannot be followed any more. */
    /** What waiting has come to is what was heard. */
    lemma StandsAsHeard(all: seq<Event>)
      requires events == Awaited(all).1
      requires match Awaited(all).0
               case Trap(_, _) => status == Stopped && !lost
               case Exit(_) => status == Exited && !lost
               case Killed(_) => status == Exited && !lost
               case _ => status == Running && lost
      ensures Followed(all) && (Awaited(all).0.Trap? ==> |events| < |all|)
    {
      hide Awaited, Ongoing, Ended, CutOff;
      AwaitedHeard(all);
    }

    method Wait(ghost handled: Option<Word>) returns (r: WaitResult)
      requires status == Running && !lost
      modifies this`status, this`pc, this`regs, this`data, this`events, this`trail, this`lost
      modifies this`arrived, this`refused, this`stops, this`denials
      ensures events == Awaited(old(events)).1
      ensures denials == if Awaited(old(events)).0.Trap? then Rest(old(denials)) else old(denials)
      ensures match Awaited(old(events)).0
              case Trap(rs, d) =>
                && regs == rs && data == d == arrived && status == Stopped && !lost
                && (if Denied(old(denials)) then r == Failure && pc == old(pc)
                    else pc == Wrap(rs.eip - 1) && r == AtBreakpoint(pc))
              case Exit(_) => r == Gone && status == Exited && !lost
              case Killed(_) => r == Gone && status == Exited && !lost
              case _ => r == Failure && status == Running && lost
      ensures stops == old(stops) + if r.AtBreakpoint? then [Stop(pc, regs, data, handled)] else []
      ensures refused == (old(refused) || r.Failure? || (handled.Some? && r != AtBreakpoint(handled.value)))
      ensures |events| <= |old(events)| && (r.AtBreakpoint? ==> |events| < |old(events)|)
      ensures Continued(old(trail), trail, old(Setting(handled, true)))
      ensures Followed(old(events))
    {
      hide Continued, Awaited, Ongoing, Ended, CutOff, Process.Followed;
      ghost var all := events;
      ghost var r0 := Setting(handled, true);
      NotContinued(trail, r0);
      while true
        invariant status == Running && !lost && stops == old(stops) && refused == old(refused)
        invariant denials == old(denials) && pc == old(pc)
        invariant |events| <= |old(events)| && Awaited(events) == Awaited(old(events))
        invariant Continued(old(trail), trail, r0)
        decreases |events|
      {
        AwaitedNext(events);
        if events == [] {
          lost, refused := true, true;
          StandsAsHeard(all);
          return Failure;
        }
        var e := events[0];
        events := events[1..];
        match e {
          case WaitFailed | ContinueFailed =>
            lost, refused := true, true;
            StandsAsHeard(all);
            return Failure;
          case Exit(_) | Killed(_) =>
            status, refused := Exited, refused || handled.Some?;
            StandsAsHeard(all);
            return Gone;
          case Trap(rs, d) =>
            r := StopAt(rs, d, handled);
            StandsAsHeard(all);
            return;
          case OtherSignal(_, rs, d) =>
            regs, data := rs, d;
          case Unrecognised =>
        }
        ContinuedMore(old(trail), trail, r0, Setting(handled, true));
        var ok := Continue(handled, true);
        if !ok {
          lost, refused := true, true;
          StandsAsHeard(all);
          return Failure;
        }
      }
    }

    // ---- breakpoints --------------------------------------------------

    method SetBreakpoint(a: Word) returns (ok: bool, instr: Quad)
      requires status == Stopped
      modifies this`text, this`refused
      ensures ok <==> Mapped(old(text), a)
      ensures refused == (old(refused) || !ok)
      ensures ok ==> instr == Peek(old(text), a) && text == Poke(old(text), a, Breakpoint())
      ensures !ok ==> text == old(text)
    {
      instr := Breakpoint();
      ok := Mapped(text, a);
      if ok {
        instr := Peek(text, a);
        text := Poke(text, a, Breakpoint());
      }
      refused := refused || !ok;
    }

    method Restore(a: Word, instr: Quad) returns (ok: bool)
      requires status == Stopped
      modifies this`text, this`refused
      ensures ok <==> Mapped(old(text), a)
      ensures refused == (old(refused) || !ok)
      ensures text == if ok then Poke(old(text), a, instr) else old(text)
    {
      ok := Mapped(text, a);
      if ok {
        text := Poke(text, a, instr);
      }
      refused := refused || !ok;
    }

    // ---- data ---------------------------------------------------------

    method ReadData(a: Word) returns (ok: bool, w: Word)
      modifies this`refused
      ensures refused == (old(refused) || !ok)
      ensures ok <==> Mapped(data, a)
      ensures ok ==> w == WordAt(a)
    {
      ok, w := Mapped(data, a), 0;
      if ok {
        w := WordAt(a);
      }
      refused := refused || !ok;
    }

    method WriteData(a: Word, w: Word) returns (ok: bool)
      modifies this`data, this`refused
      ensures refused == (old(refused) || !ok)
      ensures ok <==> Mapped(old(data), a)
      ensures data == if ok then Poke(old(data), a, Bytes(w, bigEndian)) else old(data)
    {
      ok := Mapped(data, a);
      if ok {
        data := Poke(data, a, Bytes(w, bigEndian));
      }
      refused := refused || !ok;
    }

    /** Writes a partial word of `n` bytes over what is there. */
    method MergeWord(a: Word, w: Word, n: nat) returns (ok: bool)
      requires 1 <= n <= 3
      modifies this`data, this`refused
      ensures refused == (old(refused) || !ok)
      ensures ok <==> Mapped(old(data), a)
      ensures ok ==> data == Poke(old(data), a, Tail(Bytes(w, bigEndian), Peek(old(data), a), n, bigEndian))
    {
      hide Tail, Peek, Poke, Number, Bytes, Or, And, ByteMask, Mapped;
      var orig;
      ok, orig := ReadData(a);
      if ok {
        ghost var incoming, there := Bytes(w, bigEndian), Peek(data, a);
        TailIsMerge(incoming, there, n, bigEndian);
        NumberRoundTrip(Tail(incoming, there, n, bigEndian), bigEndian);
        ok := WriteData(a, Or(w, And(orig, ByteMask(n))));
      }
    }

    /** Copies `n` bytes a word at a time; the last bytes are merged into a whole word. */
    method Memcpy(to: Word, from: Word, n: Word) returns (ok: bool)
      requires status == Stopped && Aligned(to) && Aligned(from)
      modifies this`data, this`refused
      ensures refused == (old(refused) || !ok)
      ensures ok <==> Copy(old(data), to, from, n, bigEndian).Some?
      ensures ok ==> data == Copy(old(data), to, from, n, bigEndian).value
    {
      hide CopyTail, CopyWord, CopyWords;
      ghost var start := data;
      var dest: Word, src: Word, nWords: nat, nBytes: nat := to, from, n / 4, n % 4;
      ghost var i := 0;
      assert CopyWords(start, to, from, 0) == Some(start) by {
        NothingCopied(start, to, from);
      }
      while nWords != 0
        invariant i + nWords == n / 4 && refused == old(refused)
        invariant dest == Wrap(to + 4 * i) && src == Wrap(from + 4 * i)
        invariant CopyWords(start, to, from, i) == Some(data)
      {
        CopyRound(start, to, from, i, data);
        var copied := CopyOne(dest, src);
        if !copied {
          CopyFails(start, to, from, i + 1, n / 4);
          return false;
        }
        NextAddr(to, i);
        NextAddr(from, i);
        dest, src := Wrap(dest + 4), Wrap(src + 4);
        nWords, i := nWords - 1, i + 1;
      }
      ok := CopyRest(dest, src, nBytes);
    }

    /** One round of the loop. */
    method CopyOne(dest: Word, src: Word) returns (ok: bool)
      modifies this`data, this`refused
      ensures refused == (old(refused) || !ok)
      ensures CopyWord(old(data), dest, src) == if ok then Some(data) else None
    {
      hide Peek, Poke, Number, Bytes, Mapped;
      var w: Word;
      ok, w := ReadData(src);
      if ok {
        NumberRoundTrip(Peek(data, src), bigEndian);
        ok := WriteData(dest, w);
      }
    }

    /** The bytes after the last whole word. */
    method CopyRest(dest: Word, src: Word, n: nat) returns (ok: bool)
      requires n < 4
      modifies this`data, this`refused
      ensures refused == (old(refused) || !ok)
      ensures ok <==> CopyTail(old(data), dest, src, n, bigEndian).Some?
      ensures ok ==> CopyTail(old(data), dest, src, n, bigEndian) == Some(data)
    {
      hide Tail, Peek, Poke, Number, Bytes, Mapped;
      if n == 0 {
        return true;
      }
      var w: Word;
      ok, w := ReadData(src);
      if ok {
        NumberRoundTrip(Peek(data, src), bigEndian);
        ok := MergeWord(dest, w, n);
      }
    }

    /** Fills `n` bytes a word at a time with the pattern of `c`. */
    method Memset(at: Word, c: Word, n: Word) returns (ok: bool)
      requires status == Stopped && Aligned(at)
      modifies this`data, this`refused
      ensures refused == (old(refused) || !ok)
      ensures Pattern(c) < WORD
      ensures ok <==> Fill(old(data), at, Bytes(Pattern(c), bigEndian), n, bigEndian).Some?
      ensures ok ==> data == Fill(old(data), at, Bytes(Pattern(c), bigEndian), n, bigEndian).value
      ensures ok && c == 0 ==> Fill(old(data), at, ZEROS, n, bigEndian) == Some(data)
    {
      PatternIsWord(c);
      ZeroPattern(bigEndian);
      hide SetTail, SetWord, SetWords, Tail, Peek, Poke, Number, Bytes, Pattern, Mapped;
      ghost var start := data;
      var a: Word, nWords: nat, nBytes: nat, pattern: Word := at, n / 4, n % 4, Pattern(c);
      ghost var q := Bytes(pattern, bigEndian);
      ghost var i := 0;
      assert SetWords(start, at, q, 0) == Some(start) by {
        NothingFilled(start, at, q);
      }
      while nWords != 0
        invariant i + nWords == n / 4 && refused == old(refused)
        invariant a == Wrap(at + 4 * i)
        invariant SetWords(start, at, q, i) == Some(data)
      {
        FillRound(start, at, q, i, data);
        SetWordIs(data, a, q);
        var written := WriteData(a, pattern);
        if !written {
          FillFails(start, at, q, i + 1, n / 4);
          return false;
        }
        NextAddr(at, i);
        a := Wrap(a + 4);
        nWords, i := nWords - 1, i + 1;
      }
      ok := FillRest(a, pattern, nBytes);
    }

    method FillRest(a: Word, pattern: Word, n: nat) returns (ok: bool)
      requires n < 4
      modifies this`data, this`refused
      ensures refused == (old(refused) || !ok)
      ensures ok <==> SetTail(old(data), a, Bytes(pattern, bigEndian), n, bigEndian).Some?
      ensures ok ==> SetTail(old(data), a, Bytes(pattern, bigEndian), n, bigEndian) == Some(data)
    {
      hide Tail, Peek, Poke, Number, Bytes, Mapped;
      if n == 0 {
        return true;
      }
      ok := MergeWord(a, pattern, n);
    }

    // ---- registers, arguments, results --------------------------------

    function ArgAddr(n: nat): Word
      reads this`regs
    {
      Wrap(regs.esp + 4 + 4 * n)
    }

    method ReadArg(n: nat) returns (ok: bool, arg: Word)
      requires status == Stopped
      modifies this`denials, this`refused
      ensures denials == Rest(old(denials)) && refused == (old(refused) || !ok)
      ensures ok <==> !Denied(old(denials)) && Mapped(data, ArgAddr(n))
      ensures ok ==> arg == WordAt(ArgAddr(n))
    {
      ok := AccessRegister();
      arg := 0;
      if ok {
        ok, arg := ReadData(ArgAddr(n));
      }
    }

    method WriteArg(n: nat, arg: Word) returns (ok: bool)
      requires status == Stopped
      modifies this`data, this`denials, this`refused
      ensures denials == Rest(old(denials)) && refused == (old(refused) || !ok)
      ensures ok <==> !Denied(old(denials)) && Mapped(old(data), ArgAddr(n))
      ensures data == if ok then Poke(old(data), ArgAddr(n), Bytes(arg, bigEndian)) else old(data)
    {
      hide Mapped, Poke, Bytes;
      ok := AccessRegister();
      if ok {
        ok := WriteData(ArgAddr(n), arg);
      }
    }

    method ReturnAddr() returns (ok: bool, a: Word)
      requires status == Stopped
      modifies this`denials, this`refused
      ensures denials == Rest(old(denials)) && refused == (old(refused) || !ok)
      ensures ok <==> !Denied(old(denials)) && Mapped(data, regs.esp)
      ensures ok ==> a == WordAt(regs.esp)
    {
      ok := AccessRegister();
      a := 0;
      if ok {
        ok, a := ReadData(regs.esp);
      }
    }

    method ReadResult() returns (ok: bool, result: Word)
      requires status == Stopped
      modifies this`denials, this`refused
      ensures denials == Rest(old(denials)) && refused == (old(refused) || !ok)
      ensures ok <==> !Denied(old(denials))
      ensures ok ==> result == regs.eax
    {
      ok := AccessRegister();
      result := regs.eax;
    }

    method WriteResult(result: Word) returns (ok: bool)
      requires status == Stopped
      modifies this`regs, this`denials, this`refused
      ensures denials == Rest(old(denials)) && refused == (old(refused) || !ok)
      ensures ok <==> !Denied(old(denials))
      ensures regs == if ok then old(regs).(eax := result) else old(regs)
    {
      ok := AccessRegister();
      if ok {
        regs := regs.(eax := result);
      }
    }

    /** Leaves the function without running it: pops the return address. */
    method SkipTo(a: Word) returns (ok: bool)
      requires status == Stopped
      modifies this`pc, this`regs, this`denials, this`refused
      ensures refused == (old(refused) || !ok)
      ensures ok <==> !Denied(old(denials)) && !Denied(Rest(old(denials)))
      ensures pc == a && regs == if ok then old(regs).(esp := Wrap(old(regs).esp + 4)) else old(regs)
    {
      pc := a;
      ok := AccessRegister();
      if ok {
        ok := AccessRegister();
      }
      if ok {
        regs := regs.(esp := Wrap(regs.esp + 4));
      }
    }

    /** Records the callers of the function the target has just entered. */
    method FunctionBacktrace(bt: Backtrace) returns (ok: bool)
      requires bt.WellFormed() && bt.nFrames == 0 && !bigEndian
      modifies bt`nFrames, bt.frame, this`denials, this`refused
      ensures bt.WellFormed() && refused == (old(refused) || !ok)
      ensures ok <==> !Denied(old(denials)) && !Denied(Rest(old(denials))) && Walk(data, regs.esp, regs.ebp).Some?
      ensures ok ==> bt.Frames() == Walk(data, regs.esp, regs.ebp).value
    {
      hide Mapped, Peek, Number;
      ok := AccessRegister();
      if !ok {
        return;
      }
      var readable, ra := ReadData(regs.esp);
      if !readable {
        return false;
      }
      var entered := bt.Enter(CallSite(ra));
      ok := AccessRegister();
      if !ok {
        return;
      }
      ok := FramesBacktrace(bt, ra);
    }

    /** The loop over the frames. */
    method FramesBacktrace(bt: Backtrace, top: Word) returns (ok: bool)
      requires bt.WellFormed() && bt.Frames() == [CallSite(top)] && !bigEndian
      modifies bt`nFrames, bt.frame, this`refused
      ensures bt.WellFormed() && refused == (old(refused) || !ok)
      ensures var goal := WalkFrom(data, regs.ebp, regs.esp, FRAMES_MAX - 1);
              && (ok <==> goal.Some?)
              && (ok ==> bt.Frames() == [CallSite(top)] + goal.value)
    {
      hide Mapped, Peek, Number;
      var readable: bool, ra: Word;
      ghost var first, fs := [CallSite(top)], [];
      ghost var goal := WalkFrom(data, regs.ebp, regs.esp, FRAMES_MAX - 1);
      NothingPrepended(goal);
      var base: Word, ebp: Word := regs.esp, regs.ebp;
      while ebp != 0 && ebp > base
        invariant bt.WellFormed() && bt.Frames() == first + fs && bt.nFrames == 1 + |fs| && refused == old(refused)
        invariant goal == Prepended(fs, WalkFrom(data, ebp, base, FRAMES_MAX - 1 - |fs|))
        decreases WORD - base
      {
        readable, ra := ReadData(Wrap(ebp + 4));
        if !readable {
          return false;
        }
        if ra == 0 {
          return true;
        }
        var entered := bt.Enter(CallSite(ra));
        if !entered {
          return true;
        }
        base := ebp;
        readable, ebp := ReadData(ebp);
        if !readable {
          return false;
        }
        PrependedTwice(fs, [CallSite(ra)], WalkFrom(data, ebp, base, FRAMES_MAX - 1 - (|fs| + 1)));
        fs := fs + [CallSite(ra)];
        assert bt.Frames() == first + fs;
      }
      return true;
    }

    /** Ends the session: a target that is still there is killed. */
    method Close()
      requires status != Running
      modifies this`status
      ensures status == Exited
    {
      status := Exited;
    }
  }

  ghost function Prepended(fs: seq<Word>, rest: Option<seq<Word>>): Option<seq<Word>> {
    match rest
    case None => None
    case Some(gs) => Some(fs + gs)
  }

  lemma NothingPrepended(rest: Option<seq<Word>>)
    ensures Prepended([], rest) == rest
  {
    if rest.Some? {
      assert [] + rest.value == rest.value;
    }
  }

  lemma PrependedTwice(xs: seq<Word>, ys: seq<Word>, rest: Option<seq<Word>>)
    ensures Prepended(xs, Prepended(ys, rest)) == Prepended(xs + ys, rest)
  {
    if rest.Some? {
      assert xs + (ys + rest.value) == (xs + ys) + rest.value;
    }
  }

  lemma NothingCopied(m: Memory, dest: Word, src: Word)
    ensures CopyWords(m, dest, src, 0) == Some(m)
  {
  }

  lemma NothingFilled(m: Memory, a: Word, q: Quad)
    ensures SetWords(m, a, q, 0) == Some(m)
  {
  }

  lemma SetWordIs(m: Memory, a: Word, q: Quad)
    ensures SetWord(m, a, q) == if Mapped(m, a) then Some(Poke(m, a, q)) else None
  {
  }

  lemma CopyRound(m: Memory, dest: Word, src: Word, i: nat, m1: Memory)
    requires CopyWords(m, dest, src, i) == Some(m1)
    ensures CopyWords(m, dest, src, i + 1) == CopyWord(m1, Wrap(dest + 4 * i), Wrap(src + 4 * i))
  {
  }

  lemma FillRound(m: Memory, a: Word, q: Quad, i: nat, m1: Memory)
    requires SetWords(m, a, q, i) == Some(m1)
    ensures SetWords(m, a, q, i + 1) == SetWord(m1, Wrap(a + 4 * i), q)
  {
  }

  lemma NextAddr(a: Word, i: nat)
    ensures Wrap(Wrap(a + 4 * i) + 4) == Wrap(a + 4 * (i + 1))
  {
    hide Wrap;
    WrapSum(a + 4 * i, 4);
    assert a + 4 * i + 4 == a + 4 * (i + 1);
  }

  /** A word that cannot be copied ends the whole copy. */
  lemma {:induction false} CopyFails(m: Memory, dest: Word, src: Word, i: nat, k: nat)
    requires i <= k && CopyWords(m, dest, src, i).None?
    ensures CopyWords(m, dest, src, k).None?
  {
    hide CopyWord;
    if i < k {
      CopyFails(m, dest, src, i, k - 1);
    }
  }

  lemma {:induction false} FillFails(m: Memory, a: Word, q: Quad, i: nat, k: nat)
    requires i <= k && SetWords(m, a, q, i).None?
    ensures SetWords(m, a, q, k).None?
  {
    hide SetWord;
    if i < k {
      FillFails(m, a, q, i, k - 1);
    }
  }

  lemma PatternIsWord(c: Word)
    ensures Pattern(c) < WORD
  {
    Pow2Values();
    OrBound(c, Shl(c, 8), 32);
    OrBound(Or(c, Shl(c, 8)), Shl(c, 16), 32);
    OrBound(Or(Or(c, Shl(c, 8)), Shl(c, 16)), Shl(c, 24), 32);
  }
}

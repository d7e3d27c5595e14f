/** The x86 stack walk (src/proc/ptrace/arch/x86/mut_process_arch.c) as a function of the target's
    memory and registers, and what it records. */
module FrameWalk {
  import opened Words
  import opened Memory
  import opened Backtraces

  /** The word at an address as the target's processor reads it. */
  function Word32(m: Memory, a: Word): Option<Word> {
    if Mapped(m, a) then Some(Number(Peek(m, a), false)) else None
  }

  /** The address of the call instruction that pushed return address `ra`. */
  function CallSite(ra: Word): Word {
    Wrap(ra - 5)
  }

  /** The frames recorded from frame pointer `ebp` on, with `room` left in the backtrace; `None` when
      a word that is needed cannot be read. */
  function WalkFrom(m: Memory, ebp: Word, base: Word, room: nat): Option<seq<Word>>
    decreases room
  {
    if ebp == 0 || ebp <= base then Some([])
    else match Word32(m, Wrap(ebp + 4))
      case None => None
      case Some(ra) =>
        if ra == 0 || room == 0 then Some([])
        else match Word32(m, ebp)
          case None => None
          case Some(next) =>
            match WalkFrom(m, next, ebp, room - 1)
            case None => None
            case Some(rest) => Some([CallSite(ra)] + rest)
  }

  /** The whole walk at a function entry: the return address on top of the stack, then the frames. */
  function Walk(m: Memory, esp: Word, ebp: Word): Option<seq<Word>> {
    match Word32(m, esp)
    case None => None
    case Some(ra) =>
      match WalkFrom(m, ebp, esp, FRAMES_MAX - 1)
      case None => None
      case Some(rest) => Some([CallSite(ra)] + rest)
  }

  // ---- the frame chain, independently of the walk -----------------------

  /** The k-th frame pointer of the chain that starts at `ebp`. */
  function Link(m: Memory, ebp: Word, k: nat): Option<Word> {
    if k == 0 then Some(ebp)
    else match Link(m, ebp, k - 1)
      case None => None
      case Some(fp) => Word32(m, fp)
  }

  /** The frame pointer below the k-th one; the stack pointer for the first. */
  function Below(m: Memory, esp: Word, ebp: Word, k: nat): Option<Word> {
    if k == 0 then Some(esp) else Link(m, ebp, k - 1)
  }

  /** Frame `k` is one to record: its pointer is above the previous one and its return address,
      next to it in memory, is not zero. */
  ghost predicate Recordable(m: Memory, esp: Word, ebp: Word, k: nat) {
    match (Below(m, esp, ebp, k), Link(m, ebp, k))
    case (Some(below), Some(fp)) =>
      fp != 0 && below < fp && Word32(m, Wrap(fp + 4)).Some? && Word32(m, Wrap(fp + 4)).value != 0
    case _ => false
  }

  function ReturnAt(m: Memory, ebp: Word, k: nat): Option<Word> {
    match Link(m, ebp, k)
    case None => None
    case Some(fp) => Word32(m, Wrap(fp + 4))
  }

  /** The chain from the second frame on. */
  lemma {:induction false} LinkShift(m: Memory, ebp: Word, k: nat)
    requires Word32(m, ebp).Some?
    ensures Link(m, ebp, k + 1) == Link(m, Word32(m, ebp).value, k)
  {
    if k != 0 {
      LinkShift(m, ebp, k - 1);
    }
  }

  lemma RecordableShift(m: Memory, esp: Word, ebp: Word, k: nat)
    requires Word32(m, ebp).Some?
    ensures Recordable(m, esp, ebp, k + 1) <==> Recordable(m, ebp, Word32(m, ebp).value, k)
    ensures ReturnAt(m, ebp, k + 1) == ReturnAt(m, Word32(m, ebp).value, k)
  {
    hide Word32;
    LinkShift(m, ebp, k);
    if k != 0 {
      LinkShift(m, ebp, k - 1);
    }
  }

  /** The return address is five bytes, the length of a call instruction, behind `f`. */
  ghost predicate Behind(f: Word, ra: Option<Word>) {
    ra == Some(Wrap(f + 5))
  }

  lemma BehindCallSite(ra: Word)
    ensures Behind(CallSite(ra), Some(ra))
  {
  }

  /** Frame `k` of the chain is one to record, and `f` is what a backtrace keeps of it. */
  ghost predicate Kept(m: Memory, esp: Word, ebp: Word, k: nat, f: Word) {
    Recordable(m, esp, ebp, k) && Behind(f, ReturnAt(m, ebp, k))
  }

  /** A walk that succeeds records the longest recordable prefix of the chain, as far as there is room. */
  lemma {:induction false} WalkFromIsPrefix(m: Memory, ebp: Word, base: Word, room: nat)
    requires WalkFrom(m, ebp, base, room).Some?
    ensures var fs := WalkFrom(m, ebp, base, room).value;
            && |fs| <= room
            && (forall k :: 0 <= k < |fs| ==> Kept(m, base, ebp, k, fs[k]))
            && (|fs| < room ==> !Recordable(m, base, ebp, |fs|))
    decreases room
  {
    hide Word32, Kept, Recordable;
    var fs := WalkFrom(m, ebp, base, room).value;
    if fs == [] {
      EmptyWalk(m, ebp, base, room);
    } else {
      var next := Word32(m, ebp).value;
      var rest := WalkFrom(m, next, ebp, room - 1).value;
      FirstFrame(m, ebp, base, room);
      WalkFromIsPrefix(m, next, ebp, room - 1);
      forall k | 0 <= k < |fs|
        ensures Kept(m, base, ebp, k, fs[k])
      {
        if k != 0 {
          KeptShift(m, base, ebp, k - 1, fs[k]);
        }
      }
      RecordableShift(m, base, ebp, |rest|);
    }
  }

  lemma EmptyWalk(m: Memory, ebp: Word, base: Word, room: nat)
    requires WalkFrom(m, ebp, base, room) == Some([])
    ensures room > 0 ==> !Recordable(m, base, ebp, 0)
  {
    hide Word32;
    assert Link(m, ebp, 0) == Some(ebp) && Below(m, base, ebp, 0) == Some(base);
  }

  lemma FirstFrame(m: Memory, ebp: Word, base: Word, room: nat)
    requires WalkFrom(m, ebp, base, room).Some? && WalkFrom(m, ebp, base, room).value != []
    ensures Kept(m, base, ebp, 0, WalkFrom(m, ebp, base, room).value[0])
  {
    hide Word32, Behind, CallSite;
    BehindCallSite(Word32(m, Wrap(ebp + 4)).value);
    assert Link(m, ebp, 0) == Some(ebp) && Below(m, base, ebp, 0) == Some(base);
  }

  lemma KeptShift(m: Memory, esp: Word, ebp: Word, k: nat, f: Word)
    requires Word32(m, ebp).Some?
    ensures Kept(m, esp, ebp, k + 1, f) <==> Kept(m, ebp, Word32(m, ebp).value, k, f)
  {
    hide Word32, Recordable, ReturnAt;
    RecordableShift(m, esp, ebp, k);
  }

  /** The backtrace holds the caller and then exactly the longest prefix of the frame chain with
      rising frame pointers and non-zero return addresses, capped at the size of the backtrace. */
  lemma WalkIsLongestPrefix(m: Memory, esp: Word, ebp: Word)
    requires Walk(m, esp, ebp).Some?
    ensures var fs := Walk(m, esp, ebp).value;
            && 1 <= |fs| <= FRAMES_MAX
            && Behind(fs[0], Word32(m, esp))
            && (forall k :: 0 <= k < |fs[1..]| ==> Kept(m, esp, ebp, k, fs[1..][k]))
            && (|fs| < FRAMES_MAX ==> !Recordable(m, esp, ebp, |fs| - 1))
  {
    hide Word32, Kept, Recordable, WalkFrom, Behind, CallSite;
    BehindCallSite(Word32(m, esp).value);
    var fs := Walk(m, esp, ebp).value;
    var rest := WalkFrom(m, ebp, esp, FRAMES_MAX - 1).value;
    WalkFromIsPrefix(m, ebp, esp, FRAMES_MAX - 1);
    assert fs[1..] == rest;
  }

  /** Frame `k` has a risen frame pointer, but a word of it that is needed cannot be read. */
  ghost predicate Unreadable(m: Memory, esp: Word, ebp: Word, k: nat, room: nat) {
    match (Below(m, esp, ebp, k), Link(m, ebp, k))
    case (Some(below), Some(fp)) => fp != 0 && below < fp && Torn(m, fp, k < room)
    case _ => false
  }

  /** The return address of a frame cannot be read, or the link that is needed after it. */
  ghost predicate Torn(m: Memory, fp: Word, room: bool) {
    match Word32(m, Wrap(fp + 4))
    case None => true
    case Some(ra) => ra != 0 && room && Word32(m, fp).None?
  }

  lemma UnreadableShift(m: Memory, esp: Word, ebp: Word, k: nat, room: nat)
    requires Word32(m, ebp).Some? && room > 0
    ensures Unreadable(m, esp, ebp, k + 1, room) <==> Unreadable(m, ebp, Word32(m, ebp).value, k, room - 1)
  {
    hide Word32, Torn;
    LinkShift(m, ebp, k);
    if k != 0 {
      LinkShift(m, ebp, k - 1);
    }
  }

  /** Frames below `k` are all recordable and frame `k` is the one the walk fails on. */
  ghost predicate FailsAt(m: Memory, esp: Word, ebp: Word, k: nat, room: nat) {
    k <= room && Unreadable(m, esp, ebp, k, room) && forall j :: 0 <= j < k ==> Recordable(m, esp, ebp, j)
  }

  /** The walk fails exactly when the word on top of the stack cannot be read, or after some recordable
      frames, no more than there is room for, it needs a word that cannot be read. */
  lemma WalkFailsIff(m: Memory, esp: Word, ebp: Word)
    ensures var room := FRAMES_MAX - 1;
            Walk(m, esp, ebp).None? <==> Word32(m, esp).None? || exists k :: FailsAt(m, esp, ebp, k, room)
  {
    FramesFailIff(m, ebp, esp, FRAMES_MAX - 1);
  }

  lemma FramesFailIff(m: Memory, ebp: Word, base: Word, room: nat)
    ensures WalkFrom(m, ebp, base, room).None? <==> exists k :: FailsAt(m, base, ebp, k, room)
  {
    if WalkFrom(m, ebp, base, room).None? {
      var k := FailingFrame(m, ebp, base, room);
    }
    if k :| FailsAt(m, base, ebp, k, room) {
      FailingWalk(m, ebp, base, room, k);
    }
  }

  lemma {:induction false} FailingFrame(m: Memory, ebp: Word, base: Word, room: nat) returns (k: nat)
    requires WalkFrom(m, ebp, base, room).None?
    ensures FailsAt(m, base, ebp, k, room)
    decreases room
  {
    assert Link(m, ebp, 0) == Some(ebp) && Below(m, base, ebp, 0) == Some(base);
    if Unreadable(m, base, ebp, 0, room) {
      k := 0;
    } else {
      k := FailingFrame(m, Word32(m, ebp).value, ebp, room - 1);
      FailsShift(m, ebp, base, k, room);
      k := k + 1;
    }
  }

  lemma {:induction false} FailingWalk(m: Memory, ebp: Word, base: Word, room: nat, k: nat)
    requires FailsAt(m, base, ebp, k, room)
    ensures WalkFrom(m, ebp, base, room).None?
    decreases room
  {
    assert Link(m, ebp, 0) == Some(ebp) && Below(m, base, ebp, 0) == Some(base);
    if k != 0 {
      assert Recordable(m, base, ebp, 0);
      if Word32(m, ebp).Some? {
        FailsShift(m, ebp, base, k - 1, room);
        FailingWalk(m, Word32(m, ebp).value, ebp, room - 1, k - 1);
      }
    }
  }

  lemma FailsShift(m: Memory, ebp: Word, base: Word, k: nat, room: nat)
    requires Word32(m, ebp).Some? && room > 0 && Recordable(m, base, ebp, 0)
    ensures FailsAt(m, base, ebp, k + 1, room) <==> FailsAt(m, ebp, Word32(m, ebp).value, k, room - 1)
  {
    var next := Word32(m, ebp).value;
    UnreadableShift(m, base, ebp, k, room);
    forall j: nat
      ensures Recordable(m, base, ebp, j + 1) <==> Recordable(m, ebp, next, j)
    {
      RecordableShift(m, base, ebp, j);
    }
    if FailsAt(m, base, ebp, k + 1, room) {
      forall j | 0 <= j < k
        ensures Recordable(m, ebp, next, j)
      {
        assert Recordable(m, base, ebp, j + 1);
      }
    }
    if FailsAt(m, ebp, next, k, room - 1) {
      forall j | 0 <= j < k + 1
        ensures Recordable(m, base, ebp, j)
      {
        if j != 0 {
          assert Recordable(m, ebp, next, j - 1) && Recordable(m, base, ebp, (j - 1) + 1);
        }
      }
    }
  }
}

/** Call backtraces: a fixed number of return addresses and a count of the fields that share the
    backtrace (src/backtrace/fixed/mut_backtrace.c). */
module Backtraces {
  import opened Words

  const FRAMES_MAX := 20

  class Backtrace {
    var refCount: nat
    var nFrames: nat
    const frame: array<Word>
    /** What it is to hold once it is filled. */
    ghost const due: seq<Word>
    ghost var freed: bool

    ghost predicate Usable()
      reads this`freed, this`refCount
    {
      !freed && refCount != 0
    }

    ghost predicate WellFormed()
      reads this`nFrames
    {
      nFrames <= FRAMES_MAX == frame.Length
    }

    function Frames(): seq<Word>
      requires WellFormed()
      reads this`nFrames, frame
    {
      frame[..nFrames]
    }

    ghost predicate Complete()
      reads this`nFrames, frame
    {
      WellFormed() && Frames() == due
    }

    /** A new backtrace has one owner and no frames. */
    constructor (ghost due: seq<Word>)
      ensures refCount == 1 && !freed && nFrames == 0 && WellFormed() && fresh(frame) && this.due == due
    {
      this.due := due;
      refCount := 1;
      nFrames := 0;
      freed := false;
      frame := new Word[FRAMES_MAX];
    }

    /** Appends a return address; refuses once the backtrace is full. */
    method Enter(ra: Word) returns (entered: bool)
      requires WellFormed()
      modifies this`nFrames, frame
      ensures WellFormed()
      ensures entered <==> old(nFrames) < FRAMES_MAX
      ensures Frames() == if entered then old(Frames()) + [ra] else old(Frames())
    {
      entered := nFrames < FRAMES_MAX;
      if entered {
        frame[nFrames] := ra;
        nFrames := nFrames + 1;
      }
    }

    method Share()
      requires Usable()
      modifies this`refCount
      ensures refCount == old(refCount) + 1
    {
      refCount := refCount + 1;
    }

    /** Gives up one share; the last one frees the backtrace. */
    method Close()
      requires Usable()
      modifies this`refCount, this`freed
      ensures refCount == old(refCount) - 1
      ensures freed <==> refCount == 0
    {
      refCount := refCount - 1;
      if refCount == 0 {
        freed := true;
      }
    }
  }
}

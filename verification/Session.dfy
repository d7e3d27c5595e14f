/** A whole session, from opening the target to giving it up (`main` of src/ui/tty/mut_ui.c over
    `mut_open`, `mut_run`, `mut_close` and `mut_close_on_error` of src/mut.c). */
module Sessions {
  import opened Words
  import opened Memory
  import opened Processes
  import opened Breakpoints
  import opened ResourceLists
  import opened Trackers
  import L = Ledger
  import F = Findings
  import T = Truth
  import H = History
  import X = Transcripts

  datatype SessionResult = Finished | OpenFailed | RunError | AssertionFailed

  /** Runs a target that has just been started under the tracker.  `h` is the history of the calls that
      were handled completely, `last` the call a run that does not finish ended in, and `aborted` says
      whether handling it failed an assertion. */
  method Session(process: Process, flags: L.Flags, zero: bool, traceable: bool, symbols: Symbols)
    returns (outcome: SessionResult, t: Tracker, ghost h: seq<L.Event>, ghost last: L.Event, ghost aborted: bool)
    requires process.status == Stopped && !process.lost && !process.bigEndian
    requires process.trail == [] && process.stops == [] && !process.refused
    modifies process
    ensures fresh(t) && t.process == process && t.zero == zero
    ensures t.flags == flags.(backtrace := flags.backtrace && traceable)
    // the log of a finished session is that of the history, which is read off the stops of the target
    ensures outcome.Finished? ==>
              && L.Replay(t.flags, h).Done?
              && t.log == L.Replay(t.flags, h).books.log + L.Closing(t.flags, L.Replay(t.flags, h).books)
              && h == CallsOf(flags.free, Places(symbols), process.stops)
    // record by record it is what the history calls for, then the leaks, then the statistics
    ensures outcome.Finished? && H.FreshResults(t.flags, h) ==> X.Complete(t.flags, h, t.log)
    // over an honest allocator it is the truth exactly when no object has escaped the tracker
    ensures outcome.Finished? && T.Honest(t.flags, h) ==>
              (T.Truthful(t.flags, h, t.log) <==> T.NothingEscapes(t.flags, h))
    // however a session ends, its diagnoses are those of the completed calls and of the last, if one was under way
    ensures T.Accurate(t.flags, h, last, t.log)
    // the leaks shown are the live objects of the list, each with the backtrace of the call that produced it
    ensures outcome.Finished? ==>
              && Entries(t.resources.elems) == L.Replay(t.flags, h).books.elems
              && AllTyped(t.resources.elems, t.flags.backtrace)
              && AllTraced(t.resources.elems, Past(Places(symbols), process.stops)) && t.AllComplete()
    // every backtrace is freed, each once
    ensures outcome.Finished? ==> forall bt :: bt in t.resources.owned ==> bt.freed
    // history and last call are read off the stops; they or a refusal have ended a session that does not finish
    ensures L.Replay(t.flags, h).Done?
    ensures !outcome.Finished? && !aborted ==> t.Trouble() || t.CallEnds(L.Replay(t.flags, h).books, h, last)
    ensures aborted ==> t.CallEnds(L.Replay(t.flags, h).books, h, last)
    ensures t.Accounted(h, last)
    ensures outcome.OpenFailed? ==> !Tracker.AllThere(old(process.text), symbols)
    // an assertion fails exactly in a handler, or in closing a target that was lost while it ran
    ensures outcome.AssertionFailed? <==> process.lost || aborted
    ensures process.lost ==> process.status == Running && CutOff(old(process.events), process.events)
    ensures outcome.Finished? ==> Ended(old(process.events), process.events)
    ensures Healthy(old(process.events)) ==> !process.lost
    ensures !outcome.OpenFailed? && Tracker.LostAtOnce(old(process.denials), old(process.events)) ==> process.lost
    // otherwise the target is not left behind
    ensures !outcome.AssertionFailed? ==> process.status == Exited
    // breakpoints are where the functions are, and the target runs on nothing else but its own text
    ensures !outcome.OpenFailed? ==> Registry(t.actions) == Places(symbols)
    ensures !outcome.OpenFailed? ==>
              t.Orderly(Stop(old(process.pc), old(process.regs), old(process.data), None), Places(symbols),
                        process.stops, process.trail)
    ensures !outcome.OpenFailed? && PairwiseApart(Addrs(t.actions)) ==>
              t.Discipline(old(process.text), Addrs(t.actions), 0)
  {
    hide Resources.Accounts, AllTyped, AllTraced, Tracker.Registrations, Tracker.Discipline, PairwiseApart;
    hide L.Step, T.Truthful;
    hide T.NothingEscapes, T.Honest, Ended, Healthy, CutOff, Tracker.LostAtOnce, Tracker.AllThere, Tracker.Misaligned;
    hide L.Replay, L.Closing, CallsOf, Places, T.Accurate, F.Diagnoses, Tracker.Accounted, Tracker.CallEnds;
    hide Tracker.Orderly;
    hide X.Complete, H.FreshResults;
    ghost var original, start := process.text, Stop(process.pc, process.regs, process.data, None);
    h, last, aborted := [], L.UsageCall, false;
    t := new Tracker(process, flags, zero, traceable);
    var ok := t.Open(symbols);
    if !ok {
      NothingCalled(t);
      process.Close();
      return OpenFailed, t, h, last, aborted;
    }
    if Healthy(process.events) {
      NeverCutOff(process.events);
    }
    var r: RunResult;
    r, h, last := t.Run(original);
    aborted := r.RunAborted?;
    outcome := Conclude(t, r, start, h, last);
  }

  /** Closes the tracker after a run, if that can be done. */
  method Conclude(t: Tracker, r: RunResult, ghost start: Stop, ghost h: seq<L.Event>, ghost last: L.Event)
    returns (outcome: SessionResult)
    requires t.RunOver(r, start, h, last)
    modifies t`log, t.process`status, t.resources.owned`refCount, t.resources.owned`freed
    ensures outcome.Finished? <==> r.TargetGone?
    ensures outcome.AssertionFailed? <==> t.process.lost || r.RunAborted?
    ensures outcome != OpenFailed && (!outcome.AssertionFailed? ==> t.process.status == Exited)
    ensures outcome.AssertionFailed? ==> t.process.status == old(t.process.status)
    ensures outcome.Finished? ==>
              t.log == L.Replay(t.flags, h).books.log + L.Closing(t.flags, L.Replay(t.flags, h).books)
    ensures outcome.Finished? && T.Honest(t.flags, h) ==>
              (T.Truthful(t.flags, h, t.log) <==> T.NothingEscapes(t.flags, h))
    ensures outcome.Finished? && H.FreshResults(t.flags, h) ==> X.Complete(t.flags, h, t.log)
    ensures !outcome.Finished? ==> t.log == old(t.log)
    ensures outcome.Finished? ==> forall bt :: bt in t.resources.owned ==> bt.freed
    ensures T.Accurate(t.flags, h, last, t.log)
    ensures outcome.Finished? ==> Entries(t.resources.elems) == L.Replay(t.flags, h).books.elems
    ensures outcome.Finished? ==> t.Typed() && t.Traced() && t.AllComplete()
  {
    hide Resources.Accounts, AllTyped, AllTraced, T.Truthful, T.NothingEscapes, T.Honest, T.Accurate;
    hide F.Diagnoses, X.Complete, H.FreshResults;
    hide L.Replay, L.Closing, CallsOf, Tracker.Accounted, Tracker.CallEnds;
    T.LogIsAccurate(t.flags, h, last, t.log);
    match r {
      case TargetGone =>
        if T.Honest(t.flags, h) {
          T.TruthfulIff(t.flags, h);
        }
        if H.FreshResults(t.flags, h) {
          X.ClosedIsComplete(t.flags, h);
        }
        ghost var log := t.log;
        t.Close();
        F.ClosingDiagnosesNothing(t.flags, L.Replay(t.flags, h).books, log);
        T.LogIsAccurate(t.flags, h, last, t.log);
        outcome := Finished;
      case RunFailed =>
        if t.process.status == Running {
          // a target that was lost while running cannot be closed
          outcome := AssertionFailed;
        } else {
          t.CloseOnError();
          outcome := RunError;
        }
      case RunAborted =>
        outcome := AssertionFailed;
    }
  }

  /** Before the target has run. */
  lemma NothingCalled(t: Tracker)
    requires t.process.stops == [] && t.log == []
    ensures L.Replay(t.flags, []).Done? && t.Accounted([], L.UsageCall)
    ensures T.Accurate(t.flags, [], L.UsageCall, t.log)
  {
    assert UnderHand(t.flags.free, Registry(t.actions), t.process.stops, 0, [], L.UsageCall);
    T.LogIsAccurate(t.flags, [], L.UsageCall, []);
  }

  lemma NeverCutOff(all: seq<Event>)
    requires Healthy(all)
    ensures forall left :: !CutOff(all, left)
  {
    forall left
      ensures !CutOff(all, left)
    {
      HealthyNeverCutOff(all, left);
    }
  }

  /** One session that is lost: the first wait for the target fails, the target is left running, and
      closing it fails an assertion. */
  method LostSession(regs: Registers, text: Memory, data: Memory, flags: L.Flags)
    returns (process: Process, outcome: SessionResult)
    ensures fresh(process)
    ensures outcome == AssertionFailed && process.lost && process.status == Running
  {
    process := new Process(regs, text, data, [WaitFailed], [], false);
    var nothing := Symbols(None, None, None, None, None, None);
    var t;
    ghost var h, last, aborted;
    outcome, t, h, last, aborted := Session(process, flags, false, true, nothing);
  }
}

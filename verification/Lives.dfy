/** Lives of a device: runs of a program one after the other, each to its end or until power is lost in it. */
module Lives {
  import opened Common
  import opened Disk

  /**
   A run goes to its end; or power is lost in it, so many states `after` the one it began in (or in its last), `junk` is
   then found in place of unsynced contents, and from then on the file systems are `working` or not.
   */
  datatype Run = Whole | Cut(after: nat, junk: Path -> seq<Byte>, working: bool)

  /**
   A run in a trace: it began in the state before `from`, passed through those from there up to `to` (all of them, or as
   far as it came), on file systems that were `working` or not, and returned `r` (or would have).
   */
  datatype Segment = Segment(from: nat, to: nat, working: bool, r: int)

  function CutPoint(seg: Segment, after: nat): (at: nat)
    requires 0 < seg.from <= seg.to
    ensures seg.from - 1 <= at < seg.to
  {
    if seg.from - 1 + after < seg.to then seg.from - 1 + after else seg.to - 1
  }

  /** Where the next run begins: behind the last state of this one, or behind what the loss of power left. */
  function End(seg: Segment, run: Run): (end: nat) {
    if run.Whole? then seg.to else seg.to + 1
  }

  ghost predicate InTrace(trace: seq<State>, seg: Segment, run: Run) {
    && 0 < seg.from <= seg.to && End(seg, run) <= |trace|
    && (run.Cut? ==> trace[seg.to] == State(Left(trace[CutPoint(seg, run.after)], run.junk), {}))
  }

  function Begin(start: nat, runs: seq<Run>, history: seq<Segment>, i: nat): (at: nat)
    requires i <= |runs| == |history|
  {
    if i == 0 then start else End(history[i - 1], runs[i - 1])
  }

  function WorkingAt(working: bool, runs: seq<Run>, history: seq<Segment>, i: nat): (yes: bool)
    requires i <= |runs| == |history|
  {
    if i == 0 then working
    else if runs[i - 1].Whole? then history[i - 1].working
    else runs[i - 1].working
  }

  /** The run `i` is in the trace, where the run before it leaves off and with the file systems as that left them. */
  ghost predicate Placed(trace: seq<State>, start: nat, working: bool, runs: seq<Run>, history: seq<Segment>, i: nat)
    requires i < |runs| == |history|
  {
    && InTrace(trace, history[i], runs[i])
    && history[i].from == Begin(start, runs, history, i)
    && history[i].working == WorkingAt(working, runs, history, i)
  }

  /** The states from `start` on are those of the runs, one behind the other, with what each loss of power left. */
  ghost predicate Lived(trace: seq<State>, start: nat, working: bool, runs: seq<Run>, history: seq<Segment>) {
    && |history| == |runs| && 0 < start <= |trace| == Begin(start, runs, history, |runs|)
    && forall i :: 0 <= i < |runs| ==> Placed(trace, start, working, runs, history, i)
  }

  function Wholes(n: nat): (runs: seq<Run>)
    ensures |runs| == n && forall i :: 0 <= i < n ==> runs[i].Whole?
  {
    seq(n, _ => Whole)
  }

  lemma NothingLived(trace: seq<State>, working: bool)
    requires trace != []
    ensures Lived(trace, |trace|, working, [], [])
  {
  }

  lemma OneLived(trace: seq<State>, run: Run, seg: Segment)
    requires InTrace(trace, seg, run) && |trace| == End(seg, run)
    ensures Lived(trace, seg.from, seg.working, [run], [seg])
    ensures WorkingAt(seg.working, [run], [seg], 1) == if run.Whole? then seg.working else run.working
  {
  }

  /** One life continued by another. */
  lemma LivedOn(before: seq<State>, trace: seq<State>, start: nat, working: bool, runs: seq<Run>,
                history: seq<Segment>, more: seq<Run>, rest: seq<Segment>)
    requires Lived(before, start, working, runs, history) && before <= trace
    requires Lived(trace, |before|, WorkingAt(working, runs, history, |runs|), more, rest)
    ensures Lived(trace, start, working, runs + more, history + rest)
    ensures WorkingAt(working, runs + more, history + rest, |runs + more|) ==
              WorkingAt(WorkingAt(working, runs, history, |runs|), more, rest, |more|)
  {
    hide InTrace, Placed;
    var n := |runs|;
    forall i | 0 <= i < |runs + more| ensures Placed(trace, start, working, runs + more, history + rest, i) {
      if i < n {
        PlacedFirst(before, trace, start, working, runs, history, more, rest, i);
      } else {
        PlacedThen(trace, |before|, start, working, runs, history, more, rest, i - n);
      }
    }
  }

  lemma PlacedFirst(before: seq<State>, trace: seq<State>, start: nat, working: bool, runs: seq<Run>,
                    history: seq<Segment>, more: seq<Run>, rest: seq<Segment>, i: nat)
    requires i < |runs| == |history| && |more| == |rest| && before <= trace
    requires Placed(before, start, working, runs, history, i)
    ensures Placed(trace, start, working, runs + more, history + rest, i)
  {
  }

  lemma PlacedThen(trace: seq<State>, mid: nat, start: nat, working: bool, runs: seq<Run>,
                   history: seq<Segment>, more: seq<Run>, rest: seq<Segment>, i: nat)
    requires |runs| == |history| && i < |more| == |rest| && mid == Begin(start, runs, history, |runs|)
    requires Placed(trace, mid, WorkingAt(working, runs, history, |runs|), more, rest, i)
    ensures Placed(trace, start, working, runs + more, history + rest, |runs| + i)
  {
  }
}

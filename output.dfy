/** The file-system side of mobitool's dump functions: directories made and
    files written through the helpers `make_directory`, `write_to_dir` and
    `write_file`, each of which can fail. The dump functions are described
    as a list of steps; running the steps stops at the first that fails. */
module Output {
  import opened Common

  /** One call into the file-system helpers. */
  datatype Action =
    | MakeDir(path: string)
    | WriteToDir(dir: string, name: string, data: seq<u8>)
    | WriteFile(path: string, data: seq<u8>)

  /** A step of a dump function: a call into the helpers, nothing (a part
      that is skipped), or a refusal by the function itself (a name that
      does not fit its buffer), which returns ERROR. */
  datatype Step = Act(action: Action) | Skip | Refuse

  /** Whether no step failed yet, the number of helper calls made and the
      calls that succeeded. */
  datatype Outcome = Outcome(ok: bool, calls: nat, log: seq<Action>)

  /** One step, when the helper call numbered `failsAt` fails. */
  function Exec(o: Outcome, st: Step, failsAt: Option<nat>): (r: Outcome)
    ensures !o.ok ==> r == o
    ensures r.calls >= o.calls && |r.log| >= |o.log|
  {
    if !o.ok then o
    else match st
      case Skip => o
      case Refuse => o.(ok := false)
      case Act(a) =>
        if failsAt == Some(o.calls) then Outcome(false, o.calls + 1, o.log)
        else Outcome(true, o.calls + 1, o.log + [a])
  }

  /** The steps run in order. */
  function Run(o: Outcome, steps: seq<Step>, failsAt: Option<nat>): (r: Outcome)
    ensures r.calls >= o.calls && |r.log| >= |o.log|
    decreases |steps|
  {
    if steps == [] then o else Exec(Run(o, steps[..|steps| - 1], failsAt), steps[|steps| - 1], failsAt)
  }

  /** Running two lists of steps is running the first, then the second. */
  lemma {:induction false} RunAppend(o: Outcome, a: seq<Step>, b: seq<Step>, failsAt: Option<nat>)
    ensures Run(o, a + b, failsAt) == Run(Run(o, a, failsAt), b, failsAt)
    decreases |b|
  {
    if b != [] {
      var front := b[..|b| - 1];
      assert (a + b)[..|a + b| - 1] == a + front;
      RunAppend(o, a, front, failsAt);
    } else {
      assert a + b == a;
    }
  }

  /** After a failure nothing more happens. */
  lemma {:induction false} RunStopped(o: Outcome, steps: seq<Step>, failsAt: Option<nat>)
    requires !o.ok
    ensures Run(o, steps, failsAt) == o
    decreases |steps|
  {
    if steps != [] {
      RunStopped(o, steps[..|steps| - 1], failsAt);
    }
  }

  /** The helper calls among the steps. */
  function Actions(steps: seq<Step>): (r: seq<Action>)
    ensures |r| <= |steps|
    decreases |steps|
  {
    if steps == [] then []
    else
      var rest := Actions(steps[..|steps| - 1]);
      match steps[|steps| - 1]
        case Act(a) => rest + [a]
        case _ => rest
  }

  predicate NoRefusal(steps: seq<Step>)
  {
    forall j :: 0 <= j < |steps| ==> !steps[j].Refuse?
  }

  /** With no refusal and no failing call, every helper call of the steps
      is made, in order. */
  lemma {:induction false} RunAll(o: Outcome, steps: seq<Step>)
    requires o.ok && NoRefusal(steps)
    ensures Run(o, steps, None) == Outcome(true, o.calls + |Actions(steps)|, o.log + Actions(steps))
    decreases |steps|
  {
    if steps != [] {
      RunAll(o, steps[..|steps| - 1]);
    }
  }

  /** A refused step ends the run with an error, whatever follows. */
  lemma RunRefused(o: Outcome, a: seq<Step>, b: seq<Step>, failsAt: Option<nat>)
    ensures !Run(o, a + [Refuse] + b, failsAt).ok
  {
    RunAppend(o, a + [Refuse], b, failsAt);
    RunStopped(Run(o, a + [Refuse], failsAt), b, failsAt);
  }

  /** The file system: the helper call numbered `failsAt` fails. */
  class FileSink {
    const failsAt: Option<nat>
    var calls: nat
    var log: seq<Action>

    constructor (failsAt: Option<nat>)
      ensures this.failsAt == failsAt && calls == 0 && log == []
    {
      this.failsAt := failsAt;
      calls, log := 0, [];
    }

    function State(ok: bool): Outcome
      reads this
    {
      Outcome(ok, calls, log)
    }

    /** One helper call. */
    method Perform(a: Action) returns (ok: bool)
      modifies this
      ensures State(ok) == Exec(old(State(true)), Act(a), failsAt)
    {
      ok := failsAt != Some(calls);
      calls := calls + 1;
      if ok {
        log := log + [a];
      }
    }
  }
}

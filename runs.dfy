/**
 * Processing loops whose iterations may throw. ReadFolder.produce and
 * GetFileFromFolder.transform read a file per item; a read that throws
 * ends the loop, and with it the stage, before the writer is closed.
 */
module Runs {
  import opened Wrappers
  import opened Events

  /**
   * One iteration: the events it records before its fallible read, and the
   * event it emits afterwards (None when the read throws).
   */
  datatype Step = Step(before: seq<Event>, item: Option<Event>)

  /** What a loop wrote, and whether it got to its end without throwing. */
  datatype Run = Run(log: seq<Event>, completed: bool)

  /** A step records no data and no close before its read, and emits data. */
  predicate WellFormed(steps: seq<Step>)
  {
    forall i :: 0 <= i < |steps| ==>
      Payloads(steps[i].before) == [] && Closes(steps[i].before) == 0 &&
      (steps[i].item.Some? ==> IsPayload(steps[i].item.value))
  }

  /** The steps run in order; the first one whose read throws is the last one run. */
  function RunSteps(steps: seq<Step>): Run
    decreases |steps|
  {
    if steps == [] then Run([], true)
    else
      var n := |steps| - 1;
      var prev := RunSteps(steps[..n]);
      if !prev.completed then prev
      else
        match steps[n].item
        case None => Run(prev.log + steps[n].before, false)
        case Some(e) => Run(prev.log + steps[n].before + [e], true)
  }

  /** The whole life of the stage's writer: the loop's events, then `close()` if the loop ended normally. */
  function StageLog(r: Run): seq<Event>
  {
    if r.completed then r.log + [Close] else r.log
  }

  /** The index of the first step whose read throws, or |steps| when none does. */
  function FirstFailure(steps: seq<Step>): (k: nat)
    ensures k <= |steps|
    ensures forall i :: 0 <= i < k ==> steps[i].item.Some?
    ensures k < |steps| ==> steps[k].item.None?
    decreases |steps|
  {
    if steps == [] then 0
    else
      var n := |steps| - 1;
      var k := FirstFailure(steps[..n]);
      if k < n then k
      else if steps[n].item.None? then n
      else n + 1
  }

  /** How many steps run: all of them, or up to and including the first one that throws. */
  function Ran(steps: seq<Step>): (m: nat)
    ensures m <= |steps|
    decreases |steps|
  {
    if steps == [] then 0
    else if !RunSteps(steps[..|steps| - 1]).completed then Ran(steps[..|steps| - 1])
    else |steps|
  }

  /** The number of waits the steps record before their reads. */
  function PausesBefore(steps: seq<Step>): nat
    decreases |steps|
  {
    if steps == [] then 0
    else PausesBefore(steps[..|steps| - 1]) + Pauses(steps[|steps| - 1].before)
  }

  /**
   * A loop completes exactly when no read throws; it emits one payload per
   * step that ran, in step order, the item of that step; and it never closes
   * the writer itself.
   */
  lemma RunOutcome(steps: seq<Step>)
    requires WellFormed(steps)
    ensures RunSteps(steps).completed <==> FirstFailure(steps) == |steps|
    ensures |Payloads(RunSteps(steps).log)| == FirstFailure(steps)
    ensures forall i :: 0 <= i < FirstFailure(steps) ==>
              steps[i].item == Some(Payloads(RunSteps(steps).log)[i])
    ensures Closes(RunSteps(steps).log) == 0
  {
    RunCompletes(steps);
    RunPayloads(steps);
    RunCloses(steps);
  }

  lemma {:induction false} RunCompletes(steps: seq<Step>)
    ensures RunSteps(steps).completed <==> FirstFailure(steps) == |steps|
    decreases |steps|
  {
    if steps != [] {
      RunCompletes(steps[..|steps| - 1]);
    }
  }

  lemma {:induction false} RunPayloads(steps: seq<Step>)
    requires forall i :: 0 <= i < |steps| ==>
               Payloads(steps[i].before) == [] && (steps[i].item.Some? ==> IsPayload(steps[i].item.value))
    ensures |Payloads(RunSteps(steps).log)| == FirstFailure(steps)
    ensures forall i :: 0 <= i < FirstFailure(steps) ==>
              steps[i].item == Some(Payloads(RunSteps(steps).log)[i])
    decreases |steps|
  {
    if steps != [] {
      var n := |steps| - 1;
      var init := steps[..n];
      assert forall i :: 0 <= i < |init| ==> init[i] == steps[i];
      RunPayloads(init);
      RunCompletes(init);
      var prev := RunSteps(init);
      if prev.completed {
        var before := steps[n].before;
        PayloadsAppend(prev.log, before);
        if steps[n].item.Some? {
          var e := steps[n].item.value;
          PayloadsAppend(prev.log + before, [e]);
          assert [e][1..] == [];
        }
      }
    }
  }

  lemma {:induction false} RunCloses(steps: seq<Step>)
    requires forall i :: 0 <= i < |steps| ==>
               Closes(steps[i].before) == 0 && (steps[i].item.Some? ==> !steps[i].item.value.Close?)
    ensures Closes(RunSteps(steps).log) == 0
    decreases |steps|
  {
    if steps != [] {
      var n := |steps| - 1;
      var init := steps[..n];
      assert forall i :: 0 <= i < |init| ==> init[i] == steps[i];
      RunCloses(init);
      var prev := RunSteps(init);
      if prev.completed {
        var before := steps[n].before;
        ClosesAppend(prev.log, before);
        if steps[n].item.Some? {
          var e := steps[n].item.value;
          ClosesAppend(prev.log + before, [e]);
          assert [e][1..] == [];
        }
      }
    }
  }

  /** The waits in a loop's log are those recorded by the steps that ran. */
  lemma {:induction false} RunPauses(steps: seq<Step>)
    requires forall i :: 0 <= i < |steps| && steps[i].item.Some? ==> !steps[i].item.value.Pause?
    ensures Pauses(RunSteps(steps).log) == PausesBefore(steps[..Ran(steps)])
    decreases |steps|
  {
    if steps != [] {
      var n := |steps| - 1;
      var init := steps[..n];
      assert forall i :: 0 <= i < |init| ==> init[i] == steps[i];
      RunPauses(init);
      var prev := RunSteps(init);
      if !prev.completed {
        var m := Ran(init);
        assert init[..m] == steps[..m];
      } else {
        var before := steps[n].before;
        PausesAppend(prev.log, before);
        assert init[..n] == init;
        assert steps[..n + 1] == steps;
        match steps[n].item
        case None =>
        case Some(e) =>
          PausesAppend(prev.log + before, [e]);
          assert Pauses([e]) == 0 by {
            assert [e][1..] == [];
          }
      }
    }
  }

  /** The steps that ran are those that emitted, plus the one that threw if any. */
  lemma {:induction false} RanCount(steps: seq<Step>)
    requires WellFormed(steps)
    ensures Ran(steps) == if RunSteps(steps).completed then |steps| else |Payloads(RunSteps(steps).log)| + 1
    decreases |steps|
  {
    if steps != [] {
      var n := |steps| - 1;
      var init := steps[..n];
      assert WellFormed(init) by {
        forall i | 0 <= i < |init| ensures init[i] == steps[i] { }
      }
      var prev := RunSteps(init);
      if !prev.completed {
        RanCount(init);
      } else if steps[n].item.None? {
        RunOutcome(init);
        PayloadsAppend(prev.log, steps[n].before);
      }
    }
  }

  /** Once a prefix of the steps has thrown, the later steps never run. */
  lemma {:induction false} RunStuck(steps: seq<Step>, m: nat)
    requires m <= |steps|
    requires !RunSteps(steps[..m]).completed
    ensures RunSteps(steps) == RunSteps(steps[..m])
    decreases |steps|
  {
    if m < |steps| {
      var n := |steps| - 1;
      assert steps[..n][..m] == steps[..m];
      RunStuck(steps[..n], m);
    } else {
      assert steps[..m] == steps;
    }
  }

  /** The event an item contributes to the log: itself, or nothing for a read that throws. */
  function ItemLog(item: Option<Event>): seq<Event>
  {
    if item.Some? then [item.value] else []
  }

  /** Running one more step extends the run of the steps before it; the run goes on if the step's read succeeds. */
  lemma RunSnoc(steps: seq<Step>, i: nat)
    requires i < |steps|
    requires RunSteps(steps[..i]).completed
    ensures RunSteps(steps[..i + 1]).completed == steps[i].item.Some?
    ensures RunSteps(steps[..i + 1]).log == RunSteps(steps[..i]).log + steps[i].before + ItemLog(steps[i].item)
  {
    assert steps[..i + 1][..i] == steps[..i];
  }

  /** The stage closes its writer once, after everything else, exactly when its loop completes; otherwise never. */
  lemma StageCloses(steps: seq<Step>)
    requires WellFormed(steps)
    ensures RunSteps(steps).completed ==> ClosedOnceAtEnd(StageLog(RunSteps(steps)))
    ensures !RunSteps(steps).completed ==> Closes(StageLog(RunSteps(steps))) == 0
  {
    RunOutcome(steps);
    if RunSteps(steps).completed {
      CloseOnce(RunSteps(steps).log);
    }
  }
}

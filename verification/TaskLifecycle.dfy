/**
 A task's own story over whole runs: the address space it was created for is the one it runs in,
 its mode and its argument are settled before it starts, and it starts where it was told to.
 */
module TaskLifecycle {
  import opened Machine
  import opened Tasks
  import opened TasksInvariant
  import I = IdMapper
  import L = LinkedList

  // ---------------------------------------------------------------- what a step can change about a task

  /**
   A step never moves a task to another address space. It changes the mode and the argument only
   through the call for it, on a task that is not started, and the argument only once.
   */
  lemma StepSettles(s: State, step: Step, t: nat)
    requires Inv(s) && Live(s) && t < |s.tasks|
    ensures t < |Apply(s, step).tasks|
    ensures var task, task' := s.tasks[t], Apply(s, step).tasks[t];
            && task'.space == task.space && task'.id == task.id
            && (task'.kernel <==> task.kernel || (step == DoSetKernelMode(t) && task.status == Created))
            && task'.userdata == (if step.DoSetArguments? && step.t == t && step.data.Some?
                                     && task.status == Created && task.userdata == 0
                                  then step.data.value else task.userdata)
            && (task.status != Created ==> task'.status != Created)
  {
    hide Inv, L.RemoveFirst, I.Del;
    match step
    case Tick(_) =>
    case OtherInterrupt(_) =>
    case Fault =>
    case Exit(_, fast) => if fast { } else { }
    case _ =>
  }

  lemma RunStep(s: State, steps: seq<Step>)
    requires Inv(s) && steps != []
    ensures var before := Run(s, steps[..|steps| - 1]);
            Live(before) && Inv(before) && Run(s, steps) == Apply(before, steps[|steps| - 1])
  {
    hide Inv, Apply;
    ApplyKeeps(Run(s, steps[..|steps| - 1]), steps[|steps| - 1]);
  }

  /** Tasks stay in their address space over every run, and keep their ids. */
  lemma {:induction false} SpaceForever(s: State, steps: seq<Step>, t: nat)
    requires Inv(s) && t < |s.tasks|
    ensures var r := Run(s, steps);
            t < |r.tasks| && r.tasks[t].space == s.tasks[t].space && r.tasks[t].id == s.tasks[t].id
    decreases |steps|
  {
    hide Inv, Apply;
    if steps == [] {
      RunNothing(s);
    } else {
      var n := |steps| - 1;
      SpaceForever(s, steps[..n], t);
      RunStep(s, steps);
      StepSettles(Run(s, steps[..n]), steps[n], t);
    }
  }

  /** Step k of a run sets kernel mode for a task that is not started yet. */
  ghost predicate MadeKernel(s: State, steps: seq<Step>, t: nat, k: int)
    requires Inv(s)
  {
    && 0 <= k < |steps| && steps[k] == DoSetKernelMode(t)
    && t < |Run(s, steps[..k]).tasks| && Run(s, steps[..k]).tasks[t].status == Created
  }

  /** After every run a task is in kernel mode exactly when it was, or was made so before it was started. */
  lemma {:induction false} KernelModeExactly(s: State, steps: seq<Step>, t: nat)
    requires Inv(s) && t < |s.tasks|
    ensures t < |Run(s, steps).tasks|
    ensures Run(s, steps).tasks[t].kernel <==> s.tasks[t].kernel || exists k :: MadeKernel(s, steps, t, k)
    decreases |steps|
  {
    hide Inv, Apply, Run;
    SpaceForever(s, steps, t);
    if steps == [] {
      RunNothing(s);
    } else {
      var n := |steps| - 1;
      KernelModeExactly(s, steps[..n], t);
      RunStep(s, steps);
      StepSettles(Run(s, steps[..n]), steps[n], t);
      if k :| MadeKernel(s, steps[..n], t, k) {
        assert steps[..n][..k] == steps[..k];
        assert MadeKernel(s, steps, t, k);
      }
      if k :| MadeKernel(s, steps, t, k) {
        if k < n {
          assert steps[..n][..k] == steps[..k];
          assert MadeKernel(s, steps[..n], t, k);
        }
      }
      if steps[n] == DoSetKernelMode(t) && Run(s, steps[..n]).tasks[t].status == Created {
        assert MadeKernel(s, steps, t, n);
      }
    }
  }

  /** A started task keeps its mode and its argument for good. */
  lemma {:induction false} StartedIsSettled(s: State, steps: seq<Step>, t: nat)
    requires Inv(s) && t < |s.tasks| && s.tasks[t].status != Created
    ensures var r := Run(s, steps);
            && t < |r.tasks| && r.tasks[t].status != Created
            && r.tasks[t].kernel == s.tasks[t].kernel && r.tasks[t].userdata == s.tasks[t].userdata
    decreases |steps|
  {
    hide Inv, Apply;
    if steps == [] {
      RunNothing(s);
    } else {
      var n := |steps| - 1;
      StartedIsSettled(s, steps[..n], t);
      RunStep(s, steps);
      StepSettles(Run(s, steps[..n]), steps[n], t);
    }
  }

  // ---------------------------------------------------------------- from creation to the processor

  lemma RunOne(s: State, step: Step)
    requires Inv(s)
    ensures Live(s) && Inv(Apply(s, step)) && Run(s, [step]) == Apply(s, step)
  {
    hide Inv, Apply, Run;
    ApplyKeeps(s, step);
    RunNothing(s);
    RunSnoc(s, [], step);
    assert [] + [step] == [step];
  }

  /** Whenever a task runs, however long after its creation, the page tables are those it was created for. */
  lemma RunsInItsSpace(s: State, space: nat, steps: seq<Step>)
    requires Inv(s)
    ensures var r := Run(s, [DoCreate(space)] + steps);
            && |s.tasks| < |r.tasks| && r.tasks[|s.tasks|].space == space
            && (r.current == Some(|s.tasks|) ==> r.cr3 == Some(space))
  {
    hide Apply, Run;
    var t, s1 := |s.tasks|, Run(s, [DoCreate(space)]);
    RunOne(s, DoCreate(space));
    CreatedSpace(s, space);
    RunSplit(s, [DoCreate(space)], steps);
    SpaceForever(s1, steps, t);
  }

  lemma CreatedSpace(s: State, space: nat)
    requires Inv(s) && Live(s)
    ensures var s' := Apply(s, DoCreate(space));
            |s.tasks| < |s'.tasks| && s'.tasks[|s.tasks|].space == space
  {
    CreatedIsFound(s, space);
  }

  /**
   A task started with task_run begins, at its first dispatch after any number of any steps, at its
   code, with its stack, its argument and the segments of its mode, in its own address space.
   */
  lemma StartsWhereTold(s: State, t: nat, code: nat, stack: nat, steps: seq<Step>)
    requires Inv(s) && t < |s.tasks| && s.tasks[t].status == Created && steps != []
    requires var start := DoRun(t, code, Some(stack));
             && (forall k :: 0 <= k < |steps| ==> Run(s, [start] + steps[..k]).current != Some(t))
             && Run(s, [start] + steps).current == Some(t)
    ensures var r := Run(s, [DoRun(t, code, Some(stack))] + steps);
            && r.cpu.Some? && StartsAt(r.cpu.value, code, stack, s.tasks[t].kernel, s.tasks[t].userdata)
            && r.cr3 == Some(s.tasks[t].space)
  {
    hide Inv, Apply, Run, StartsAt;
    var start := DoRun(t, code, Some(stack));
    RunOne(s, start);
    var s1, n := Run(s, [start]), |steps| - 1;
    StartSaves(s, t, code, stack);
    RunSplit(s, [start], steps);
    forall k | 0 <= k <= n ensures Run(s1, steps[..k]).current != Some(t) {
      RunSplit(s, [start], steps[..k]);
    }
    assert forall k :: 0 <= k < n ==> steps[..n][..k] == steps[..k];
    WaitingKeepsContext(s1, steps[..n], t);
    SpaceForever(s1, steps[..n], t);
    var r := Run(s1, steps[..n]);
    ApplyKeeps(r, steps[n]);
    assert steps[..n] + [steps[n]] == steps;
    RunSnoc(s1, steps[..n], steps[n]);
    DispatchResumes(r, steps[n], t);
  }

  lemma StartSaves(s: State, t: nat, code: nat, stack: nat)
    requires Inv(s) && Live(s) && t < |s.tasks| && s.tasks[t].status == Created
    ensures var s' := Apply(s, DoRun(t, code, Some(stack)));
            && t < |s'.tasks| && s'.tasks[t].status != Created && s'.tasks[t].space == s.tasks[t].space
            && s'.tasks[t].native.Some?
            && StartsAt(s'.tasks[t].native.value, code, stack, s.tasks[t].kernel, s.tasks[t].userdata)
  {
    StartedIsLast(s, t, code, stack);
  }
}

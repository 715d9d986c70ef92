/**
 What every run of the system of tasks keeps: the ready queue holds exactly the other ready tasks, the
 active page tables are the running task's, destroyed tasks never run again, contexts survive
 untouched from preemption to resumption, and waiting in the queue is bounded.
 */
module TasksInvariant {
  import opened Machine
  import opened Tasks
  import I = IdMapper
  import L = LinkedList

  // ---------------------------------------------------------------- the invariant

  /** A task is ready exactly when it waits in the queue or runs; ready tasks have a context. */
  predicate Placed(s: State, t: nat)
    requires t < |s.tasks|
  {
    && (s.tasks[t].status == Ready <==> t in s.queue || s.current == Some(t))
    && (s.tasks[t].status == Ready ==> s.tasks[t].native.Some?)
    && (s.tasks[t].status == Created ==> s.tasks[t].native.None?)
  }

  /** The stored segments are the ones chosen at creation. */
  predicate Segments(task: Task) {
    task.native.Some? ==>
      task.native.value.cs == CodeSegment(task.kernel) && task.native.value.ss == StackSegment(task.kernel)
  }

  /** task_get finds a task by its id exactly while it is not destroyed. */
  predicate Registered(s: State, t: nat)
    requires t < |s.tasks|
  {
    && s.tasks[t].id == t + 1
    && I.Get(s.ids, t + 1) == if s.tasks[t].status == NotReady then None else Some(t)
  }

  ghost predicate IdsOk(s: State) {
    && s.next == |s.tasks| + 1
    && I.DistinctIds(s.ids)
    && (forall i :: 0 <= i < |s.ids| ==> 0 < s.ids[i].id < s.next)
    && (forall t :: 0 <= t < |s.tasks| ==> Registered(s, t))
  }

  ghost predicate QueueOk(s: State) {
    && Distinct(s.queue)
    && (forall k :: 0 <= k < |s.queue| ==> s.queue[k] < |s.tasks|)
    && (s.current.Some? ==> s.current.value < |s.tasks| && s.current.value !in s.queue)
    && (forall t :: 0 <= t < |s.tasks| ==> Placed(s, t) && Segments(s.tasks[t]))
  }

  ghost predicate Inv(s: State) {
    QueueOk(s) && IdsOk(s) && (s.current.Some? ==> s.cr3 == Some(s.tasks[s.current.value].space))
  }

  lemma InvLive(s: State)
    requires QueueOk(s)
    ensures Live(s)
  {
    forall k | 0 <= k < |s.queue| ensures s.tasks[s.queue[k]].native.Some? {
      assert s.queue[k] in s.queue;
      assert Placed(s, s.queue[k]);
    }
    assert s.current.Some? ==> Placed(s, s.current.value);
  }

  // ---------------------------------------------------------------- the queue

  lemma {:induction false} RemoveFirstExact(q: seq<nat>, t: nat)
    requires Distinct(q)
    ensures Distinct(L.RemoveFirst(q, t)) && t !in L.RemoveFirst(q, t)
    ensures forall u :: u != t ==> (u in L.RemoveFirst(q, t) <==> u in q)
    ensures t !in q ==> L.RemoveFirst(q, t) == q
    decreases |q|
  {
    if q != [] {
      RemoveFirstExact(q[1..], t);
      assert q == [q[0]] + q[1..];
      if q[0] != t {
        assert q[0] !in q[1..];
      }
    }
  }

  lemma DropFirst(q: seq<nat>)
    requires q != [] && Distinct(q)
    ensures Distinct(q[1..]) && q[0] !in q[1..] && forall u :: u in q <==> u == q[0] || u in q[1..]
  {
    assert q == [q[0]] + q[1..];
  }

  // ---------------------------------------------------------------- each operation keeps it

  lemma CreateKeeps(s: State, space: nat)
    requires Inv(s)
    ensures Inv(Create(s, space))
  {
    var s' := Create(s, space);
    var n := |s.tasks|;
    forall t | 0 <= t < |s'.tasks| ensures Placed(s', t) && Segments(s'.tasks[t]) {
      if t < n { assert Placed(s, t) && Segments(s.tasks[t]); }
    }
    forall t | 0 <= t < |s'.tasks| ensures Registered(s', t) {
      I.GetAfterAdd(s.ids, s.next, n, t + 1);
      if t < n { assert Registered(s, t); }
    }
  }

  lemma SetKernelModeKeeps(s: State, t: nat)
    requires Inv(s) && t < |s.tasks|
    ensures Inv(SetKernelMode(s, t))
  {
    var s' := SetKernelMode(s, t);
    forall u | 0 <= u < |s'.tasks| ensures Placed(s', u) && Segments(s'.tasks[u]) && Registered(s', u) {
      assert Placed(s, u) && Segments(s.tasks[u]) && Registered(s, u);
    }
    if s.current.Some? { assert Placed(s, s.current.value); }
  }

  lemma SetArgumentsKeeps(s: State, t: nat, data: Option<nat>)
    requires Inv(s) && t < |s.tasks|
    ensures Inv(SetArguments(s, t, data))
  {
    var s' := SetArguments(s, t, data);
    forall u | 0 <= u < |s'.tasks| ensures Placed(s', u) && Segments(s'.tasks[u]) && Registered(s', u) {
      assert Placed(s, u) && Segments(s.tasks[u]) && Registered(s, u);
    }
  }

  lemma RunTaskKeeps(s: State, t: nat, code: nat, stack: Option<nat>)
    requires Inv(s) && t < |s.tasks|
    ensures Inv(RunTask(s, t, code, stack))
  {
    var s' := RunTask(s, t, code, stack);
    assert Placed(s, t);
    forall u | 0 <= u < |s'.tasks| ensures Placed(s', u) && Segments(s'.tasks[u]) && Registered(s', u) {
      assert Placed(s, u) && Segments(s.tasks[u]) && Registered(s, u);
    }
  }

  lemma DestroyKeepsQueue(s: State, t: nat)
    requires QueueOk(s) && t < |s.tasks|
    ensures QueueOk(Destroy(s, t))
  {
    var s' := Destroy(s, t);
    RemoveFirstExact(s.queue, t);
    forall u | 0 <= u < |s'.tasks| ensures Placed(s', u) && Segments(s'.tasks[u]) {
      assert Placed(s, u) && Segments(s.tasks[u]);
    }
    forall k | 0 <= k < |s'.queue| ensures s'.queue[k] < |s'.tasks| {
      RemoveFirstIn(s.queue, t, k);
    }
  }

  lemma DestroyKeepsIds(s: State, t: nat)
    requires IdsOk(s) && t < |s.tasks| && (s.current.Some? ==> s.current.value < |s.tasks|)
    ensures IdsOk(Destroy(s, t))
  {
    var s' := Destroy(s, t);
    assert Registered(s, t);
    forall u | 0 <= u < |s'.tasks| ensures Registered(s', u) {
      assert Registered(s, u);
      I.GetAfterDel(s.ids, t + 1, u + 1);
    }
    I.GetAfterDel(s.ids, t + 1, 0);
    forall i | 0 <= i < |s'.ids| ensures 0 < s'.ids[i].id < s'.next {
      assert s'.ids[i] in s.ids;
    }
  }

  lemma DestroyKeeps(s: State, t: nat)
    requires Inv(s) && t < |s.tasks|
    ensures Inv(Destroy(s, t))
  {
    hide QueueOk, IdsOk;
    InvCurrent(s);
    DestroyKeepsQueue(s, t);
    DestroyKeepsIds(s, t);
  }

  lemma InvCurrent(s: State)
    requires QueueOk(s)
    ensures s.current.Some? ==> s.current.value < |s.tasks|
  {
  }

  lemma SaveKeeps(s: State, frame: Regs)
    requires Inv(s) && Live(s)
    ensures Inv(Save(s, frame)) && Live(Save(s, frame))
  {
    var s' := Save(s, frame);
    forall u | 0 <= u < |s'.tasks| ensures Placed(s', u) && Segments(s'.tasks[u]) && Registered(s', u) {
      assert Placed(s, u) && Segments(s.tasks[u]) && Registered(s, u);
    }
  }

  lemma SwitchKeeps(s: State)
    requires Inv(s) && Live(s)
    ensures Inv(Switch(s))
  {
    var s' := Switch(s);
    if s.current.Some? { assert Placed(s, s.current.value); }
    if s.queue != [] {
      DropFirst(s.queue);
      assert s.queue[0] in s.queue;
      assert Placed(s, s.queue[0]);
    }
    forall u | 0 <= u < |s'.tasks| ensures Placed(s', u) && Segments(s'.tasks[u]) && Registered(s', u) {
      assert Placed(s, u) && Segments(s.tasks[u]) && Registered(s, u);
    }
  }

  lemma ReturnKeeps(s: State, frame: Regs, result: nat)
    requires Inv(s) && Live(s)
    ensures Inv(ReturnFromSyscall(s, frame, result))
  {
    var s' := ReturnFromSyscall(s, frame, result);
    forall u | 0 <= u < |s'.tasks| ensures Placed(s', u) && Segments(s'.tasks[u]) && Registered(s', u) {
      assert Placed(s, u) && Segments(s.tasks[u]) && Registered(s, u);
    }
  }

  lemma CpuKeeps(s: State, cpu: Option<Regs>)
    requires Inv(s)
    ensures Inv(s.(cpu := cpu))
  {
    var s' := s.(cpu := cpu);
    forall u | 0 <= u < |s'.tasks| ensures Placed(s', u) && Segments(s'.tasks[u]) && Registered(s', u) {
      assert Placed(s, u) && Segments(s.tasks[u]) && Registered(s, u);
    }
  }

  lemma SwitchAfterDestroyKeeps(s: State)
    requires Inv(s) && Live(s)
    ensures Inv(SwitchAfterDestroy(s))
  {
    RemovedFromQueue(s);
    if s.current.Some? { DestroyKeeps(s, s.current.value); }
    SwitchKeeps(DestroyCurrent(s));
  }

  lemma ApplyKeeps(s: State, step: Step)
    requires Inv(s)
    ensures Live(s) && Inv(Apply(s, step))
  {
    hide Inv, Destroy, RunTask, Switch, Save;
    InvQueue(s);
    InvLive(s);
    match step
    case DoCreate(space) => CreateKeeps(s, space);
    case DoSetKernelMode(t) => if t < |s.tasks| { SetKernelModeKeeps(s, t); }
    case DoSetArguments(t, data) => if t < |s.tasks| { SetArgumentsKeeps(s, t, data); }
    case DoRun(t, code, stack) => if t < |s.tasks| { RunTaskKeeps(s, t, code, stack); }
    case DoDestroy(t) => if t < |s.tasks| { DestroyKeeps(s, t); }
    case Tick(frame) => SaveKeeps(s, frame); SwitchKeeps(Save(s, frame));
    case Fault => SwitchAfterDestroyKeeps(s);
    case Exit(frame, fast) => SaveKeeps(s, frame); SwitchAfterDestroyKeeps(if fast then Save(s, frame) else s);
    case IntSyscall(frame, result) => CpuKeeps(s, Some(frame.(rax := result)));
    case FastSyscall(frame, result) => SaveKeeps(s, frame); ReturnKeeps(Save(s, frame), frame, result);
    case OtherInterrupt(frame) => SaveKeeps(s, frame); SwitchKeeps(Save(s, frame));
  }

  lemma InvQueue(s: State)
    requires Inv(s)
    ensures QueueOk(s)
  {
  }

  // ---------------------------------------------------------------- whole runs

  ghost function Run(s: State, steps: seq<Step>): (r: State)
    requires Inv(s)
    ensures Inv(r)
    decreases |steps|
  {
    if steps == [] then s
    else
      var before := Run(s, steps[..|steps| - 1]);
      ApplyKeeps(before, steps[|steps| - 1]);
      Apply(before, steps[|steps| - 1])
  }

  lemma InitialOk()
    ensures Inv(Initial())
  {
  }

  /**
   After every run from boot on: the queue holds no task twice, a task is ready exactly when it waits
   there or runs, never both, the active page tables are the running task's, and an id leads to its
   task exactly while that is not destroyed.
   */
  lemma EveryRunFromBoot(steps: seq<Step>)
    ensures Inv(Initial())
    ensures var r := Run(Initial(), steps);
            && Distinct(r.queue)
            && (r.current.Some? ==> r.current.value < |r.tasks| && r.current.value !in r.queue)
            && (r.current.Some? ==> r.cr3 == Some(r.tasks[r.current.value].space))
            && forall t :: 0 <= t < |r.tasks| ==>
                 && (r.tasks[t].status == Ready <==> t in r.queue || r.current == Some(t))
                 && TaskGet(r, r.tasks[t].id) == if r.tasks[t].status == NotReady then None else Some(t)
  {
    InitialOk();
    var r := Run(Initial(), steps);
    forall t | 0 <= t < |r.tasks|
      ensures r.tasks[t].status == Ready <==> t in r.queue || r.current == Some(t)
      ensures TaskGet(r, r.tasks[t].id) == if r.tasks[t].status == NotReady then None else Some(t)
    {
      assert Placed(r, t) && Registered(r, t);
    }
  }

  // ---------------------------------------------------------------- what a caller can rely on

  /**
   A new task is in the address space it was created for, in user mode and without arguments. It is
   found by its id, does not run and does not wait, and every other id leads where it did.
   */
  lemma CreatedIsFound(s: State, space: nat)
    requires Inv(s)
    ensures var (s', t) := (Create(s, space), |s.tasks|);
            && Inv(s') && t !in s'.queue && s'.current != Some(t) && s.tasks == s'.tasks[..t]
            && s'.tasks[t].space == space && !s'.tasks[t].kernel && s'.tasks[t].userdata == 0
            && s'.tasks[t].status == Created && s'.tasks[t].native == None
            && forall id :: TaskGet(s', id) == if id == s'.tasks[t].id then Some(t) else TaskGet(s, id)
  {
    CreateKeeps(s, space);
    forall id ensures TaskGet(Create(s, space), id) == if id == s.next then Some(|s.tasks|) else TaskGet(s, id) {
      I.GetAfterAdd(s.ids, s.next, |s.tasks|, id);
    }
    forall k | 0 <= k < |s.queue| ensures s.queue[k] != |s.tasks| {
    }
  }

  /**
   The context of a task that has not run yet: at its code, with an empty stack, its argument in rdi,
   interrupts enabled, the segments of its mode, and zero everywhere else.
   */
  predicate StartsAt(regs: Regs, code: nat, stack: nat, kernel: bool, userdata: nat) {
    && regs.codeptr == code && regs.stackptr == stack && regs.rbp == stack && regs.rdi == userdata
    && regs.eflags == 0x202 && regs.cs == (if kernel then 0x10 else 0x33) && regs.ss == (if kernel then 0x20 else 0x43)
    && regs.r15 == regs.r14 == regs.r13 == regs.r12 == regs.rbx == regs.r11 == regs.r10 == regs.r9 == regs.r8 == 0
    && regs.rax == regs.rcx == regs.rdx == regs.rsi == regs.origRax == 0
  }

  /** A started task waits behind all others, with its first context; nothing else about it changes. */
  lemma StartedIsLast(s: State, t: nat, code: nat, stack: nat)
    requires Inv(s) && t < |s.tasks| && s.tasks[t].status == Created
    ensures var s' := RunTask(s, t, code, Some(stack));
            && Inv(s') && s'.queue == s.queue + [t] && t !in s.queue && s'.current == s.current != Some(t)
            && s'.tasks[t] == s.tasks[t].(status := Ready, native := s'.tasks[t].native) && s'.tasks[t].native.Some?
            && StartsAt(s'.tasks[t].native.value, code, stack, s.tasks[t].kernel, s.tasks[t].userdata)
            && forall u :: 0 <= u < |s.tasks| && u != t ==> s'.tasks[u] == s.tasks[u]
  {
    RunTaskKeeps(s, t, code, Some(stack));
    assert Placed(s, t);
  }

  /** A destroyed task does not run, does not wait and is not found; the others keep their order, and their ids. */
  lemma DestroyedIsGone(s: State, t: nat)
    requires Inv(s) && t < |s.tasks|
    ensures s.current.Some? ==> s.current.value < |s.tasks|
    ensures var s' := Destroy(s, t);
            && Inv(s') && t !in s'.queue && s'.current == (if s.current == Some(t) then None else s.current)
            && (forall id :: TaskGet(s', id) == if id == s.tasks[t].id then None else TaskGet(s, id))
            && s'.queue == L.RemoveFirst(s.queue, t) && |s'.tasks| == |s.tasks|
            && forall u :: 0 <= u < |s.tasks| && u != t ==> s'.tasks[u] == s.tasks[u]
  {
    InvCurrent(s);
    DestroyKeeps(s, t);
    RemoveFirstExact(s.queue, t);
    assert Registered(s, t);
    forall id ensures TaskGet(Destroy(s, t), id) == if id == t + 1 then None else TaskGet(s, id) {
      I.GetAfterDel(s.ids, t + 1, id);
    }
  }

  /**
   Every step that switches dispatches the head of the queue, with its saved context and its page
   tables, or lets the processor sleep when nobody waits.
   */
  lemma SwitchOutcome(s: State, step: Step)
    requires Inv(s) && Switches(step)
    ensures Live(s) && Inv(Apply(s, step))
    ensures var s' := Apply(s, step);
            if s.queue == [] then s'.current == None && s'.cpu == None
            else
              && s'.current == Some(s.queue[0]) && s.queue[0] < |s.tasks|
              && s'.cpu == s.tasks[s.queue[0]].native && s'.cr3 == Some(s.tasks[s.queue[0]].space)
  {
    hide Inv, L.RemoveFirst, I.Del;
    ApplyKeeps(s, step);
    QueueHead(s);
    match step
    case Tick(frame) => SaveKeeps(s, frame); SwitchOutcomeFrom(s, Save(s, frame));
    case OtherInterrupt(frame) => SaveKeeps(s, frame); SwitchOutcomeFrom(s, Save(s, frame));
    case Fault => DestroyCurrentKeepsQueue(s); SwitchOutcomeFrom(s, DestroyCurrent(s));
    case Exit(frame, fast) =>
      SaveKeeps(s, frame);
      var s1 := if fast then Save(s, frame) else s;
      DestroyCurrentKeepsQueue(s1);
      SwitchOutcomeFrom(s, DestroyCurrent(s1));
  }

  lemma QueueHead(s: State)
    requires Inv(s)
    ensures s.queue != [] ==> s.queue[0] < |s.tasks| && s.current != Some(s.queue[0])
  {
    assert s.queue != [] ==> s.queue[0] in s.queue;
  }

  lemma SwitchOutcomeFrom(s: State, s1: State)
    requires Live(s1) && s1.queue == s.queue && |s1.tasks| == |s.tasks|
    requires s.queue != [] ==> s.queue[0] < |s.tasks| && s.current != Some(s.queue[0]) && s1.current != Some(s.queue[0])
    requires s.queue != [] ==> s1.tasks[s.queue[0]].native == s.tasks[s.queue[0]].native
    requires s.queue != [] ==> s1.tasks[s.queue[0]].space == s.tasks[s.queue[0]].space
    ensures var s' := Switch(s1);
            if s.queue == [] then s'.current == None && s'.cpu == None
            else
              && s'.current == Some(s.queue[0])
              && s'.cpu == s.tasks[s.queue[0]].native && s'.cr3 == Some(s.tasks[s.queue[0]].space)
  {
  }

  /** An interrupt puts the running task behind all others, with the frame it was interrupted with. */
  lemma InterruptedIsLast(s: State, step: Step, frame: Regs, t: nat)
    requires Inv(s) && s.current == Some(t) && Preempts(step, frame)
    ensures Live(s) && t < |s.tasks|
    ensures var s' := Apply(s, step);
            && s'.queue == (if s.queue == [] then [] else s.queue[1..]) + [t]
            && s'.tasks == s.tasks[t := s.tasks[t].(native := Some(Resumed(frame, s.tasks[t].kernel)))]
  {
    InvLive(s);
    assert Placed(s, t) && Segments(s.tasks[t]);
    assert s.queue != [] ==> s.queue[0] in s.queue;
  }

  /** A fault or an exit destroys the running task. */
  lemma KilledIsGone(s: State, step: Step, t: nat)
    requires Inv(s) && s.current == Some(t) && (step.Fault? || step.Exit?)
    ensures Live(s) && t < |s.tasks|
    ensures var s' := Apply(s, step);
            t !in s'.queue && s'.current != Some(t) && TaskGet(s', s.tasks[t].id) == None
  {
    hide Inv, L.RemoveFirst, I.Del, Switch;
    ApplyKeeps(s, step);
    InvQueue(s);
    InvCurrent(s);
    var s1 := s;
    if step.Exit? && step.fast {
      s1 := Save(s, step.frame);
      SaveKeeps(s, step.frame);
    }
    DestroyedIsGone(s1, t);
    var s2 := Destroy(s1, t);
    assert s1.tasks[t].id == s.tasks[t].id && TaskGet(s2, s.tasks[t].id) == None;
    InvQueue(s2);
    InvLive(s2);
    SwitchKeepsGone(s2, t);
  }

  lemma SwitchKeepsGone(s: State, t: nat)
    requires Live(s) && t !in s.queue && s.current != Some(t)
    ensures t !in Switch(s).queue && Switch(s).current != Some(t) && Switch(s).ids == s.ids
  {
    if s.queue != [] {
      assert s.queue[0] in s.queue;
    }
  }

  /** The interrupts that save the frame of the running task and switch. */
  predicate Preempts(step: Step, frame: Regs) {
    step == Tick(frame) || step == OtherInterrupt(frame)
  }

  /** The frame a task resumes with: the one saved, with the segments of its creation. */
  function Resumed(frame: Regs, kernel: bool): Regs {
    frame.(cs := CodeSegment(kernel), ss := StackSegment(kernel))
  }

  /** In every state of the invariant, task_get finds a task exactly if a task with that id is not destroyed. */
  lemma TaskGetExact(s: State, id: nat)
    requires Inv(s)
    ensures match TaskGet(s, id)
            case Some(t) => t < |s.tasks| && s.tasks[t].id == id && s.tasks[t].status != NotReady
            case None => forall t :: 0 <= t < |s.tasks| && s.tasks[t].id == id ==> s.tasks[t].status == NotReady
  {
    if TaskGet(s, id).Some? {
      var i := I.GetFound(s.ids, id);
      assert Registered(s, id - 1);
    } else {
      forall t | 0 <= t < |s.tasks| && s.tasks[t].id == id ensures s.tasks[t].status == NotReady {
        assert Registered(s, t);
      }
    }
  }

  /** Run a step after a run: the last step of the longer run. */
  lemma RunSnoc(s: State, steps: seq<Step>, step: Step)
    requires Inv(s)
    ensures Live(Run(s, steps)) && Run(s, steps + [step]) == Apply(Run(s, steps), step)
  {
    assert (steps + [step])[..|steps|] == steps;
    ApplyKeeps(Run(s, steps), step);
  }

  lemma {:induction false} RunSplit(s: State, xs: seq<Step>, ys: seq<Step>)
    requires Inv(s)
    ensures Run(s, xs + ys) == Run(Run(s, xs), ys)
    decreases |ys|
  {
    if ys == [] {
      assert xs + ys == xs;
    } else {
      var n := |ys| - 1;
      assert (xs + ys)[..|xs + ys| - 1] == xs + ys[..n];
      RunSplit(s, xs, ys[..n]);
    }
  }

  // ---------------------------------------------------------------- destroyed tasks

  lemma ApplyKeepsDestroyed(s: State, step: Step, t: nat)
    requires Inv(s) && Live(s) && t < |s.tasks| && s.tasks[t].status == NotReady
    ensures t < |Apply(s, step).tasks| && Apply(s, step).tasks[t].status == NotReady
  {
    hide Inv, Switch, Save, L.RemoveFirst, I.Del;
  }

  /** A destroyed task is never dispatched again, nor found again, whatever happens. */
  lemma {:induction false} DestroyedForever(s: State, steps: seq<Step>, t: nat)
    requires Inv(s) && t < |s.tasks| && s.tasks[t].status == NotReady
    ensures var r := Run(s, steps);
            && t < |r.tasks| && r.tasks[t].status == NotReady
            && r.current != Some(t) && t !in r.queue && TaskGet(r, t + 1) == None
    decreases |steps|
  {
    if steps != [] {
      var n := |steps| - 1;
      DestroyedForever(s, steps[..n], t);
      ApplyKeeps(Run(s, steps[..n]), steps[n]);
      ApplyKeepsDestroyed(Run(s, steps[..n]), steps[n], t);
    }
    assert Placed(Run(s, steps), t) && Registered(Run(s, steps), t);
  }

  // ---------------------------------------------------------------- contexts

  /** A step leaves the context of every task alone that is not running and not being started. */
  lemma ContextKept(s: State, step: Step, t: nat)
    requires Inv(s) && Live(s) && t < |s.tasks| && s.current != Some(t) && s.tasks[t].status != Created
    ensures t < |Apply(s, step).tasks| && Apply(s, step).tasks[t].native == s.tasks[t].native
    ensures Apply(s, step).tasks[t].kernel == s.tasks[t].kernel && Apply(s, step).tasks[t].status != Created
  {
    hide Inv, L.RemoveFirst, I.Del;
    match step
    case Tick(_) =>
    case OtherInterrupt(_) =>
    case Fault =>
    case Exit(_, fast) => if fast { } else { }
    case _ =>
  }

  /** Dispatching a task that was not running resumes exactly its saved context, with its own page tables. */
  lemma DispatchResumes(s: State, step: Step, t: nat)
    requires Inv(s) && Live(s) && t < |s.tasks| && s.current != Some(t) && Apply(s, step).current == Some(t)
    ensures Apply(s, step).cpu == s.tasks[t].native && s.tasks[t].native.Some? && s.tasks[t].status == Ready
    ensures Apply(s, step).cr3 == Some(s.tasks[t].space)
  {
    hide Inv, L.RemoveFirst, I.Del;
    match step
    case Tick(frame) => SaveKeeps(s, frame); SwitchDispatches(Save(s, frame), t);
    case OtherInterrupt(frame) => SaveKeeps(s, frame); SwitchDispatches(Save(s, frame), t);
    case Fault => DestroyCurrentKeepsQueue(s); SwitchDispatches(DestroyCurrent(s), t);
    case Exit(frame, fast) =>
      SaveKeeps(s, frame);
      DestroyCurrentKeepsQueue(if fast then Save(s, frame) else s);
      SwitchDispatches(DestroyCurrent(if fast then Save(s, frame) else s), t);
    case _ =>
  }

  lemma SwitchDispatches(s: State, t: nat)
    requires Inv(s) && Live(s) && t < |s.tasks| && s.current != Some(t) && Switch(s).current == Some(t)
    ensures s.tasks[t].status == Ready && s.tasks[t].native.Some?
    ensures Switch(s).cpu == s.tasks[t].native && Switch(s).cr3 == Some(s.tasks[t].space)
  {
    assert s.queue[0] in s.queue;
    assert Placed(s, t);
  }

  /** While a task is not dispatched, its context stays as it is. */
  lemma {:induction false} WaitingKeepsContext(s: State, steps: seq<Step>, t: nat)
    requires Inv(s) && t < |s.tasks| && s.tasks[t].status != Created
    requires forall k :: 0 <= k < |steps| ==> Run(s, steps[..k]).current != Some(t)
    ensures var r := Run(s, steps);
            t < |r.tasks| && r.tasks[t].native == s.tasks[t].native && r.tasks[t].status != Created
    decreases |steps|
  {
    hide Inv, Apply;
    if steps != [] {
      var n := |steps| - 1;
      assert forall k :: 0 <= k < n ==> steps[..n][..k] == steps[..k];
      WaitingKeepsContext(s, steps[..n], t);
      ApplyKeeps(Run(s, steps[..n]), steps[n]);
      ContextKept(Run(s, steps[..n]), steps[n], t);
    }
  }

  /**
   A task interrupted with some frame, by the timer or by any other interrupt that switches, resumes,
   when it is next dispatched after any number of any steps, with exactly that frame; only the
   segments are the ones of its creation.
   */
  lemma PreemptedTaskResumes(s: State, step: Step, frame: Regs, steps: seq<Step>, t: nat)
    requires Inv(s) && s.current == Some(t) && Preempts(step, frame) && steps != []
    requires forall k :: 0 <= k < |steps| ==> Run(s, [step] + steps[..k]).current != Some(t)
    requires Run(s, [step] + steps).current == Some(t)
    ensures t < |s.tasks| && Run(s, [step] + steps).cpu == Some(Resumed(frame, s.tasks[t].kernel))
  {
    hide Inv, Apply, Run;
    var s1 := Run(s, [step]);
    PreemptSaves(s, step, frame, t);
    RunSplit(s, [step], steps);
    var n := |steps| - 1;
    forall k | 0 <= k <= n ensures Run(s1, steps[..k]).current != Some(t) {
      RunSplit(s, [step], steps[..k]);
    }
    assert forall k :: 0 <= k < n ==> steps[..n][..k] == steps[..k];
    WaitingKeepsContext(s1, steps[..n], t);
    var r := Run(s1, steps[..n]);
    ApplyKeeps(r, steps[n]);
    assert steps[..n] + [steps[n]] == steps;
    RunSnoc(s1, steps[..n], steps[n]);
    DispatchResumes(r, steps[n], t);
  }

  /** The interrupt stores the frame as the context of the running task. */
  lemma PreemptSaves(s: State, step: Step, frame: Regs, t: nat)
    requires Inv(s) && s.current == Some(t) && Preempts(step, frame)
    ensures t < |s.tasks| && Live(s) && Run(s, [step]) == Apply(s, step)
    ensures var s1 := Run(s, [step]);
            && t < |s1.tasks| && s1.tasks[t].status != Created
            && s1.tasks[t].native == Some(Resumed(frame, s.tasks[t].kernel))
  {
    hide Run;
    RunSnoc(s, [], step);
    assert [] + [step] == [step] && Run(s, []) == s by { RunNothing(s); }
    InterruptedIsLast(s, step, frame, t);
    assert Placed(s, t);
  }

  lemma RunNothing(s: State)
    requires Inv(s)
    ensures Run(s, []) == s
  {
  }

  /**
   A fast system call returns to the frame it came from; only rax and, for a running task, the segments
   can differ.
   */
  lemma SyscallReturns(s: State, frame: Regs, result: nat)
    requires Inv(s) && Live(s)
    ensures var s' := Apply(s, FastSyscall(frame, result));
            && s'.current == s.current && s'.queue == s.queue && s'.cr3 == s.cr3
            && (s.current.None? ==> s' == s.(cpu := Some(frame.(rax := result))))
            && (s.current.Some? ==>
                  var t := s.current.value;
                  && s'.cpu == Some(Resumed(frame.(rax := result), s.tasks[t].kernel))
                  && s'.tasks == s.tasks[t := s.tasks[t].(native := s'.cpu)])
  {
    assert s.current.Some? ==> Segments(s.tasks[s.current.value]);
  }

  // ---------------------------------------------------------------- bounded waiting

  function SwitchCount(steps: seq<Step>): nat {
    if steps == [] then 0 else (if Switches(steps[0]) then 1 else 0) + SwitchCount(steps[1..])
  }

  /** The number of switches up to and including the one that dispatches t. */
  ghost function FirstDispatch(s: State, steps: seq<Step>, t: nat): Option<nat>
    requires Inv(s)
    decreases |steps|
  {
    if steps == [] then None
    else
      ApplyKeeps(s, steps[0]);
      var s1 := Apply(s, steps[0]);
      if Switches(steps[0]) && s1.current == Some(t) then Some(1)
      else
        var later := FirstDispatch(s1, steps[1..], t);
        if later.None? then None else Some(later.value + if Switches(steps[0]) then 1 else 0)
  }

  lemma {:induction false} RemoveBefore(q: seq<nat>, u: nat, k: nat) returns (j: nat)
    requires Distinct(q) && k < |q| && q[k] != u
    ensures j < |L.RemoveFirst(q, u)| && L.RemoveFirst(q, u)[j] == q[k]
    ensures j == if u in q[..k] then k - 1 else k
    decreases |q|
  {
    if q[0] == u {
      j := k - 1;
      assert q[..k][0] == u;
    } else if k == 0 {
      j := 0;
    } else {
      j := RemoveBefore(q[1..], u, k - 1);
      j := j + 1;
      assert q[..k] == [q[0]] + q[1..][..k - 1];
    }
  }

  /** A switch moves every waiting task one place up; the first one is dispatched. */
  lemma SwitchAdvances(s: State, k: nat)
    requires Live(s) && QueueOk(s) && k < |s.queue|
    ensures k == 0 ==> Switch(s).current == Some(s.queue[0])
    ensures k > 0 ==> k - 1 < |Switch(s).queue| && Switch(s).queue[k - 1] == s.queue[k]
    ensures k > 0 ==> Switch(s).queue[..k - 1] == s.queue[1..k]
  {
  }

  /** Faults and exits take the running task out, which is not in the queue. */
  lemma DestroyCurrentKeepsQueue(s: State)
    requires Inv(s) && Live(s)
    ensures DestroyCurrent(s).queue == s.queue && Inv(DestroyCurrent(s)) && Live(DestroyCurrent(s))
  {
    RemovedFromQueue(s);
    if s.current.Some? {
      RemoveFirstExact(s.queue, s.current.value);
      DestroyKeeps(s, s.current.value);
    }
  }

  /** How one step moves a waiting task. */
  lemma PositionStep(s: State, step: Step, t: nat, k: nat) returns (j: nat)
    requires Inv(s) && Live(s) && k < |s.queue| && s.queue[k] == t && step != DoDestroy(t)
    requires !(Switches(step) && k == 0)
    ensures var q := Apply(s, step).queue;
            && j < |q| && q[j] == t
            && (if Switches(step) then j == k - 1
                else if step.DoDestroy? && step.t in s.queue[..k] then j == k - 1 else j == k)
            && (step.DoDestroy? ==> step.t !in s.queue[..k] ==> q[..j] == s.queue[..k])
            && (!step.DoDestroy? ==> q[..j] == if Switches(step) then s.queue[1..k] else s.queue[..k])
  {
    hide IdsOk, Switch, Save, Destroy;
    match step
    case Tick(frame) => SaveKeeps(s, frame); SwitchAdvances(Save(s, frame), k); j := k - 1;
    case OtherInterrupt(frame) => SaveKeeps(s, frame); SwitchAdvances(Save(s, frame), k); j := k - 1;
    case Fault => DestroyCurrentKeepsQueue(s); SwitchAdvances(DestroyCurrent(s), k); j := k - 1;
    case Exit(frame, fast) =>
      SaveKeeps(s, frame);
      var s1 := if fast then Save(s, frame) else s;
      DestroyCurrentKeepsQueue(s1);
      SwitchAdvances(DestroyCurrent(s1), k);
      j := k - 1;
    case DoDestroy(u) =>
      if u < |s.tasks| {
        j := PositionDestroy(s, u, k);
      } else {
        j := k;
        QueueInRange(s, u, k);
      }
    case _ => j := k;
  }

  lemma QueueInRange(s: State, u: nat, k: nat)
    requires QueueOk(s) && u >= |s.tasks| && k <= |s.queue|
    ensures u !in s.queue[..k]
  {
  }

  lemma PositionDestroy(s: State, u: nat, k: nat) returns (j: nat)
    requires QueueOk(s) && u < |s.tasks| && k < |s.queue| && s.queue[k] != u
    ensures var q := Destroy(s, u).queue;
            && j < |q| && q[j] == s.queue[k] && j == (if u in s.queue[..k] then k - 1 else k)
            && (u !in s.queue[..k] ==> q[..j] == s.queue[..k])
  {
    assert Destroy(s, u).queue == L.RemoveFirst(s.queue, u);
    j := RemoveBefore(s.queue, u, k);
    if u !in s.queue[..k] { RemovePrefix(s.queue, u, k); }
  }

  lemma {:induction false} RemovePrefix(q: seq<nat>, u: nat, k: nat)
    requires k <= |q| && u !in q[..k]
    ensures k <= |L.RemoveFirst(q, u)| && L.RemoveFirst(q, u)[..k] == q[..k]
    decreases |q|
  {
    if k > 0 {
      assert q[..k] == [q[0]] + q[1..][..k - 1];
      RemovePrefix(q[1..], u, k - 1);
    }
  }

  lemma DispatchedAtFront(s: State, step: Step, t: nat)
    requires Inv(s) && Live(s) && s.queue != [] && s.queue[0] == t && Switches(step)
    ensures Apply(s, step).current == Some(t)
  {
    hide IdsOk;
    match step
    case Tick(frame) => SaveKeeps(s, frame); SwitchAdvances(Save(s, frame), 0);
    case OtherInterrupt(frame) => SaveKeeps(s, frame); SwitchAdvances(Save(s, frame), 0);
    case Fault => DestroyCurrentKeepsQueue(s); SwitchAdvances(DestroyCurrent(s), 0);
    case Exit(frame, fast) =>
      SaveKeeps(s, frame);
      var s1 := if fast then Save(s, frame) else s;
      DestroyCurrentKeepsQueue(s1);
      SwitchAdvances(DestroyCurrent(s1), 0);
  }

  /** No step destroys a task of the given set. */
  predicate Spares(steps: seq<Step>, ts: seq<nat>) {
    forall i :: 0 <= i < |steps| && steps[i].DoDestroy? ==> steps[i].t !in ts
  }

  /**
   A task at position k of the queue is dispatched within k + 1 switches, whatever is created, run,
   or destroyed meanwhile, and exactly at the (k+1)-th when nothing ahead of it is destroyed.
   */
  lemma {:induction false} BoundedWaiting(s: State, steps: seq<Step>, t: nat, k: nat)
    requires Inv(s) && k < |s.queue| && s.queue[k] == t
    requires Spares(steps, [t]) && SwitchCount(steps) >= k + 1
    ensures FirstDispatch(s, steps, t).Some? && 1 <= FirstDispatch(s, steps, t).value <= k + 1
    ensures Spares(steps, s.queue[..k]) ==> FirstDispatch(s, steps, t).value == k + 1
    decreases |steps|
  {
    hide Inv;
    ApplyKeeps(s, steps[0]);
    assert steps[0] != DoDestroy(t) by { assert t in [t]; }
    if Switches(steps[0]) && k == 0 {
      DispatchedAtFront(s, steps[0], t);
    } else {
      var j := PositionStep(s, steps[0], t, k);
      var s1 := Apply(s, steps[0]);
      NotDispatchedYet(s, steps[0], t, j);
      assert forall i :: 0 <= i < |steps[1..]| ==> steps[1..][i] == steps[i + 1];
      BoundedWaiting(s1, steps[1..], t, j);
      if Spares(steps, s.queue[..k]) {
        assert forall u :: u in s1.queue[..j] ==> u in s.queue[..k];
      }
    }
  }

  lemma NotDispatchedYet(s: State, step: Step, t: nat, j: nat)
    requires Inv(s) && Live(s) && j < |Apply(s, step).queue| && Apply(s, step).queue[j] == t
    ensures Apply(s, step).current != Some(t)
  {
    ApplyKeeps(s, step);
    InvQueue(Apply(s, step));
    assert Apply(s, step).queue[j] in Apply(s, step).queue;
  }
}

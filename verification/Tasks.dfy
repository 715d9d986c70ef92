/**
 Tasks, the ready queue and context switches, as a system of steps: whatever order of creations,
 runs, timer ticks, system calls, faults and destructions the kernel goes through.

 Tasks are named by the order of their creation; an address space stands for its page tables, so
 `cr3` names the address space whose tables are active.
 */
module Tasks {
  import opened Machine
  import I = IdMapper
  import L = LinkedList

  // ---------------------------------------------------------------- data

  /** native_task_t */
  datatype Regs = Regs(
    r15: nat, r14: nat, r13: nat, r12: nat, rbp: nat, rbx: nat,
    r11: nat, r10: nat, r9: nat, r8: nat, rax: nat, rcx: nat, rdx: nat, rsi: nat, rdi: nat,
    origRax: nat, codeptr: nat, cs: nat, eflags: nat, stackptr: nat, ss: nat)

  datatype Status = Created | Ready | NotReady

  /** task_t */
  datatype Task = Task(id: nat, kernel: bool, userdata: nat, status: Status, native: Option<Regs>, space: nat)

  /** `cpu` is the context the processor was last resumed with, or nothing while it sleeps. */
  datatype State = State(tasks: seq<Task>, ids: seq<I.Entry>, next: nat,
                         queue: seq<nat>, current: Option<nat>, cr3: Option<nat>, cpu: Option<Regs>)

  function Initial(): State {
    State([], [], 1, [], None, None, None)
  }

  // GDT_SEGMENT(entry) is 16 * entry; the requested ring is added to it.
  const KERNEL_CS: nat := 16
  const KERNEL_DS: nat := 32
  const USER_CS: nat := 48 + 3
  const USER_DS: nat := 64 + 3
  const INITIAL_EFLAGS: nat := 0x202

  function CodeSegment(kernel: bool): nat { if kernel then KERNEL_CS else USER_CS }

  function StackSegment(kernel: bool): nat { if kernel then KERNEL_DS else USER_DS }

  /** The zero-filled context native_task_create fills in. */
  function FirstContext(code: nat, stack: nat, kernel: bool, userdata: nat): Regs {
    Regs(0, 0, 0, 0, stack, 0, 0, 0, 0, 0, 0, 0, 0, 0, userdata, 0, code, CodeSegment(kernel), INITIAL_EFLAGS, stack,
         StackSegment(kernel))
  }

  predicate Live(s: State) {
    && (s.current.Some? ==> s.current.value < |s.tasks| && s.tasks[s.current.value].native.Some?)
    && (forall k :: 0 <= k < |s.queue| ==> s.queue[k] < |s.tasks| && s.tasks[s.queue[k]].native.Some?)
  }

  // ---------------------------------------------------------------- scheduler

  /** scheduler_clear_current_task */
  function ClearCurrent(s: State): (r: State)
    requires s.current.Some? ==> s.current.value < |s.tasks|
    ensures r.current == None && r.tasks == s.tasks && r.ids == s.ids && r.next == s.next
  {
    if s.current.None? then s
    else if s.tasks[s.current.value].status == Ready then s.(queue := s.queue + [s.current.value], current := None)
    else s.(current := None)
  }

  /** scheduler_task_not_ready */
  function TaskNotReady(s: State, t: nat): State
    requires t < |s.tasks| && (s.current.Some? ==> s.current.value < |s.tasks|)
  {
    var s1 := s.(tasks := s.tasks[t := s.tasks[t].(status := NotReady)], queue := L.RemoveFirst(s.queue, t));
    if s.current == Some(t) then ClearCurrent(s1) else s1
  }

  /** scheduler_task_ready */
  function TaskReady(s: State, t: nat): State
    requires t < |s.tasks|
  {
    s.(tasks := s.tasks[t := s.tasks[t].(status := Ready)], queue := s.queue + [t])
  }

  /** scheduler_switch_task, up to the instruction that resumes a task or sleeps. */
  function Switch(s: State): (r: State)
    requires Live(s)
    ensures r.tasks == s.tasks && r.ids == s.ids && r.next == s.next
  {
    if s.queue == [] then
      ClearCurrent(s).(cpu := None)
    else
      var next := s.queue[0];
      var s1 := s.(queue := s.queue[1..]);
      var s2 := if s1.current != Some(next) then ClearCurrent(s1).(cr3 := Some(s.tasks[next].space)) else s1;
      s2.(current := Some(next), cpu := s.tasks[next].native)
  }

  // ---------------------------------------------------------------- tasks

  /**
   task_create. The value the id mapper keeps stands for the pointer to the new task_t, which is never
   null, and is written here as its number.
   */
  function Create(s: State, space: nat): State {
    s.(tasks := s.tasks + [Task(s.next, false, 0, Created, None, space)],
       ids := s.ids + [I.Entry(s.next, |s.tasks|)], next := s.next + 1)
  }

  /** task_get */
  function TaskGet(s: State, id: nat): Option<nat> {
    I.Get(s.ids, id)
  }

  /** task_set_kernel_mode */
  function SetKernelMode(s: State, t: nat): State
    requires t < |s.tasks|
  {
    if s.tasks[t].status != Created then s else s.(tasks := s.tasks[t := s.tasks[t].(kernel := true)])
  }

  /**
   task_set_arguments: at most once, and before the task is started, it is given the address its
   arguments were copied to, or nothing when there was no memory for them.
   */
  function SetArguments(s: State, t: nat, data: Option<nat>): State
    requires t < |s.tasks|
  {
    if s.tasks[t].status != Created || s.tasks[t].userdata != 0 || data.None? then s
    else s.(tasks := s.tasks[t := s.tasks[t].(userdata := data.value)])
  }

  /** task_run with the top of the stack region, or nothing when that region could not be created. */
  function RunTask(s: State, t: nat, code: nat, stack: Option<nat>): State
    requires t < |s.tasks|
  {
    if s.tasks[t].status != Created || stack.None? then s
    else
      var task := s.tasks[t];
      var native := FirstContext(code, stack.value, task.kernel, task.userdata);
      TaskReady(s.(tasks := s.tasks[t := task.(native := Some(native))]), t)
  }

  /** task_destroy */
  function Destroy(s: State, t: nat): State
    requires t < |s.tasks| && (s.current.Some? ==> s.current.value < |s.tasks|)
  {
    var s1 := TaskNotReady(s, t);
    s1.(ids := I.Del(s1.ids, s.tasks[t].id))
  }

  // ---------------------------------------------------------------- events

  /** hal_update_current_state: the frame is saved with the segments chosen at creation. */
  function Save(s: State, frame: Regs): (r: State)
    requires Live(s)
    ensures r == s.(tasks := r.tasks) && |r.tasks| == |s.tasks|
    ensures forall u :: 0 <= u < |s.tasks| ==> r.tasks[u] == s.tasks[u].(native := r.tasks[u].native)
  {
    if s.current.None? then s
    else
      var t := s.current.value;
      var saved := frame.(cs := s.tasks[t].native.value.cs, ss := s.tasks[t].native.value.ss);
      s.(tasks := s.tasks[t := s.tasks[t].(native := Some(saved))])
  }

  function DestroyCurrent(s: State): State
    requires Live(s)
  {
    if s.current.None? then s else Destroy(s, s.current.value)
  }

  datatype Step =
    | DoCreate(space: nat)
    | DoSetKernelMode(t: nat)
    | DoSetArguments(t: nat, data: Option<nat>)
    | DoRun(t: nat, code: nat, stack: Option<nat>)
    | DoDestroy(t: nat)
    | Tick(frame: Regs)                          // timer interrupt
    | Fault                                      // protection fault, page fault, invalid opcode
    | Exit(frame: Regs, fast: bool)              // exit system call, by SYSCALL or by interrupt
    | IntSyscall(frame: Regs, result: nat)       // any other system call by interrupt
    | FastSyscall(frame: Regs, result: nat)      // any other system call by SYSCALL
    | OtherInterrupt(frame: Regs)

  /** Whether the step ends in scheduler_switch_task. */
  predicate Switches(step: Step) {
    step.Tick? || step.Fault? || step.Exit? || step.OtherInterrupt?
  }

  function Apply(s: State, step: Step): State
    requires Live(s)
  {
    match step
    case DoCreate(space) => Create(s, space)
    case DoSetKernelMode(t) => if t < |s.tasks| then SetKernelMode(s, t) else s
    case DoSetArguments(t, data) => if t < |s.tasks| then SetArguments(s, t, data) else s
    case DoRun(t, code, stack) => if t < |s.tasks| then RunTask(s, t, code, stack) else s
    case DoDestroy(t) => if t < |s.tasks| then Destroy(s, t) else s
    case Tick(frame) => Switch(Save(s, frame))
    case Fault => SwitchAfterDestroy(s)
    case Exit(frame, fast) => SwitchAfterDestroy(if fast then Save(s, frame) else s)
    case IntSyscall(frame, result) => s.(cpu := Some(frame.(rax := result)))
    case FastSyscall(frame, result) => ReturnFromSyscall(Save(s, frame), frame, result)
    case OtherInterrupt(frame) => Switch(Save(s, frame))
  }

  function SwitchAfterDestroy(s: State): State
    requires Live(s)
  {
    RemovedFromQueue(s);
    Switch(DestroyCurrent(s))
  }

  /** pre_syscall on the saved context, which is then resumed. */
  function ReturnFromSyscall(s: State, frame: Regs, result: nat): State
    requires Live(s)
  {
    if s.current.None? then s.(cpu := Some(frame.(rax := result)))
    else
      var t := s.current.value;
      var native := s.tasks[t].native.value.(rax := result);
      s.(tasks := s.tasks[t := s.tasks[t].(native := Some(native))], cpu := Some(native))
  }

  lemma {:induction false} RemoveFirstIn(q: seq<nat>, t: nat, k: nat)
    requires k < |L.RemoveFirst(q, t)|
    ensures L.RemoveFirst(q, t)[k] in q
    decreases |q|
  {
    if q != [] && q[0] != t && k > 0 { RemoveFirstIn(q[1..], t, k - 1); }
  }

  lemma RemovedFromQueue(s: State)
    requires Live(s)
    ensures Live(DestroyCurrent(s))
  {
    if s.current.Some? {
      var t := s.current.value;
      var s' := DestroyCurrent(s);
      forall k | 0 <= k < |s'.queue| ensures s'.queue[k] < |s'.tasks| && s'.tasks[s'.queue[k]].native.Some? {
        RemoveFirstIn(s.queue, t, k);
      }
    }
  }
}

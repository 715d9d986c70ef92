/**
 The scheduler, task and interrupt code in its own form: the table of tasks, the ready queue, the
 current task and the registers are fields that the operations update one after the other.
 */
module TaskService {
  import opened Machine
  import opened Tasks
  import opened TasksInvariant
  import I = IdMapper
  import L = LinkedList

  class Kernel {
    var tasks: seq<Task>
    var ids: seq<I.Entry>
    var next: nat
    var queue: seq<nat>
    var current: Option<nat>
    var cr3: Option<nat>
    var cpu: Option<Regs>

    function View(): State
      reads this
    {
      State(tasks, ids, next, queue, current, cr3, cpu)
    }

    constructor ()
      ensures View() == Initial() && Inv(View())
    {
      tasks, ids, next := [], [], 1;
      queue, current, cr3, cpu := [], None, None, None;
      InitialOk();
    }

    // ------------------------------------------------------------ scheduler/services.c

    method SchedulerClearCurrentTask()
      requires current.Some? ==> current.value < |tasks|
      modifies this`queue, this`current
      ensures View() == ClearCurrent(old(View()))
    {
      if current.Some? {
        if tasks[current.value].status == Ready {
          queue := queue + [current.value];
        }
        current := None;
      }
    }

    method SchedulerTaskNotReady(t: nat)
      requires t < |tasks| && (current.Some? ==> current.value < |tasks|)
      modifies this
      ensures View() == TaskNotReady(old(View()), t)
    {
      tasks := tasks[t := tasks[t].(status := NotReady)];
      queue := L.RemoveFirst(queue, t);
      if current == Some(t) {
        SchedulerClearCurrentTask();
      }
    }

    method SchedulerTaskReady(t: nat)
      requires t < |tasks|
      modifies this`tasks, this`queue
      ensures View() == TaskReady(old(View()), t)
    {
      tasks := tasks[t := tasks[t].(status := Ready)];
      queue := queue + [t];
    }

    method SchedulerSwitchTask()
      requires Live(View())
      modifies this
      ensures View() == Switch(old(View()))
    {
      if queue != [] {
        var nextTask := queue[0];
        queue := queue[1..];
        if current != Some(nextTask) {
          SchedulerClearCurrentTask();
          cr3 := Some(tasks[nextTask].space);
        }
        current := Some(nextTask);
        cpu := tasks[nextTask].native;
      } else {
        SchedulerClearCurrentTask();
        cpu := None;
      }
    }

    // ------------------------------------------------------------ task/services.c

    /** task_create: a new task that its id leads to; nothing else changes for anybody. */
    method TaskCreate(space: nat) returns (t: nat)
      requires Inv(View())
      modifies this
      ensures Inv(View()) && View() == Create(old(View()), space)
      ensures t == old(|tasks|) && tasks[..t] == old(tasks) && t !in queue && current != Some(t)
      ensures tasks[t].space == space && !tasks[t].kernel && tasks[t].userdata == 0 && tasks[t].status == Created
      ensures forall id :: TaskGet(View(), id) == if id == tasks[t].id then Some(t) else TaskGet(old(View()), id)
    {
      t := |tasks|;
      hide Inv;
      CreatedIsFound(View(), space);
      var id := next;
      next := next + 1;
      tasks := tasks + [Task(id, false, 0, Created, None, space)];
      ids := ids + [I.Entry(id, t)];
    }

    /** task_set_kernel_mode */
    method TaskSetKernelMode(t: nat) returns (ok: bool)
      requires Inv(View()) && t < |tasks|
      modifies this`tasks
      ensures Inv(View()) && View() == SetKernelMode(old(View()), t)
      ensures ok <==> old(tasks)[t].status == Created
      ensures ok ==> tasks == old(tasks)[t := old(tasks)[t].(kernel := true)]
    {
      SetKernelModeKeeps(View(), t);
      if tasks[t].status != Created {
        return false;
      }
      tasks := tasks[t := tasks[t].(kernel := true)];
      return true;
    }

    /** task_set_arguments, with the address the arguments are copied to if there is a region for them. */
    method TaskSetArguments(t: nat, data: Option<nat>) returns (ok: bool)
      requires Inv(View()) && t < |tasks|
      modifies this`tasks
      ensures Inv(View()) && View() == SetArguments(old(View()), t, data)
      ensures ok <==> old(tasks)[t].status == Created && old(tasks)[t].userdata == 0 && data.Some?
      ensures ok ==> tasks == old(tasks)[t := old(tasks)[t].(userdata := data.value)]
    {
      SetArgumentsKeeps(View(), t, data);
      if tasks[t].status != Created || tasks[t].userdata != 0 {
        return false;
      }
      if data.None? {
        return false;
      }
      tasks := tasks[t := tasks[t].(userdata := data.value)];
      return true;
    }

    /** task_run: a task is started once, behind all others, with a fresh context of its own mode. */
    method TaskRun(t: nat, code: nat, stack: Option<nat>) returns (ok: bool)
      requires Inv(View()) && t < |tasks|
      modifies this`tasks, this`queue
      ensures Inv(View()) && View() == RunTask(old(View()), t, code, stack)
      ensures ok <==> old(tasks)[t].status == Created && stack.Some?
      ensures !ok ==> View() == old(View())
      ensures ok ==> queue == old(queue) + [t] && t !in old(queue) && tasks[t].status == Ready
      ensures ok ==> tasks[t] == old(tasks)[t].(status := Ready, native := tasks[t].native) && tasks[t].native.Some?
      ensures ok ==> StartsAt(tasks[t].native.value, code, stack.value, tasks[t].kernel, tasks[t].userdata)
    {
      if tasks[t].status != Created || stack.None? {
        return false;
      }
      StartedIsLast(View(), t, code, stack.value);
      var native := FirstContext(code, stack.value, tasks[t].kernel, tasks[t].userdata);
      tasks := tasks[t := tasks[t].(native := Some(native))];
      SchedulerTaskReady(t);
      return true;
    }

    /** task_destroy: it is gone from queue, processor and id table; the others stay as they are. */
    method TaskDestroy(t: nat)
      requires Inv(View()) && t < |tasks|
      modifies this
      ensures Inv(View()) && View() == Destroy(old(View()), t)
      ensures t !in queue && current != Some(t)
      ensures forall id :: TaskGet(View(), id) == if id == old(tasks)[t].id then None else TaskGet(old(View()), id)
      ensures forall u :: 0 <= u < |tasks| && u != t ==> tasks[u] == old(tasks)[u]
    {
      hide Inv, L.RemoveFirst, I.Del;
      DestroyedIsGone(View(), t);
      SchedulerTaskNotReady(t);
      ids := I.Del(ids, tasks[t].id);
    }

    // ------------------------------------------------------------ native_task.c, idt.c, hw_events.c

    method UpdateCurrentState(frame: Regs)
      requires Live(View())
      modifies this`tasks
      ensures View() == Save(old(View()), frame)
    {
      if current.Some? {
        var t := current.value;
        var native := tasks[t].native.value;
        tasks := tasks[t := tasks[t].(native := Some(frame.(cs := native.cs, ss := native.ss)))];
      }
    }

    method KillCurrentAndSwitch()
      requires Inv(View()) && Live(View())
      modifies this
      ensures View() == SwitchAfterDestroy(old(View()))
    {
      RemovedFromQueue(View());
      if current.Some? {
        TaskDestroy(current.value);
      }
      SchedulerSwitchTask();
    }

    /**
     interrupt_handler and syscall_jumper: one event taken by the kernel. An event that switches
     resumes the head of the queue with its own context and page tables, or sleeps. The interrupted
     task waits behind all others with its frame; a faulting or exiting one is gone. A system call
     returns its result to its caller.
     */
    method HandleEvent(event: Step)
      requires Inv(View())
      requires !event.DoCreate? && !event.DoSetKernelMode? && !event.DoSetArguments?
      requires !event.DoRun? && !event.DoDestroy?
      modifies this
      ensures Live(old(View())) && View() == Apply(old(View()), event) && Inv(View())
      ensures Switches(event) && old(queue) == [] ==> current == None && cpu == None
      ensures Switches(event) && old(queue) != [] ==>
                var t := old(queue)[0];
                && t < old(|tasks|) && current == Some(t)
                && cpu == old(tasks)[t].native && cr3 == Some(old(tasks)[t].space)
      ensures forall frame :: old(current).Some? && Preempts(event, frame) ==>
                var t := old(current).value;
                && t < old(|tasks|) && t in queue && t < |tasks|
                && tasks[t].native == Some(Resumed(frame, old(tasks)[t].kernel))
      ensures old(current).Some? && (event.Fault? || event.Exit?) ==>
                var t := old(current).value;
                t < old(|tasks|) && t !in queue && current != Some(t) && TaskGet(View(), old(tasks)[t].id) == None
      ensures forall frame, result :: event == IntSyscall(frame, result) ==>
                && cpu == Some(frame.(rax := result)) && tasks == old(tasks)
                && queue == old(queue) && current == old(current) && cr3 == old(cr3)
    {
      hide Inv, Switch, SwitchAfterDestroy, ReturnFromSyscall;
      ApplyKeeps(View(), event);
      EventOutcome(View(), event);
      match event
      case Tick(frame) =>
        SaveKeeps(View(), frame);
        if current.Some? {
          UpdateCurrentState(frame);
        }
        SchedulerSwitchTask();
      case Fault =>
        KillCurrentAndSwitch();
      case Exit(frame, fast) =>
        SaveKeeps(View(), frame);
        if fast {
          UpdateCurrentState(frame);
        }
        KillCurrentAndSwitch();
      case IntSyscall(frame, result) =>
        cpu := Some(frame.(rax := result));
      case FastSyscall(frame, result) =>
        SaveKeeps(View(), frame);
        UpdateCurrentState(frame);
        ReturnToCaller(frame, result);
      case OtherInterrupt(frame) =>
        SaveKeeps(View(), frame);
        UpdateCurrentState(frame);
        SchedulerSwitchTask();
    }

    /** pre_syscall and the resumption behind it */
    method ReturnToCaller(frame: Regs, result: nat)
      requires Live(View())
      modifies this`tasks, this`cpu
      ensures View() == ReturnFromSyscall(old(View()), frame, result)
    {
      if current.Some? {
        var t := current.value;
        var native := tasks[t].native.value.(rax := result);
        tasks := tasks[t := tasks[t].(native := Some(native))];
        cpu := Some(native);
      } else {
        cpu := Some(frame.(rax := result));
      }
    }
  }

  lemma EventOutcome(s: State, event: Step)
    requires Inv(s)
    ensures Live(s)
    ensures var s' := Apply(s, event);
            && (Switches(event) && s.queue == [] ==> s'.current == None && s'.cpu == None)
            && (Switches(event) && s.queue != [] ==>
                  var t := s.queue[0];
                  && t < |s.tasks| && s'.current == Some(t)
                  && s'.cpu == s.tasks[t].native && s'.cr3 == Some(s.tasks[t].space))
            && (forall frame :: s.current.Some? && Preempts(event, frame) ==>
                  var t := s.current.value;
                  && t < |s.tasks| && t in s'.queue && t < |s'.tasks|
                  && s'.tasks[t].native == Some(Resumed(frame, s.tasks[t].kernel)))
            && (s.current.Some? && (event.Fault? || event.Exit?) ==>
                  var t := s.current.value;
                  t < |s.tasks| && t !in s'.queue && s'.current != Some(t) && TaskGet(s', s.tasks[t].id) == None)
  {
    hide Inv, Apply;
    ApplyKeeps(s, event);
    if Switches(event) {
      SwitchOutcome(s, event);
      if s.current.Some? {
        forall frame | Preempts(event, frame) { InterruptedIsLast(s, event, frame, s.current.value); }
        if event.Fault? || event.Exit? {
          KilledIsGone(s, event, s.current.value);
        }
      }
    }
  }
}

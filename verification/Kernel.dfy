/** sched/sched.c and kernel/syscall.c over the task table in place.  Each method does what the step
    of the same name in Tasks says. */
module Kernel {
  import opened Common
  import opened Tasks

  // The error codes of common.h; callers see the numbers

  const ENOMEM: int := 2
  const EINVAL: int := 3
  const ECHILD: int := 4

  class TaskTable {
    const tasks: array<Task>
    var timer: nat
    var current: Option<nat>
    var inUse: InUse
    var next: nat
    ghost var cont: seq<Cont>
    ghost var phase: Phase
    ghost var spaces: set<nat>
    ghost var stacks: set<nat>
    ghost var leaked: set<nat>

    ghost function S(): State
      reads this, tasks
    {
      State(tasks[..], cont, phase, timer, inUse, spaces, stacks, leaked, next)
    }

    ghost predicate Valid()
      reads this, tasks
    {
      Shaped(S()) && current == if phase.Running? then Some(phase.slot) else None
    }

    /** The first task in an otherwise empty table, and the scheduler at its first slot. */
    constructor (now: nat)
      ensures Valid() && S() == Initial(now) && fresh(tasks)
    {
      var free := Task(0, 0, 0, NotAllocated, 0, 0, 0, 0, 0);
      var first := Task(1, 0, 0, Runnable, 0, 0, 0, 0, 0);
      tasks := new Task[MAX_TASK_COUNT](i => if i == 1 then first else free);
      timer, current, inUse, next := now, None, OfScheduler, 1;
      cont, phase := seq(MAX_TASK_COUNT, _ => User), Scanning(0);
      spaces, stacks, leaked := {0}, {0}, {};
      new;
      assert tasks[..] == Initial(now).tasks;
    }

    /** sched_switch_to up to the change of context */
    method SwitchTo(i: nat)
      requires Valid() && phase == Scanning(i)
      modifies this, tasks
      ensures Valid()
      ensures S() == old(S()).(tasks := old(tasks[..])[i := old(tasks[i]).(deadline := old(timer) + PREEMPT_TICKS)],
                                          phase := Running(i), inUse := OfTask(old(tasks[i]).space))
    {
      current := Some(i);
      tasks[i] := tasks[i].(deadline := timer + PREEMPT_TICKS);
      inUse := OfTask(tasks[i].space);
      phase := Running(i);
    }

    /** The body of the loop of sched_start, up to the switch. */
    method ScanSlot(i: nat) returns (found: bool)
      requires Valid() && phase == Scanning(i)
      modifies this, tasks
      ensures Valid() && S() == Scan(old(S())) && found == phase.Running?
      ensures found <==>
        old(tasks[i].state).Runnable? || (old(tasks[i].state).Sleeping? && old(timer) >= old(tasks[i].sleepUntil))
    {
      if tasks[i].state.Sleeping? && timer >= tasks[i].sleepUntil {
        tasks[i] := tasks[i].(state := Runnable);
      }
      if tasks[i].state.Runnable? {
        SwitchTo(i);
        return true;
      }
      phase := Scanning(Advance(i));
      return false;
    }

    /** The rest of the body. */
    method ComeBack(i: nat)
      requires Valid() && phase == Back(i)
      modifies this
      ensures Valid() && S() == Clean(old(S()))
    {
      if tasks[i].state.Zombie? {
        inUse := OfScheduler;
        spaces := spaces - {tasks[i].space};
        stacks := stacks - {tasks[i].stack};
      }
      phase := Scanning(Advance(i));
    }

    /** sched_switch */
    method Switch()
      requires Valid() && phase.Running?
      modifies this
      ensures Valid() && S() == old(S()).(phase := Back(old(phase).slot))
    {
      current := None;
      phase := Back(phase.slot);
    }

    /** sched_timer_tick */
    method TimerTick()
      requires Valid()
      modifies this
      ensures Valid() && S() == AfterTick(old(S())) && timer == old(timer) + 1
    {
      timer := timer + 1;
      if current.None? {
        return;
      }
      if tasks[current.value].deadline >= timer {
        Switch();
      }
    }

    /** sched_allocate_task.  Past the end of the table the loop reads whatever lies there; the
        result does not depend on it. */
    method AllocateTask(beyond: TaskState) returns (slot: Option<nat>)
      requires Valid()
      modifies tasks
      ensures Valid() && slot == FirstFree(old(tasks[..]), 1)
      ensures slot.Some? ==>
        && slot.value < tasks.Length
        && tasks[..] == old(tasks[..])[slot.value := old(tasks[..])[slot.value].(pid := slot.value)]
      ensures slot.None? ==> tasks[..] == old(tasks[..])
    {
      var pid := 1;
      while !(if pid < MAX_TASK_COUNT then tasks[pid].state else beyond).NotAllocated? && pid < MAX_TASK_COUNT
        invariant 1 <= pid <= MAX_TASK_COUNT && tasks[..] == old(tasks[..])
        invariant FirstFree(tasks[..], 1) == FirstFree(tasks[..], pid)
      {
        pid := pid + 1;
      }
      if pid == MAX_TASK_COUNT {
        return None;
      }
      tasks[pid] := tasks[pid].(pid := pid);
      return Some(pid);
    }

    /** sys_sleep */
    method SysSleep(ms: nat)
      requires Valid() && phase.Running?
      modifies this, tasks
      ensures Valid() && S() == AfterSleep(old(S()), ms)
      ensures var t := tasks[phase.slot]; t.state.Sleeping? && t.sleepUntil == timer + ms / 10
    {
      var i := current.value;
      tasks[i] := tasks[i].(sleepUntil := timer + ms / SCHED_TIMER_PERIOD);
      tasks[i] := tasks[i].(state := Sleeping);
      Switch();
    }

    /** A new address space, or kernel stack, for slot `c`. */
    method GiveSpace(c: nat, leak: bool)
      requires Valid() && c < tasks.Length
      modifies this`next, this`spaces, this`leaked, tasks
      ensures Valid() && S() == old(S()).(tasks := old(tasks[..])[c := old(tasks[..])[c].(space := old(next))],
        spaces := old(spaces) + {old(next)}, leaked := if leak then old(leaked) + {old(next)} else old(leaked),
        next := old(next) + 1)
    {
      tasks[c] := tasks[c].(space := next);
      spaces := spaces + {next};
      if leak {
        leaked := leaked + {next};
      }
      next := next + 1;
    }

    /** The end of a fork that succeeds: the child has a kernel stack, a parent, and is runnable. */
    method FinishFork(c: nat, parent: nat)
      requires Valid() && c < tasks.Length && parent < tasks.Length
      modifies this`stacks, this`cont, tasks
      ensures Valid() && S() == old(S()).(
        tasks := old(tasks[..])[c := old(tasks[..])[c].(
          stack := old(tasks[..])[c].space, ppid := old(tasks[..])[parent].pid, state := Runnable)],
        cont := old(cont)[c := User], stacks := old(stacks) + {old(tasks[..])[c].space})
    {
      tasks[c] := tasks[c].(stack := tasks[c].space);
      stacks := stacks + {tasks[c].space};
      tasks[c] := tasks[c].(ppid := tasks[parent].pid);
      tasks[c] := tasks[c].(state := Runnable);
      cont := cont[c := User];
    }

    /** sys_fork.  Without a free slot it goes on with NULL.  The caller gets the number of its new child,
        or an error if there is none. */
    method SysFork(fate: ForkFate, beyond: TaskState) returns (crashed: bool, ret: int)
      requires Valid() && phase.Running?
      modifies this, tasks
      ensures crashed == AfterFork(old(S()), fate).Crash?
      ensures !crashed ==> Valid() && AfterFork(old(S()), fate) == Next(S())
      ensures !crashed ==> (ret == -2 <==> !fate.AllDone?)
      ensures !crashed && ret != -2 ==>
        && 1 <= ret < MAX_TASK_COUNT && old(tasks[ret]).state.NotAllocated? && tasks[ret].state.Runnable?
        && tasks[ret].pid == ret && current == old(current) && tasks[ret].ppid == tasks[current.value].pid
    {
      var parent := current.value;
      ghost var s := S();
      FreeSlot(s.tasks, 1);
      var child := AllocateTask(beyond);
      if child.None? {
        return true, 0;
      }
      var c := child.value;
      ret := -ENOMEM;
      match fate {
        case NoPml4 =>
        case NoSpace => GiveSpace(c, true);
        case NoStack => GiveSpace(c, true);
        case AllDone =>
          GiveSpace(c, false);
          FinishFork(c, parent);
          ret := tasks[c].pid;
      }
      assert S() == Forked(s, fate, c);
      crashed := false;
    }

    /** sys_exit up to the switch, from which it does not come back. */
    method SysExit(code: nat) returns (crashed: bool)
      requires Valid() && phase.Running?
      modifies this, tasks
      ensures crashed == AfterExit(old(S()), code).Crash?
      ensures !crashed ==> Valid() && AfterExit(old(S()), code) == Next(S())
      ensures !crashed ==> phase.Back? && tasks[phase.slot].exitcode == ToInt(code)
    {
      var i := current.value;
      tasks[i] := tasks[i].(exitcode := ToInt(code));
      tasks[i] := tasks[i].(state := Zombie);
      var p := tasks[i].ppid;
      if p >= tasks.Length {
        return true;
      }
      if tasks[p].state.Waiting? && tasks[p].waitPid == tasks[i].pid {
        tasks[p] := tasks[p].(state := Runnable);
      }
      Switch();
      return false;
    }

    /** sys_wait up to the switch if it has to wait, and to its end otherwise.  Without a return value
        the caller waits; `stored` is what is written at the status address. */
    method SysWait(child: nat, status: Status) returns (crashed: bool, ret: Option<int>, stored: Option<int>)
      requires Valid() && phase.Running?
      modifies this, tasks
      ensures crashed == AfterWait(old(S()), child, status).Crash?
      ensures !crashed ==> Valid() && AfterWait(old(S()), child, status) == Next(S())
      ensures !crashed ==> child < tasks.Length
      ensures !crashed ==> (ret == Some(-4) <==> old(tasks[child]).ppid != old(tasks[current.value]).pid)
      ensures !crashed && ret != Some(-4) ==> (ret.None? <==> !old(tasks[child]).state.Zombie?)
      ensures !crashed && ret.Some? && ret != Some(-4) ==> ret == Some(if Writable(status) then 0 else -3)
      ensures !crashed ==> stored == if ret == Some(0) then Stored(old(S()), child, status) else None
    {
      var i := current.value;
      if child >= tasks.Length {
        return true, None, None;
      }
      if tasks[child].ppid != tasks[i].pid {
        return false, Some(-ECHILD), None;
      }
      if !tasks[child].state.Zombie? {
        tasks[i] := tasks[i].(state := Waiting);
        tasks[i] := tasks[i].(waitPid := child);
        cont := cont[i := InWait(child)];
        Switch();
        return false, None, None;
      }
      var end;
      end, stored := FinishWait(child, status);
      return false, Some(end), stored;
    }

    /** The end of sys_wait: 0 if the child is reaped, and an error if the status is refused. */
    method FinishWait(child: nat, status: Status) returns (ret: int, stored: Option<int>)
      requires Valid() && phase.Running? && child < tasks.Length
      modifies this, tasks
      ensures Valid() && S() == Reaped(old(S()), child, status) && ret == if Writable(status) then 0 else -3
      ensures stored == Stored(old(S()), child, status)
    {
      ret, stored := -EINVAL, None;
      cont := cont[phase.slot := User];
      match status {
        case Null =>
        case Unmapped =>
          return;
        case InArea(user, write) =>
          if !user && !write {
            return;
          }
          stored := Some(tasks[child].exitcode);
      }
      tasks[child] := tasks[child].(state := NotAllocated);
      ret := 0;
    }
  }
}

/** The task table and what one step of the kernel does to it (sched/sched.c, kernel/syscall.c).
    A system call runs without interruption up to its switch to the scheduler. */
module Tasks {
  import opened Common

  const MAX_TASK_COUNT: nat := 0x10000
  const PREEMPT_TICKS: nat := 10
  const SCHED_TIMER_PERIOD: nat := 10

  datatype TaskState = NotAllocated | Runnable | Waiting | Zombie | Sleeping

  /** `space` and `stack` name the address space and the kernel stack; a name is never used twice. */
  datatype Task = Task(pid: nat, ppid: nat, waitPid: nat, state: TaskState, deadline: nat, sleepUntil: nat,
                       exitcode: int, space: nat, stack: nat)

  /** Where a task goes on when it is dispatched: in its program, or inside sys_wait. */
  datatype Cont = User | InWait(child: nat)

  /** The scheduler looks at a slot, has switched to its task, or is back from it. */
  datatype Phase = Scanning(slot: nat) | Running(slot: nat) | Back(slot: nat)

  /** The address space in use: that of the scheduler or that of a task. */
  datatype InUse = OfScheduler | OfTask(space: nat)

  /** `spaces` and `stacks` are those that exist, `leaked` those of failed forks, and names from
      `next` on are new. */
  datatype State = State(tasks: seq<Task>, cont: seq<Cont>, phase: Phase, timer: nat, inUse: InUse,
                         spaces: set<nat>, stacks: set<nat>, leaked: set<nat>, next: nat)

  /** How far a fork gets: vmem_clone fails before or after it has a PML4, the kernel stack cannot
      be had, or all is well. */
  datatype ForkFate = NoPml4 | NoSpace | NoStack | AllDone

  /** The status argument of sys_wait: NULL, an address outside all areas, or one in an area. */
  datatype Status = Null | Unmapped | InArea(user: bool, write: bool)

  datatype Event =
    | Schedule
    | Tick
    | Sleep(ms: nat)
    | Fork(fate: ForkFate)
    | Exit(code: nat)
    | Wait(child: nat, status: Status)
    | Resume(status: Status)

  /** `Crash` is the use of a slot that does not exist. */
  datatype Outcome = Next(s: State) | Crash

  predicate Shaped(s: State) {
    |s.tasks| == MAX_TASK_COUNT == |s.cont| && s.phase.slot < MAX_TASK_COUNT
  }

  // ---- The scheduler

  function Advance(slot: nat): nat {
    if slot + 1 < MAX_TASK_COUNT then slot + 1 else 0
  }

  /** A sleeping task is runnable again if it is time. */
  function Woken(t: Task, timer: nat): Task {
    if t.state.Sleeping? && timer >= t.sleepUntil then t.(state := Runnable) else t
  }

  /** The body of the scan loop of sched_start up to the switch to a task. */
  function Scan(s: State): State
    requires Shaped(s) && s.phase.Scanning?
  {
    var i := s.phase.slot;
    var t := Woken(s.tasks[i], s.timer);
    if t.state.Runnable? then
      s.(tasks := s.tasks[i := t.(deadline := s.timer + PREEMPT_TICKS)], phase := Running(i), inUse := OfTask(t.space))
    else
      s.(tasks := s.tasks[i := t], phase := Scanning(Advance(i)))
  }

  /** The rest of the body: what is left of a zombie is freed. */
  function Clean(s: State): State
    requires Shaped(s) && s.phase.Back?
  {
    var i := s.phase.slot;
    var t := s.tasks[i];
    var s' := s.(phase := Scanning(Advance(i)));
    if t.state.Zombie?
    then s'.(inUse := OfScheduler, spaces := s.spaces - {t.space}, stacks := s.stacks - {t.stack})
    else s'
  }

  /** sched_timer_tick */
  function AfterTick(s: State): State
    requires Shaped(s)
  {
    var s' := s.(timer := s.timer + 1);
    if s.phase.Running? && s.tasks[s.phase.slot].deadline >= s'.timer then s'.(phase := Back(s.phase.slot)) else s'
  }

  // ---- System calls of the running task

  function SetTask(s: State, i: nat, t: Task): State
    requires i < |s.tasks|
  {
    s.(tasks := s.tasks[i := t])
  }

  function AfterSleep(s: State, ms: nat): State
    requires Shaped(s) && s.phase.Running?
  {
    var i := s.phase.slot;
    SetTask(s, i, s.tasks[i].(sleepUntil := s.timer + ms / SCHED_TIMER_PERIOD, state := Sleeping)).(phase := Back(i))
  }

  /** The first free slot from `i` on; slot 0 is never used. */
  function FirstFree(tasks: seq<Task>, i: nat): Option<nat>
    decreases |tasks| - i
  {
    if i >= |tasks| then None else if tasks[i].state.NotAllocated? then Some(i) else FirstFree(tasks, i + 1)
  }

  function AfterFork(s: State, fate: ForkFate): Outcome
    requires Shaped(s) && s.phase.Running?
  {
    match FirstFree(s.tasks, 1)
    case None => Crash
    case Some(c) => if c < |s.tasks| then Next(Forked(s, fate, c)) else Crash
  }

  function Forked(s: State, fate: ForkFate, c: nat): State
    requires Shaped(s) && s.phase.Running? && c < |s.tasks|
  {
    var t := s.tasks[c].(pid := c);
    match fate
    case NoPml4 => SetTask(s, c, t)
    case NoSpace =>
      SetTask(s, c, t.(space := s.next)).(
        spaces := s.spaces + {s.next}, leaked := s.leaked + {s.next}, next := s.next + 1)
    case NoStack =>
      SetTask(s, c, t.(space := s.next)).(
        spaces := s.spaces + {s.next}, leaked := s.leaked + {s.next}, next := s.next + 1)
    case AllDone =>
      SetTask(s, c, t.(
        space := s.next, stack := s.next, ppid := s.tasks[c := t][s.phase.slot].pid, state := Runnable)).(
        cont := s.cont[c := User], spaces := s.spaces + {s.next}, stacks := s.stacks + {s.next}, next := s.next + 1)
  }

  /** The parent's slot after the death of its child `pid`. */
  function Notified(parent: Task, pid: nat): Task {
    if parent.state.Waiting? && parent.waitPid == pid then parent.(state := Runnable) else parent
  }

  /** A 64-bit register stored as a 32-bit int. */
  function ToInt(word: nat): int {
    var low := word % 0x1_0000_0000;
    if low < 0x8000_0000 then low else low - 0x1_0000_0000
  }

  function AfterExit(s: State, code: nat): Outcome
    requires Shaped(s) && s.phase.Running?
  {
    var i := s.phase.slot;
    var tasks := s.tasks[i := s.tasks[i].(exitcode := ToInt(code), state := Zombie)];
    var p := tasks[i].ppid;
    if p >= |tasks| then Crash else Next(s.(tasks := tasks[p := Notified(tasks[p], tasks[i].pid)], phase := Back(i)))
  }

  /** The test of sys_wait on the status argument. */
  predicate Writable(status: Status) {
    status.Null? || (status.InArea? && (status.user || status.write))
  }

  /** The end of sys_wait: with a pointer it refuses the child stays a zombie. */
  function Reaped(s: State, child: nat, status: Status): State
    requires Shaped(s) && s.phase.Running? && child < |s.tasks|
  {
    var s' := s.(cont := s.cont[s.phase.slot := User]);
    if Writable(status) then SetTask(s', child, s'.tasks[child].(state := NotAllocated)) else s'
  }

  /** What the end of sys_wait stores at the status address, if there is one and it is accepted. */
  function Stored(s: State, child: nat, status: Status): Option<int>
    requires Shaped(s) && child < |s.tasks|
  {
    if status.InArea? && Writable(status) then Some(s.tasks[child].exitcode) else None
  }

  function AfterWait(s: State, child: nat, status: Status): Outcome
    requires Shaped(s) && s.phase.Running?
  {
    var i := s.phase.slot;
    if child >= |s.tasks| then Crash
    else if s.tasks[child].ppid != s.tasks[i].pid then Next(s)
    else if s.tasks[child].state.Zombie? then Next(Reaped(s, child, status))
    else Next(SetTask(s, i, s.tasks[i].(state := Waiting, waitPid := child)).(
      cont := s.cont[i := InWait(child)], phase := Back(i)))
  }

  // ---- Steps and runs

  /** A task that comes back from the switch in sys_wait does the rest of that call first. */
  predicate Enabled(s: State, e: Event)
    requires Shaped(s)
  {
    match e
    case Schedule => !s.phase.Running?
    case Tick => s.phase.Running? ==> s.cont[s.phase.slot].User?
    case Resume(_) => s.phase.Running? && s.cont[s.phase.slot].InWait? && s.cont[s.phase.slot].child < |s.tasks|
    case _ => s.phase.Running? && s.cont[s.phase.slot].User?
  }

  function Step(s: State, e: Event): Outcome
    requires Shaped(s) && Enabled(s, e)
  {
    match e
    case Schedule => Next(if s.phase.Scanning? then Scan(s) else Clean(s))
    case Tick => Next(AfterTick(s))
    case Sleep(ms) => Next(AfterSleep(s, ms))
    case Fork(fate) => AfterFork(s, fate)
    case Exit(code) => AfterExit(s, code)
    case Wait(child, status) => AfterWait(s, child, status)
    case Resume(status) => Next(Reaped(s, s.cont[s.phase.slot].child, status))
  }

  lemma StepShaped(s: State, e: Event)
    requires Shaped(s) && Enabled(s, e) && Step(s, e).Next?
    ensures Shaped(Step(s, e).s)
  {
  }

  /** The events can happen one after the other, without a crash. */
  predicate Possible(s: State, es: seq<Event>)
    requires Shaped(s)
    decreases |es|
  {
    || es == []
    || (Enabled(s, es[0]) && Step(s, es[0]).Next? && Shaped(Step(s, es[0]).s) && Possible(Step(s, es[0]).s, es[1..]))
  }

  function Run(s: State, es: seq<Event>): (s': State)
    requires Shaped(s) && Possible(s, es)
    ensures Shaped(s')
    decreases |es|
  {
    if es == [] then s else Run(Step(s, es[0]).s, es[1..])
  }

  /** sched_start after setup_init_task: the first task is in slot 1. */
  function Initial(timer: nat): (s: State)
    ensures Shaped(s)
  {
    var free := Task(0, 0, 0, NotAllocated, 0, 0, 0, 0, 0);
    var first := Task(1, 0, 0, Runnable, 0, 0, 0, 0, 0);
    State(seq(MAX_TASK_COUNT, i => if i == 1 then first else free), seq(MAX_TASK_COUNT, _ => User),
          Scanning(0), timer, OfScheduler, {0}, {0}, {}, 1)
  }

  lemma {:induction false} FreeSlot(tasks: seq<Task>, i: nat)
    ensures match FirstFree(tasks, i)
      case Some(c) =>
        && i <= c < |tasks| && tasks[c].state.NotAllocated?
        && forall j :: i <= j < c ==> !tasks[j].state.NotAllocated?
      case None => forall j :: i <= j < |tasks| ==> !tasks[j].state.NotAllocated?
    decreases |tasks| - i
  {
    if i < |tasks| && !tasks[i].state.NotAllocated? { FreeSlot(tasks, i + 1); }
  }
}

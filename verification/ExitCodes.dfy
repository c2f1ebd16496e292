/** The way of an exit code: from sys_exit over the zombie's slot to the parent (kernel/syscall.c). */
module ExitCodes {
  import opened Common
  import opened Tasks
  import opened TaskSafety
  import opened TaskTheorems

  /** A 32-bit number as a program passes it to a system call, sign-extended to 64 bits. */
  function Register(n: int): nat {
    n % 0x1_0000_0000_0000_0000
  }

  predicate IsInt(n: int) {
    -0x8000_0000 <= n < 0x8000_0000
  }

  lemma ExitCodeStored(s: State, n: int)
    requires Inv(s) && IsInt(n) && Enabled(s, Exit(Register(n)))
    ensures Step(s, Exit(Register(n))).Next?
    ensures var s', c := Step(s, Exit(Register(n))).s, s.phase.slot;
      Shaped(s') && s'.phase == Back(c) &&
      s'.tasks[c] == s.tasks[c].(state := Zombie, exitcode := n)
  {
    StepKeeps(s, Exit(Register(n)));
    assert SlotOk(s, s.phase.slot);
  }

  /** The event is the end of a call of sys_wait in which the zombie `c` is reaped: its parent makes
      the call, or comes back into it, with a status argument that is accepted. */
  predicate Reaps(s: State, e: Event, c: nat)
    requires Shaped(s) && c < MAX_TASK_COUNT
  {
    && s.phase == Running(s.tasks[c].ppid) && s.phase.slot < |s.cont|
    && match e
       case Wait(child, status) => child == c && Writable(status)
       case Resume(status) => s.cont[s.phase.slot] == InWait(c) && Writable(status)
       case _ => false
  }

  /** Nothing in a zombie's slot changes until it is reaped, and then it is only freed. */
  lemma ZombieStep(s: State, e: Event, c: nat)
    requires Inv(s) && Enabled(s, e) && Step(s, e).Next? && c < MAX_TASK_COUNT && s.tasks[c].state.Zombie?
    ensures Shaped(Step(s, e).s)
    ensures Step(s, e).s.tasks[c] == if Reaps(s, e, c) then s.tasks[c].(state := NotAllocated) else s.tasks[c]
  {
    StepShaped(s, e);
    if e.Fork? { FreeSlot(s.tasks, 1); }
    assert SlotOk(s, s.phase.slot) && WaitOk(s, s.phase.slot) && SlotOk(s, c);
  }

  predicate NeverReaped(s: State, es: seq<Event>, c: nat)
    requires Shaped(s) && Possible(s, es) && c < MAX_TASK_COUNT
    decreases |es|
  {
    es == [] || (!Reaps(s, es[0], c) && NeverReaped(Step(s, es[0]).s, es[1..], c))
  }

  lemma {:induction false} ZombieStays(s: State, es: seq<Event>, c: nat)
    requires Inv(s) && Possible(s, es) && c < MAX_TASK_COUNT && s.tasks[c].state.Zombie? && NeverReaped(s, es, c)
    ensures Run(s, es).tasks[c] == s.tasks[c]
    decreases |es|
  {
    if es != [] {
      ZombieStep(s, es[0], c);
      StepKeeps(s, es[0]);
      ZombieStays(Step(s, es[0]).s, es[1..], c);
    }
  }

  /** Whenever the task is reaped, its parent does it and is given the number that the task passed to
      sys_exit, if it asks for it; and the slot is free then and not before. */
  lemma ParentGetsCode(s: State, n: int, es: seq<Event>, e: Event)
    requires Inv(s) && IsInt(n) && Enabled(s, Exit(Register(n)))
    requires Step(s, Exit(Register(n))).Next? && Shaped(Step(s, Exit(Register(n))).s)
    requires Possible(Step(s, Exit(Register(n))).s, es)
    requires NeverReaped(Step(s, Exit(Register(n))).s, es, s.phase.slot)
    ensures var c, t := s.phase.slot, Run(Step(s, Exit(Register(n))).s, es);
      && t.tasks[c].state.Zombie? && t.tasks[c].exitcode == n && t.tasks[c].ppid == s.tasks[c].ppid
      && (Enabled(t, e) && Reaps(t, e, c) ==>
            && Step(t, e).Next? && Step(t, e).s.tasks == t.tasks[c := t.tasks[c].(state := NotAllocated)]
            && (e.Wait? ==> Stored(t, c, e.status) == if e.status.Null? then None else Some(n))
            && (e.Resume? ==> Stored(t, c, e.status) == if e.status.Null? then None else Some(n)))
  {
    var c, s', t := s.phase.slot, Step(s, Exit(Register(n))).s, Run(Step(s, Exit(Register(n))).s, es);
    ExitCodeStored(s, n);
    StepKeeps(s, Exit(Register(n)));
    ZombieStays(s', es, c);
    RunKeeps(s', es);
    assert SlotOk(t, t.phase.slot) && SlotOk(t, c);
    assert s'.tasks[c].exitcode == n;
  }

  // ---- A parent that waits

  /** Task `p` is to go on inside its call of sys_wait for the zombie `c`, which has the exit code `n`. */
  predicate WillGet(s: State, p: nat, c: nat, n: int)
    requires Shaped(s) && p < MAX_TASK_COUNT && c < MAX_TASK_COUNT
  {
    && s.tasks[p].state.Runnable? && s.cont[p] == InWait(c)
    && s.tasks[c].state.Zombie? && s.tasks[c].ppid == p && s.tasks[c].exitcode == n
  }

  lemma WillGetStep(s: State, e: Event, p: nat, c: nat, n: int)
    requires Inv(s) && Enabled(s, e) && Step(s, e).Next? && p < MAX_TASK_COUNT && c < MAX_TASK_COUNT
    requires WillGet(s, p, c, n) && !(e.Resume? && s.phase == Running(p))
    ensures Shaped(Step(s, e).s) && WillGet(Step(s, e).s, p, c, n)
  {
    ZombieStep(s, e, c);
    if e.Fork? { FreeSlot(s.tasks, 1); }
    assert SlotOk(s, s.phase.slot) && WaitOk(s, s.phase.slot) && SlotOk(s, p);
  }

  /** Task `p` does not go on with a call of sys_wait in this run. */
  predicate NeverResumes(s: State, es: seq<Event>, p: nat)
    requires Shaped(s) && Possible(s, es)
    decreases |es|
  {
    es == [] || (!(es[0].Resume? && s.phase == Running(p)) && NeverResumes(Step(s, es[0]).s, es[1..], p))
  }

  lemma {:induction false} WillGetStays(s: State, es: seq<Event>, p: nat, c: nat, n: int)
    requires Inv(s) && Possible(s, es) && p < MAX_TASK_COUNT && c < MAX_TASK_COUNT
    requires WillGet(s, p, c, n) && NeverResumes(s, es, p)
    ensures WillGet(Run(s, es), p, c, n)
    decreases |es|
  {
    if es != [] {
      WillGetStep(s, es[0], p, c, n);
      StepKeeps(s, es[0]);
      WillGetStays(Step(s, es[0]).s, es[1..], p, c, n);
    }
  }

  /** A parent that waits for a living child gets the number that the child passes to sys_exit: in
      every run it is runnable from then on, and whenever it gets the processor it goes on with its
      call, and finds the number there to be stored. */
  lemma WaiterGetsCode(s: State, p: nat, n: int, es: seq<Event>, status: Status)
    requires Inv(s) && IsInt(n) && Enabled(s, Exit(Register(n))) && p < MAX_TASK_COUNT
    requires Good(s, p) && s.phase == Running(s.tasks[p].waitPid)
    requires Step(s, Exit(Register(n))).Next? && Shaped(Step(s, Exit(Register(n))).s)
    requires Possible(Step(s, Exit(Register(n))).s, es) && NeverResumes(Step(s, Exit(Register(n))).s, es, p)
    ensures var t, c := Run(Step(s, Exit(Register(n))).s, es), s.phase.slot;
      && t.tasks[p].state.Runnable? && t.tasks[c].state.Zombie?
      && (t.phase == Running(p) ==> Enabled(t, Resume(status)))
      && Stored(t, c, status) == if status.InArea? && (status.user || status.write) then Some(n) else None
  {
    var c, s' := s.phase.slot, Step(s, Exit(Register(n))).s;
    ExitCodeStored(s, n);
    StepKeeps(s, Exit(Register(n)));
    GoodStep(s, Exit(Register(n)), p);
    WillGetStays(s', es, p, c, n);
  }
}

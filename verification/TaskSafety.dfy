/** What every step of the kernel keeps: waiting tasks are woken, resources have one owner. */
module TaskSafety {
  import opened Common
  import opened Tasks

  predicate Allocated(t: Task) {
    !t.state.NotAllocated?
  }

  /** Slot numbers and the parent field; slot 0 is never used. */
  ghost predicate SlotOk(s: State, i: nat)
    requires Shaped(s) && i < MAX_TASK_COUNT
  {
    var t := s.tasks[i];
    && t.ppid < MAX_TASK_COUNT && (i > 0 ==> t.ppid != i)
    && (i == 0 ==> t.state.NotAllocated? && t.ppid == 0)
    && (Allocated(t) ==> t.pid == i)
  }

  /** Only the running task has the processor, and its time runs from its dispatch. */
  ghost predicate PhaseOk(s: State)
    requires Shaped(s)
  {
    var i := s.phase.slot;
    && (s.phase.Running? ==>
          && s.tasks[i].state.Runnable? && s.tasks[i].deadline == s.timer + PREEMPT_TICKS
          && s.inUse == OfTask(s.tasks[i].space))
    && (s.phase.Back? ==> Allocated(s.tasks[i]))
  }

  /** A child whose parent waits for it is not yet dead, and not reaped by anybody else: when the
      wait goes on it is a zombie. */
  ghost predicate WaitOk(s: State, i: nat)
    requires Shaped(s) && i < MAX_TASK_COUNT
  {
    var t := s.tasks[i];
    && (t.state.Waiting? ==>
          && s.cont[i] == InWait(t.waitPid) && t.waitPid < MAX_TASK_COUNT
          && !(s.tasks[t.waitPid].state.Zombie? && s.tasks[t.waitPid].ppid == i))
    && (t.state.Sleeping? ==> s.cont[i].User?)
    && (t.state.Runnable? && s.cont[i].InWait? ==>
          var c := s.cont[i].child; c < MAX_TASK_COUNT && s.tasks[c].state.Zombie? && s.tasks[c].ppid == i)
  }

  /** The slots that own an address space and a kernel stack. */
  predicate Owns(s: State, i: nat)
    requires Shaped(s) && i < MAX_TASK_COUNT
  {
    match s.tasks[i].state
    case NotAllocated => false
    case Zombie => s.phase == Back(i)
    case _ => true
  }

  ghost predicate OwnerOk(s: State, i: nat)
    requires Shaped(s) && i < MAX_TASK_COUNT
  {
    Owns(s, i) ==> s.tasks[i].space in s.spaces && s.tasks[i].space !in s.leaked && s.tasks[i].stack in s.stacks
  }

  ghost predicate Apart(s: State, i: nat, j: nat)
    requires Shaped(s) && i < MAX_TASK_COUNT && j < MAX_TASK_COUNT
  {
    i != j && Owns(s, i) && Owns(s, j) ==> s.tasks[i].space != s.tasks[j].space && s.tasks[i].stack != s.tasks[j].stack
  }

  ghost predicate SpaceOk(s: State, x: nat)
    requires Shaped(s)
  {
    x in s.spaces ==>
      x < s.next && (x in s.leaked || exists i :: 0 <= i < MAX_TASK_COUNT && Owns(s, i) && s.tasks[i].space == x)
  }

  ghost predicate StackOk(s: State, x: nat)
    requires Shaped(s)
  {
    x in s.stacks ==> x < s.next && exists i :: 0 <= i < MAX_TASK_COUNT && Owns(s, i) && s.tasks[i].stack == x
  }

  ghost predicate ResourcesOk(s: State)
    requires Shaped(s)
  {
    && (forall i :: 0 <= i < MAX_TASK_COUNT ==> OwnerOk(s, i))
    && (forall i, j :: 0 <= i < MAX_TASK_COUNT && 0 <= j < MAX_TASK_COUNT ==> Apart(s, i, j))
    && (forall x: nat :: SpaceOk(s, x)) && (forall x: nat :: StackOk(s, x))
    && s.leaked <= s.spaces
    && (s.inUse.OfTask? ==> s.inUse.space in s.spaces)
  }

  ghost predicate Inv(s: State) {
    && Shaped(s) && PhaseOk(s) && ResourcesOk(s)
    && (forall i :: 0 <= i < MAX_TASK_COUNT ==> SlotOk(s, i))
    && (forall i :: 0 <= i < MAX_TASK_COUNT ==> WaitOk(s, i))
  }

  // ---- Each step

  lemma SlotsStep(s: State, e: Event)
    requires Inv(s) && Enabled(s, e) && Step(s, e).Next?
    ensures var s' := Step(s, e).s; forall i :: 0 <= i < MAX_TASK_COUNT ==> SlotOk(s', i)
  {
    var s' := Step(s, e).s;
    if e.Fork? { FreeSlot(s.tasks, 1); }
    forall i | 0 <= i < MAX_TASK_COUNT ensures SlotOk(s', i) {
      assert SlotOk(s, i) && SlotOk(s, s.phase.slot);
    }
  }

  lemma PhaseStep(s: State, e: Event)
    requires Inv(s) && Enabled(s, e) && Step(s, e).Next?
    ensures PhaseOk(Step(s, e).s)
  {
    if e.Fork? { FreeSlot(s.tasks, 1); }
    var i := s.phase.slot;
    assert SlotOk(s, i) && WaitOk(s, i);
  }

  lemma WaitExit(s: State, code: nat, i: nat)
    requires Shaped(s) && s.phase.Running? && i < MAX_TASK_COUNT && AfterExit(s, code).Next?
    requires SlotOk(s, s.phase.slot) && SlotOk(s, i) && WaitOk(s, i)
    requires WaitOk(s, s.phase.slot) && s.tasks[s.phase.slot].state.Runnable?
    ensures WaitOk(AfterExit(s, code).s, i)
  {
  }

  /** The child that is reaped had no other parent to wait for it. */
  lemma WaitReap(s: State, child: nat, status: Status, i: nat)
    requires Shaped(s) && s.phase.Running? && i < MAX_TASK_COUNT && child < MAX_TASK_COUNT
    requires WaitOk(s, i) && s.tasks[s.phase.slot].state.Runnable?
    requires s.tasks[child].state.Zombie? && s.tasks[child].ppid == s.phase.slot
    ensures WaitOk(Reaped(s, child, status), i)
  {
  }

  lemma WaitBlocks(s: State, child: nat, status: Status, i: nat)
    requires Shaped(s) && s.phase.Running? && i < MAX_TASK_COUNT && child < MAX_TASK_COUNT && SlotOk(s, s.phase.slot)
    requires WaitOk(s, i) && WaitOk(s, s.phase.slot) && s.tasks[s.phase.slot].state.Runnable?
    requires s.tasks[s.phase.slot].pid == s.phase.slot
    ensures WaitOk(AfterWait(s, child, status).s, i)
  {
    if s.tasks[child].state.Zombie? && s.tasks[child].ppid == s.phase.slot { WaitReap(s, child, status, i); }
  }

  lemma WaitFork(s: State, fate: ForkFate, c: nat, i: nat)
    requires Shaped(s) && s.phase.Running? && i < MAX_TASK_COUNT && c < MAX_TASK_COUNT && s.tasks[c].state.NotAllocated?
    requires WaitOk(s, i)
    ensures WaitOk(Forked(s, fate, c), i)
  {
  }

  lemma WaitOther(s: State, e: Event, i: nat)
    requires Shaped(s) && Enabled(s, e) && (e.Schedule? || e.Tick? || e.Sleep?)
    requires i < MAX_TASK_COUNT && Shaped(Step(s, e).s)
    requires WaitOk(s, i) && (s.phase.Running? ==> s.tasks[s.phase.slot].state.Runnable?)
    ensures WaitOk(Step(s, e).s, i)
  {
  }

  lemma WaitStep(s: State, e: Event, i: nat)
    requires Inv(s) && Enabled(s, e) && Step(s, e).Next? && Shaped(Step(s, e).s) && i < MAX_TASK_COUNT
    ensures WaitOk(Step(s, e).s, i)
  {
    var r := s.phase.slot;
    assert SlotOk(s, r) && WaitOk(s, r) && SlotOk(s, i) && WaitOk(s, i);
    match e
    case Fork(fate) =>
      FreeSlot(s.tasks, 1);
      WaitFork(s, fate, FirstFree(s.tasks, 1).value, i);
    case Exit(code) => WaitExit(s, code, i);
    case Wait(child, status) => WaitBlocks(s, child, status, i);
    case Resume(status) => WaitReap(s, s.cont[r].child, status, i);
    case _ => WaitOther(s, e, i);
  }

  lemma WaitsStep(s: State, e: Event)
    requires Inv(s) && Enabled(s, e) && Step(s, e).Next?
    ensures Shaped(Step(s, e).s) && forall i :: 0 <= i < MAX_TASK_COUNT ==> WaitOk(Step(s, e).s, i)
  {
    StepShaped(s, e);
    forall i | 0 <= i < MAX_TASK_COUNT ensures WaitOk(Step(s, e).s, i) {
      WaitStep(s, e, i);
    }
  }

  // ---- Resources

  /** Nothing changed that ownership depends on. */
  ghost predicate SameOwners(s: State, s': State)
    requires Shaped(s) && Shaped(s')
  {
    && (forall i :: 0 <= i < MAX_TASK_COUNT ==>
          && Owns(s', i) == Owns(s, i)
          && (Owns(s, i) ==> s'.tasks[i].space == s.tasks[i].space && s'.tasks[i].stack == s.tasks[i].stack))
    && s'.spaces == s.spaces && s'.stacks == s.stacks && s'.leaked == s.leaked && s'.next == s.next
  }

  lemma SameResources(s: State, s': State)
    requires Shaped(s) && Shaped(s') && ResourcesOk(s) && SameOwners(s, s')
    requires s'.inUse.OfTask? ==> s'.inUse.space in s'.spaces
    ensures ResourcesOk(s')
  {
    forall i | 0 <= i < MAX_TASK_COUNT ensures OwnerOk(s', i) {
      assert OwnerOk(s, i);
    }
    forall i, j | 0 <= i < MAX_TASK_COUNT && 0 <= j < MAX_TASK_COUNT ensures Apart(s', i, j) {
      assert Apart(s, i, j);
    }
    forall x: nat ensures SpaceOk(s', x) && StackOk(s', x) {
      assert SpaceOk(s, x) && StackOk(s, x);
    }
  }

  /** A zombie's space and stack exist when they are freed, are nobody else's, and the space is not
      the one in use. */
  lemma CleanFrees(s: State)
    requires Inv(s) && s.phase.Back? && s.tasks[s.phase.slot].state.Zombie?
    ensures var t := s.tasks[s.phase.slot];
      && t.space in s.spaces && t.stack in s.stacks && Clean(s).inUse.OfScheduler?
      && forall j :: 0 <= j < MAX_TASK_COUNT && j != s.phase.slot && Owns(s, j) ==>
           s.tasks[j].space != t.space && s.tasks[j].stack != t.stack
  {
    var i := s.phase.slot;
    assert OwnerOk(s, i);
    forall j | 0 <= j < MAX_TASK_COUNT && j != i && Owns(s, j)
      ensures s.tasks[j].space != s.tasks[i].space && s.tasks[j].stack != s.tasks[i].stack
    {
      assert Apart(s, i, j);
    }
  }

  lemma CleanResources(s: State)
    requires Inv(s) && s.phase.Back? && s.tasks[s.phase.slot].state.Zombie?
    ensures ResourcesOk(Clean(s))
  {
    var i, s' := s.phase.slot, Clean(s);
    CleanFrees(s);
    assert OwnerOk(s, i);
    forall j | 0 <= j < MAX_TASK_COUNT ensures OwnerOk(s', j) {
      assert OwnerOk(s, j);
    }
    forall j, k | 0 <= j < MAX_TASK_COUNT && 0 <= k < MAX_TASK_COUNT ensures Apart(s', j, k) {
      assert Apart(s, j, k);
    }
    forall x: nat ensures SpaceOk(s', x) && StackOk(s', x) {
      assert SpaceOk(s, x) && StackOk(s, x);
      CleanKeeps(s, x);
    }
  }

  lemma CleanKeeps(s: State, x: nat)
    requires Inv(s) && s.phase.Back? && s.tasks[s.phase.slot].state.Zombie?
    ensures SpaceOk(Clean(s), x) && StackOk(Clean(s), x)
  {
    var s' := Clean(s);
    assert SpaceOk(s, x) && StackOk(s, x);
    if x in s'.spaces && x !in s.leaked {
      var j :| 0 <= j < MAX_TASK_COUNT && Owns(s, j) && s.tasks[j].space == x;
      assert Owns(s', j) && s'.tasks[j].space == x;
    }
    if x in s'.stacks {
      var j :| 0 <= j < MAX_TASK_COUNT && Owns(s, j) && s.tasks[j].stack == x;
      assert Owns(s', j) && s'.tasks[j].stack == x;
    }
  }

  lemma ForkResources(s: State, fate: ForkFate, c: nat)
    requires Inv(s) && s.phase.Running? && c < MAX_TASK_COUNT && s.tasks[c].state.NotAllocated?
    ensures ResourcesOk(Forked(s, fate, c))
  {
    var s' := Forked(s, fate, c);
    forall i | 0 <= i < MAX_TASK_COUNT ensures OwnerOk(s', i) {
      assert OwnerOk(s, i);
      assert SpaceOk(s, s.next);
    }
    forall i, j | 0 <= i < MAX_TASK_COUNT && 0 <= j < MAX_TASK_COUNT ensures Apart(s', i, j) {
      assert Apart(s, i, j) && OwnerOk(s, i) && OwnerOk(s, j) && SpaceOk(s, s.next) && StackOk(s, s.next);
    }
    forall x: nat ensures SpaceOk(s', x) && StackOk(s', x) {
      ForkKeeps(s, fate, c, x);
    }
  }

  lemma ForkKeeps(s: State, fate: ForkFate, c: nat, x: nat)
    requires Inv(s) && s.phase.Running? && c < MAX_TASK_COUNT && s.tasks[c].state.NotAllocated?
    ensures SpaceOk(Forked(s, fate, c), x) && StackOk(Forked(s, fate, c), x)
  {
    var s' := Forked(s, fate, c);
    assert SpaceOk(s, x) && StackOk(s, x);
    if x in s.spaces && x !in s.leaked {
      var j :| 0 <= j < MAX_TASK_COUNT && Owns(s, j) && s.tasks[j].space == x;
      assert Owns(s', j) && s'.tasks[j].space == x;
    }
    if x in s.stacks {
      var j :| 0 <= j < MAX_TASK_COUNT && Owns(s, j) && s.tasks[j].stack == x;
      assert Owns(s', j) && s'.tasks[j].stack == x;
    }
    if fate.AllDone? && x == s.next {
      assert Owns(s', c) && s'.tasks[c].space == x && s'.tasks[c].stack == x;
    }
  }

  lemma ResourcesStep(s: State, e: Event)
    requires Inv(s) && Enabled(s, e) && Step(s, e).Next?
    ensures ResourcesOk(Step(s, e).s)
  {
    var s' := Step(s, e).s;
    var r := s.phase.slot;
    assert SlotOk(s, r) && WaitOk(s, r) && OwnerOk(s, r);
    if e.Fork? {
      FreeSlot(s.tasks, 1);
      ForkResources(s, e.fate, FirstFree(s.tasks, 1).value);
    } else if e.Schedule? && s.phase.Back? && s.tasks[r].state.Zombie? {
      CleanResources(s);
    } else {
      SameResources(s, s');
    }
  }

  /** Every step keeps the invariant.  A step crashes only if it forks with the table full or waits
      for a slot beyond its end. */
  lemma StepKeeps(s: State, e: Event)
    requires Inv(s) && Enabled(s, e)
    ensures Step(s, e).Crash? <==>
      || (e.Fork? && forall j :: 1 <= j < MAX_TASK_COUNT ==> Allocated(s.tasks[j]))
      || (e.Wait? && e.child >= MAX_TASK_COUNT)
    ensures Step(s, e).Next? ==> Inv(Step(s, e).s)
  {
    FreeSlot(s.tasks, 1);
    assert SlotOk(s, s.phase.slot);
    if Step(s, e).Next? {
      SlotsStep(s, e);
      PhaseStep(s, e);
      WaitsStep(s, e);
      ResourcesStep(s, e);
    }
  }

  lemma InitialInv(timer: nat)
    ensures Inv(Initial(timer))
  {
    var s := Initial(timer);
    assert Owns(s, 1) && s.tasks[1].space == 0 && s.tasks[1].stack == 0;
    forall x: nat ensures SpaceOk(s, x) && StackOk(s, x) { }
  }

  lemma {:induction false} RunKeeps(s: State, es: seq<Event>)
    requires Inv(s) && Possible(s, es)
    ensures Inv(Run(s, es))
    decreases |es|
  {
    if es != [] {
      StepKeeps(s, es[0]);
      RunKeeps(Step(s, es[0]).s, es[1..]);
    }
  }
}

/** Properties of whole runs of the kernel: which waits end, and what becomes of the resources. */
module TaskTheorems {
  import opened Common
  import opened Tasks
  import opened TaskSafety

  /** Task `p` waits for a child of its own that is still alive. */
  predicate Good(s: State, p: nat)
    requires Shaped(s) && p < MAX_TASK_COUNT
  {
    var c := s.tasks[p].waitPid;
    && s.tasks[p].state.Waiting? && c < MAX_TASK_COUNT && s.tasks[c].ppid == p
    && (s.tasks[c].state.Runnable? || s.tasks[c].state.Waiting? || s.tasks[c].state.Sleeping?)
  }

  /** Task `p` waits for a slot that is free, or is another's child. */
  predicate Stuck(s: State, p: nat)
    requires Shaped(s) && p < MAX_TASK_COUNT
  {
    var c := s.tasks[p].waitPid;
    && s.tasks[p].state.Waiting? && c < MAX_TASK_COUNT
    && (s.tasks[c].state.NotAllocated? || s.tasks[c].ppid != p)
  }

  lemma GoodOrStuck(s: State, p: nat)
    requires Inv(s) && p < MAX_TASK_COUNT && s.tasks[p].state.Waiting?
    ensures Good(s, p) != Stuck(s, p)
  {
    assert WaitOk(s, p);
  }

  /** A waiting task that is stuck stays so, whatever happens. */
  lemma StuckStep(s: State, e: Event, p: nat)
    requires Inv(s) && Enabled(s, e) && Step(s, e).Next? && p < MAX_TASK_COUNT && Stuck(s, p)
    ensures Shaped(Step(s, e).s) && Stuck(Step(s, e).s, p)
  {
    StepShaped(s, e);
    var r, c := s.phase.slot, s.tasks[p].waitPid;
    assert SlotOk(s, r) && WaitOk(s, r) && SlotOk(s, p) && SlotOk(s, c);
    match e
    case Fork(fate) =>
      FreeSlot(s.tasks, 1);
      StuckFork(s, fate, FirstFree(s.tasks, 1).value, p);
    case Exit(code) => StuckExit(s, code, p);
    case Wait(child, status) => StuckWait(s, child, status, p);
    case Resume(status) => StuckReap(s, s.cont[r].child, status, p);
    case _ => StuckOther(s, e, p);
  }

  lemma StuckFork(s: State, fate: ForkFate, c: nat, p: nat)
    requires Shaped(s) && s.phase.Running? && c < MAX_TASK_COUNT && s.tasks[c].state.NotAllocated?
    requires p < MAX_TASK_COUNT && Stuck(s, p) && s.tasks[s.phase.slot].state.Runnable?
    requires s.tasks[s.phase.slot].pid == s.phase.slot
    ensures Stuck(Forked(s, fate, c), p)
  {
  }

  lemma StuckExit(s: State, code: nat, p: nat)
    requires Shaped(s) && s.phase.Running? && p < MAX_TASK_COUNT && Stuck(s, p) && AfterExit(s, code).Next?
    requires SlotOk(s, s.phase.slot) && s.tasks[s.phase.slot].state.Runnable?
    ensures Stuck(AfterExit(s, code).s, p)
  {
  }

  lemma StuckReap(s: State, child: nat, status: Status, p: nat)
    requires Shaped(s) && s.phase.Running? && child < MAX_TASK_COUNT
    requires s.tasks[child].state.Zombie? && p < MAX_TASK_COUNT && Stuck(s, p)
    ensures Stuck(Reaped(s, child, status), p)
  {
  }

  lemma StuckWait(s: State, child: nat, status: Status, p: nat)
    requires Shaped(s) && s.phase.Running? && p < MAX_TASK_COUNT && Stuck(s, p) && AfterWait(s, child, status).Next?
    requires s.tasks[s.phase.slot].state.Runnable?
    ensures Stuck(AfterWait(s, child, status).s, p)
  {
    if s.tasks[child].state.Zombie? { StuckReap(s, child, status, p); }
  }

  lemma StuckOther(s: State, e: Event, p: nat)
    requires Shaped(s) && Enabled(s, e) && (e.Schedule? || e.Tick? || e.Sleep?) && p < MAX_TASK_COUNT && Stuck(s, p)
    requires s.phase.Running? ==> s.tasks[s.phase.slot].state.Runnable?
    ensures Shaped(Step(s, e).s) && Stuck(Step(s, e).s, p)
  {
  }

  lemma {:induction false} StuckForever(s: State, es: seq<Event>, p: nat)
    requires Inv(s) && Possible(s, es) && p < MAX_TASK_COUNT && Stuck(s, p)
    ensures Stuck(Run(s, es), p)
    decreases |es|
  {
    if es != [] {
      StuckStep(s, es[0], p);
      StepKeeps(s, es[0]);
      StuckForever(Step(s, es[0]).s, es[1..], p);
    }
  }

  /** A waiting task whose child lives is woken in the very step in which the child dies, and not
      before. */
  lemma GoodStep(s: State, e: Event, p: nat)
    requires Inv(s) && Enabled(s, e) && Step(s, e).Next? && p < MAX_TASK_COUNT && Good(s, p)
    ensures Shaped(Step(s, e).s)
    ensures var s' := Step(s, e).s; var c := s.tasks[p].waitPid;
      if e.Exit? && s.phase.slot == c
      then s'.tasks[p].state.Runnable? && s'.cont[p] == InWait(c) && s'.tasks[c].state.Zombie? && s'.tasks[c].ppid == p
      else Good(s', p) && s'.tasks[p].waitPid == c
  {
    StepShaped(s, e);
    var r, c := s.phase.slot, s.tasks[p].waitPid;
    assert SlotOk(s, r) && WaitOk(s, r) && SlotOk(s, p) && WaitOk(s, p) && SlotOk(s, c);
    match e
    case Fork(fate) =>
      FreeSlot(s.tasks, 1);
      GoodFork(s, fate, FirstFree(s.tasks, 1).value, p);
    case Exit(code) => GoodExit(s, code, p);
    case Wait(child, status) => GoodWait(s, child, status, p);
    case Resume(status) => GoodReap(s, s.cont[r].child, status, p);
    case _ => GoodOther(s, e, p);
  }

  lemma GoodFork(s: State, fate: ForkFate, c: nat, p: nat)
    requires Shaped(s) && s.phase.Running? && c < MAX_TASK_COUNT
    requires s.tasks[c].state.NotAllocated? && p < MAX_TASK_COUNT && Good(s, p)
    ensures Good(Forked(s, fate, c), p) && Forked(s, fate, c).tasks[p].waitPid == s.tasks[p].waitPid
  {
  }

  lemma GoodExit(s: State, code: nat, p: nat)
    requires Shaped(s) && s.phase.Running? && p < MAX_TASK_COUNT && Good(s, p) && AfterExit(s, code).Next?
    requires SlotOk(s, s.phase.slot) && WaitOk(s, p) && s.tasks[s.phase.slot].state.Runnable?
    ensures var s' := AfterExit(s, code).s; var c := s.tasks[p].waitPid;
      if s.phase.slot == c
      then s'.tasks[p].state.Runnable? && s'.cont[p] == InWait(c) && s'.tasks[c].state.Zombie? && s'.tasks[c].ppid == p
      else Good(s', p) && s'.tasks[p].waitPid == c
  {
  }

  lemma GoodReap(s: State, child: nat, status: Status, p: nat)
    requires Shaped(s) && s.phase.Running? && child < MAX_TASK_COUNT
    requires s.tasks[child].state.Zombie? && p < MAX_TASK_COUNT && Good(s, p)
    ensures Good(Reaped(s, child, status), p) && Reaped(s, child, status).tasks[p].waitPid == s.tasks[p].waitPid
  {
  }

  lemma GoodWait(s: State, child: nat, status: Status, p: nat)
    requires Shaped(s) && s.phase.Running? && p < MAX_TASK_COUNT && Good(s, p) && AfterWait(s, child, status).Next?
    requires s.tasks[s.phase.slot].state.Runnable?
    ensures Good(AfterWait(s, child, status).s, p)
    ensures AfterWait(s, child, status).s.tasks[p].waitPid == s.tasks[p].waitPid
  {
    if s.tasks[child].state.Zombie? { GoodReap(s, child, status, p); }
  }

  lemma GoodOther(s: State, e: Event, p: nat)
    requires Shaped(s) && Enabled(s, e) && (e.Schedule? || e.Tick? || e.Sleep?) && p < MAX_TASK_COUNT && Good(s, p)
    requires s.phase.Running? ==> s.tasks[s.phase.slot].state.Runnable?
    ensures Shaped(Step(s, e).s) && Good(Step(s, e).s, p) && Step(s, e).s.tasks[p].waitPid == s.tasks[p].waitPid
  {
  }

  // ---- No wake-up is lost, if nobody waits for a free slot

  ghost predicate AllGood(s: State)
    requires Shaped(s)
  {
    forall p :: 0 <= p < MAX_TASK_COUNT && s.tasks[p].state.Waiting? ==> Good(s, p)
  }

  /** The event does not wait for a free slot of which the waiting task was the last parent. */
  predicate Careful(s: State, e: Event)
    requires Shaped(s) && Enabled(s, e)
  {
    e.Wait? && e.child < MAX_TASK_COUNT && s.tasks[e.child].ppid == s.tasks[s.phase.slot].pid ==>
      Allocated(s.tasks[e.child])
  }

  predicate AllCareful(s: State, es: seq<Event>)
    requires Shaped(s) && Possible(s, es)
    decreases |es|
  {
    es == [] || (Careful(s, es[0]) && AllCareful(Step(s, es[0]).s, es[1..]))
  }

  lemma CarefulStep(s: State, e: Event)
    requires Inv(s) && AllGood(s) && Enabled(s, e) && Step(s, e).Next? && Careful(s, e)
    ensures Shaped(Step(s, e).s) && AllGood(Step(s, e).s)
  {
    StepShaped(s, e);
    var s', r := Step(s, e).s, s.phase.slot;
    if e.Fork? { FreeSlot(s.tasks, 1); }
    assert SlotOk(s, r);
    forall p | 0 <= p < MAX_TASK_COUNT && s'.tasks[p].state.Waiting? ensures Good(s', p) {
      if s.tasks[p].state.Waiting? {
        GoodStep(s, e, p);
      } else {
        BlocksGood(s, e, p);
      }
    }
  }

  /** The task that begins to wait. */
  lemma BlocksGood(s: State, e: Event, p: nat)
    requires Inv(s) && Enabled(s, e) && Step(s, e).Next? && Careful(s, e) && p < MAX_TASK_COUNT && Shaped(Step(s, e).s)
    requires !s.tasks[p].state.Waiting? && Step(s, e).s.tasks[p].state.Waiting?
    ensures Good(Step(s, e).s, p)
  {
    if e.Fork? { FreeSlot(s.tasks, 1); }
    assert SlotOk(s, s.phase.slot);
    assert e.Wait? && p == s.phase.slot && SlotOk(s, e.child);
  }

  lemma CarelessStep(s: State, e: Event)
    requires Inv(s) && Enabled(s, e) && Step(s, e).Next? && !Careful(s, e)
    ensures Shaped(Step(s, e).s) && Stuck(Step(s, e).s, s.phase.slot)
  {
    StepShaped(s, e);
    assert SlotOk(s, s.phase.slot) && SlotOk(s, e.child);
  }

  /** In every run: all waiting tasks wait for a living child of their own, never for one that is
      dead or gone, if and only if nobody has waited for a free slot. */
  lemma {:induction false} NoLostWakeUp(s: State, es: seq<Event>)
    requires Inv(s) && AllGood(s) && Possible(s, es)
    ensures AllGood(Run(s, es)) <==> AllCareful(s, es)
    decreases |es|
  {
    if es != [] {
      var s' := Step(s, es[0]).s;
      StepKeeps(s, es[0]);
      if Careful(s, es[0]) {
        CarefulStep(s, es[0]);
        NoLostWakeUp(s', es[1..]);
      } else {
        CarelessStep(s, es[0]);
        StuckForever(s', es[1..], s.phase.slot);
        RunKeeps(s', es[1..]);
        GoodOrStuck(Run(s, es), s.phase.slot);
      }
    }
  }

  // ---- A wake-up is lost in some run

  /** Some run from `s` leaves task `p` waiting for ever. */
  ghost predicate CanGetStuck(s: State, p: nat)
    requires Shaped(s) && p < MAX_TASK_COUNT
  {
    exists es: seq<Event> :: Possible(s, es) && Stuck(Run(s, es), p)
  }

  lemma StepBefore(s: State, e: Event, p: nat)
    requires Shaped(s) && Enabled(s, e) && Step(s, e).Next? && p < MAX_TASK_COUNT
    requires Shaped(Step(s, e).s) && CanGetStuck(Step(s, e).s, p)
    ensures CanGetStuck(s, p)
  {
    var es: seq<Event> :| Possible(Step(s, e).s, es) && Stuck(Run(Step(s, e).s, es), p);
    var all := [e] + es;
    assert all[0] == e && all[1..] == es;
    assert Possible(s, all) && Run(s, all) == Run(Step(s, e).s, es);
  }

  /** The scheduler passes over free slots to the end of the table and begins again. */
  lemma {:induction false} PassFree(s: State, p: nat)
    requires Shaped(s) && s.phase.Scanning? && p < MAX_TASK_COUNT
    requires forall j :: s.phase.slot <= j < MAX_TASK_COUNT ==> s.tasks[j].state.NotAllocated?
    requires CanGetStuck(s.(phase := Scanning(0)), p)
    ensures CanGetStuck(s, p)
    decreases MAX_TASK_COUNT - s.phase.slot
  {
    var i := s.phase.slot;
    var s' := Step(s, Schedule).s;
    assert s'.tasks == s.tasks;
    assert s' == s.(phase := Scanning(Advance(i)));
    if i + 1 < MAX_TASK_COUNT {
      assert s'.(phase := Scanning(0)) == s.(phase := Scanning(0));
      PassFree(s', p);
    }
    StepBefore(s, Schedule, p);
  }

  /** The slots a state uses are the first three; what they hold decides what follows. */
  ghost predicate Small(s: State)
    requires Shaped(s)
  {
    s.tasks[0].state.NotAllocated? && forall j :: 3 <= j < MAX_TASK_COUNT ==> s.tasks[j].state.NotAllocated?
  }

  /** Task 1 comes back from waiting for its dead child, reaps it, and waits for it again. */
  lemma WaitsAgain(s: State)
    requires Shaped(s) && Small(s) && s.phase == Scanning(0)
    requires s.tasks[1].pid == 1 && s.tasks[1].state.Runnable? && s.cont[1] == InWait(2)
    requires s.tasks[2].ppid == 1 && s.tasks[2].state.Zombie?
    ensures CanGetStuck(s, 1)
  {
    var s1 := Step(s, Schedule).s;
    var s2 := Step(s1, Schedule).s;
    var s3 := Step(s2, Resume(Null)).s;
    var s4 := Step(s3, Wait(2, Null)).s;
    var none: seq<Event> := [];
    assert Stuck(s4, 1) && Possible(s4, none) && Run(s4, none) == s4;
    StepBefore(s3, Wait(2, Null), 1);
    StepBefore(s2, Resume(Null), 1);
    StepBefore(s1, Schedule, 1);
    StepBefore(s, Schedule, 1);
  }

  /** Task 2, the child of the waiting task 1, runs and dies. */
  lemma ChildDies(s: State)
    requires Shaped(s) && Small(s) && s.phase == Scanning(2)
    requires s.tasks[1].pid == 1 && s.tasks[1].state.Waiting? && s.tasks[1].waitPid == 2 && s.cont[1] == InWait(2)
    requires s.tasks[2].pid == 2 && s.tasks[2].ppid == 1 && s.tasks[2].state.Runnable? && s.cont[2].User?
    ensures CanGetStuck(s, 1)
  {
    var s1 := Step(s, Schedule).s;
    var s2 := Step(s1, Exit(0)).s;
    var s3 := Step(s2, Schedule).s;
    WaitsAgain(s3.(phase := Scanning(0)));
    PassFree(s3, 1);
    StepBefore(s2, Schedule, 1);
    StepBefore(s1, Exit(0), 1);
    StepBefore(s, Schedule, 1);
  }

  /** Task 1 forks its first child and waits for it. */
  lemma ForksAndWaits(s: State)
    requires Shaped(s) && Small(s) && s.phase == Running(1) && s.tasks[2].state.NotAllocated?
    requires s.tasks[1].pid == 1 && s.tasks[1].state.Runnable? && s.cont[1].User?
    ensures CanGetStuck(s, 1)
  {
    FirstFreeIs(s.tasks, 1, 2);
    var s1 := Step(s, Fork(AllDone)).s;
    var s2 := Step(s1, Wait(2, Null)).s;
    var s3 := Step(s2, Schedule).s;
    ChildDies(s3);
    StepBefore(s2, Schedule, 1);
    StepBefore(s1, Wait(2, Null), 1);
    StepBefore(s, Fork(AllDone), 1);
  }

  /** Such a run begins with the first task: it forks, waits for its child, and when that has died
      and been reaped waits for it once more. */
  lemma WakeUpCanBeLost(timer: nat)
    ensures exists es: seq<Event> ::
      Possible(Initial(timer), es) && !AllCareful(Initial(timer), es) && Stuck(Run(Initial(timer), es), 1)
  {
    var s := Initial(timer);
    var s1 := Step(s, Schedule).s;
    ForksAndWaits(Step(s1, Schedule).s);
    StepBefore(s1, Schedule, 1);
    StepBefore(s, Schedule, 1);
    var es: seq<Event> :| Possible(s, es) && Stuck(Run(s, es), 1);
    InitialInv(timer);
    NoLostWakeUp(s, es);
  }

  lemma {:induction false} FirstFreeIs(tasks: seq<Task>, i: nat, c: nat)
    requires i <= c < |tasks| && tasks[c].state.NotAllocated? && forall j :: i <= j < c ==> Allocated(tasks[j])
    ensures FirstFree(tasks, i) == Some(c)
    decreases c - i
  {
    if i < c { FirstFreeIs(tasks, i + 1, c); }
  }

  /** The first task can wait for a slot that does not exist. */
  lemma CrashIsPossible(timer: nat)
    ensures var s := Initial(timer); var es := [Schedule, Schedule];
      Possible(s, es) && Enabled(Run(s, es), Wait(MAX_TASK_COUNT, Null)) &&
      Step(Run(s, es), Wait(MAX_TASK_COUNT, Null)).Crash?
  {
    var s := Initial(timer);
    var s1 := Step(s, Schedule).s;
    var s2 := Step(s1, Schedule).s;
    var es := [Schedule, Schedule];
    assert es[1..] == [Schedule] && es[1..][1..] == [];
    assert Possible(s2, []) && Possible(s1, es[1..]) && Run(s1, es[1..]) == s2;
  }

  // ---- A fork without a free slot

  /** The running task may fork, and no slot is free. */
  ghost predicate ForkCrashes(s: State)
    requires Shaped(s)
  {
    Enabled(s, Fork(AllDone)) && Step(s, Fork(AllDone)).Crash?
  }

  ghost predicate CanForkToDeath(s: State)
    requires Shaped(s)
  {
    exists es: seq<Event> :: Possible(s, es) && ForkCrashes(Run(s, es))
  }

  lemma ForkBefore(s: State, e: Event)
    requires Shaped(s) && Enabled(s, e) && Step(s, e).Next? && Shaped(Step(s, e).s) && CanForkToDeath(Step(s, e).s)
    ensures CanForkToDeath(s)
  {
    var es: seq<Event> :| Possible(Step(s, e).s, es) && ForkCrashes(Run(Step(s, e).s, es));
    var all := [e] + es;
    assert all[0] == e && all[1..] == es;
    assert Possible(s, all) && Run(s, all) == Run(Step(s, e).s, es);
  }

  lemma {:induction false} NoneFree(tasks: seq<Task>, i: nat)
    requires forall j :: i <= j < |tasks| ==> Allocated(tasks[j])
    ensures FirstFree(tasks, i).None?
    decreases |tasks| - i
  {
    if i < |tasks| { NoneFree(tasks, i + 1); }
  }

  /** With the slots from `c` on free, the running task can fork until none is left. */
  lemma {:induction false} FillsUp(s: State, c: nat)
    requires Shaped(s) && s.phase == Running(1) && s.cont[1].User? && 1 < c <= MAX_TASK_COUNT
    requires forall j :: 1 <= j < MAX_TASK_COUNT ==> (Allocated(s.tasks[j]) <==> j < c)
    ensures CanForkToDeath(s)
    decreases MAX_TASK_COUNT - c
  {
    if c == MAX_TASK_COUNT {
      NoneFree(s.tasks, 1);
      var none: seq<Event> := [];
      assert Possible(s, none) && Run(s, none) == s && ForkCrashes(s);
    } else {
      FirstFreeIs(s.tasks, 1, c);
      FillsUp(Step(s, Fork(AllDone)).s, c + 1);
      ForkBefore(s, Fork(AllDone));
    }
  }

  /** The first task can fork, each time with success, until the next fork uses a slot that does not
      exist. */
  lemma ForkCrashIsPossible(timer: nat)
    ensures exists es: seq<Event> :: Possible(Initial(timer), es) && ForkCrashes(Run(Initial(timer), es))
  {
    var s := Initial(timer);
    var s1 := Step(s, Schedule).s;
    FillsUp(Step(s1, Schedule).s, 2);
    ForkBefore(s1, Schedule);
    ForkBefore(s, Schedule);
  }

  /** In every run, a task that comes back into sys_wait finds its child a zombie and still its own:
      the assertion there holds. */
  lemma WaiterFindsZombie(timer: nat, es: seq<Event>)
    requires Possible(Initial(timer), es)
    ensures var s := Run(Initial(timer), es);
      s.phase.Running? && s.cont[s.phase.slot].InWait? ==>
        var c := s.cont[s.phase.slot].child;
        c < MAX_TASK_COUNT && s.tasks[c].state.Zombie? && s.tasks[c].ppid == s.phase.slot
  {
    InitialInv(timer);
    RunKeeps(Initial(timer), es);
    var s := Run(Initial(timer), es);
    assert WaitOk(s, s.phase.slot);
  }

  // ---- Resources over whole runs

  /** An address space or kernel stack that has been destroyed never exists again, and only the
      scheduler, back from a task that has died, destroys it. */
  lemma GoneStep(s: State, e: Event, x: nat)
    requires Inv(s) && Enabled(s, e) && Step(s, e).Next? && x < s.next
    ensures var s' := Step(s, e).s;
      && s.next <= s'.next
      && (x in s'.spaces ==> x in s.spaces) && (x in s'.stacks ==> x in s.stacks)
      && (x in s.spaces && x !in s'.spaces <==>
            e.Schedule? && s.phase.Back? && s.tasks[s.phase.slot].state.Zombie? &&
            s.tasks[s.phase.slot].space == x && x in s.spaces)
      && (x in s.spaces && x !in s'.spaces ==> s'.inUse.OfScheduler?)
  {
  }

  lemma {:induction false} GoneForever(s: State, es: seq<Event>, x: nat)
    requires Inv(s) && Possible(s, es) && x < s.next
    ensures x !in s.spaces ==> x !in Run(s, es).spaces
    ensures x !in s.stacks ==> x !in Run(s, es).stacks
    decreases |es|
  {
    if es != [] {
      GoneStep(s, es[0], x);
      StepKeeps(s, es[0]);
      GoneForever(Step(s, es[0]).s, es[1..], x);
    }
  }

  lemma LeakStep(s: State, e: Event)
    requires Inv(s) && Enabled(s, e) && Step(s, e).Next?
    ensures var s' := Step(s, e).s;
      s.leaked <= s'.leaked &&
      |s'.leaked| == |s.leaked| + if e == Fork(NoSpace) || e == Fork(NoStack) then 1 else 0
  {
    assert SpaceOk(s, s.next);
  }

  /** A fork that fails after it has a PML4 loses its address space: it exists in every run from then on,
      is no task's, and is one more for each such fork. */
  lemma {:induction false} FailedForksLeak(s: State, es: seq<Event>)
    requires Inv(s) && Possible(s, es)
    ensures var s' := Run(s, es);
      && s.leaked <= s'.leaked <= s'.spaces
      && |s'.leaked| == |s.leaked| + multiset(es)[Fork(NoSpace)] + multiset(es)[Fork(NoStack)]
      && forall x: nat :: x in s'.leaked ==> !SpaceOwned(s', x)
    decreases |es|
  {
    if es == [] {
      forall x: nat ensures x in s.leaked ==> !SpaceOwned(s, x) {
        OwnedExists(s, x);
      }
    } else {
      LeakStep(s, es[0]);
      StepKeeps(s, es[0]);
      FailedForksLeak(Step(s, es[0]).s, es[1..]);
      assert es == [es[0]] + es[1..];
    }
  }

  /** `x` is the address space, or the kernel stack, of some task. */
  ghost predicate SpaceOwned(s: State, x: nat)
    requires Shaped(s)
  {
    exists i :: 0 <= i < MAX_TASK_COUNT && Owns(s, i) && s.tasks[i].space == x
  }

  ghost predicate StackOwned(s: State, x: nat)
    requires Shaped(s)
  {
    exists i :: 0 <= i < MAX_TASK_COUNT && Owns(s, i) && s.tasks[i].stack == x
  }

  /** In every run whose forks succeed, the address spaces and kernel stacks that exist are exactly
      those of the tasks that are neither free nor zombies, one each - but for a task that has just
      died, which the scheduler is about to clean up. */
  lemma OneEach(timer: nat, es: seq<Event>)
    requires Possible(Initial(timer), es)
    requires forall k :: 0 <= k < |es| && es[k].Fork? ==> es[k].fate.AllDone?
    ensures var s := Run(Initial(timer), es);
      && (forall x: nat :: x in s.spaces <==> SpaceOwned(s, x))
      && (forall x: nat :: x in s.stacks <==> StackOwned(s, x))
      && (forall i, j :: 0 <= i < MAX_TASK_COUNT && 0 <= j < MAX_TASK_COUNT ==> Apart(s, i, j))
  {
    InitialInv(timer);
    RunKeeps(Initial(timer), es);
    NoLeaks(Initial(timer), es);
    var s := Run(Initial(timer), es);
    forall x: nat ensures x in s.spaces <==> SpaceOwned(s, x) {
      OwnedExists(s, x);
    }
    forall x: nat ensures x in s.stacks <==> StackOwned(s, x) {
      OwnedExists(s, x);
    }
  }

  lemma OwnedExists(s: State, x: nat)
    requires Inv(s)
    ensures x in s.spaces && x !in s.leaked <==> SpaceOwned(s, x)
    ensures x in s.stacks <==> StackOwned(s, x)
  {
    assert SpaceOk(s, x) && StackOk(s, x);
    forall i | 0 <= i < MAX_TASK_COUNT && Owns(s, i)
      ensures s.tasks[i].space in s.spaces && s.tasks[i].space !in s.leaked && s.tasks[i].stack in s.stacks
    {
      assert OwnerOk(s, i);
    }
  }

  lemma {:induction false} NoLeaks(s: State, es: seq<Event>)
    requires Inv(s) && Possible(s, es) && s.leaked == {}
    requires forall k :: 0 <= k < |es| && es[k].Fork? ==> es[k].fate.AllDone?
    ensures Run(s, es).leaked == {}
    decreases |es|
  {
    if es != [] {
      StepKeeps(s, es[0]);
      assert Step(s, es[0]).s.leaked == {};
      assert forall k :: 0 <= k < |es[1..]| ==> es[1..][k] == es[k + 1];
      NoLeaks(Step(s, es[0]).s, es[1..]);
    }
  }
}

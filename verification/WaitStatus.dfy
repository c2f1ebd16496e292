/** The status argument of sys_wait (kernel/syscall.c): an address, looked up in the areas of the caller
    before the exit code is stored there. */
module WaitStatus {
  import opened Common
  import opened Tasks
  import opened Areas
  import opened TableSteps

  /** What the lookup tells sys_wait about the address. */
  function StatusAt(areas: seq<Area>, addr: nat): Status {
    if addr == 0 then Null
    else match Lookup(areas, addr)
      case None => Unmapped
      case Some(a) => InArea(a.flags.user, a.flags.write)
  }

  /** Some area of the caller has the address, for users to write to. */
  ghost predicate UserMayWrite(areas: seq<Area>, addr: nat) {
    exists i :: 0 <= i < |areas| && Covers(areas[i], addr) && areas[i].flags.user && areas[i].flags.write
  }

  /** Some area of the caller has the address, and just one of the two flags. */
  ghost predicate OneFlag(areas: seq<Area>, addr: nat) {
    exists i :: 0 <= i < |areas| && Covers(areas[i], addr) && areas[i].flags.user != areas[i].flags.write
  }

  lemma FlagsFound(areas: seq<Area>, addr: nat)
    requires AreasOk(areas) && addr != 0
    ensures UserMayWrite(areas, addr) <==> StatusAt(areas, addr) == InArea(true, true)
    ensures OneFlag(areas, addr) <==>
      StatusAt(areas, addr).InArea? && StatusAt(areas, addr).user != StatusAt(areas, addr).write
  {
    var k := LookupFinds(areas, addr);
    forall i | 0 <= i < |areas| && Covers(areas[i], addr) ensures Lookup(areas, addr) == Some(areas[i]) {
      LookupUnique(areas, addr, i);
    }
  }

  /** A zombie child is reaped just if there is no status to store, or users may write to its address -
      if and only if the address is not in an area that has one of the two flags only. */
  lemma StatusTest(s: State, child: nat, areas: seq<Area>, addr: nat)
    requires Shaped(s) && s.phase.Running? && child < MAX_TASK_COUNT && s.tasks[child].state.Zombie?
    requires AreasOk(areas)
    ensures (Reaped(s, child, StatusAt(areas, addr)).tasks[child].state.NotAllocated? <==>
              addr == 0 || UserMayWrite(areas, addr)) <==>
            addr == 0 || !OneFlag(areas, addr)
  {
    if addr != 0 { FlagsFound(areas, addr); }
  }

  /** The lookup is of the first of the four bytes that are stored.  For an aligned address it speaks
      for all of them. */
  lemma AllFourBytes(a: Area, addr: nat, k: nat)
    requires Proper(a) && addr % 4 == 0 && k < 4
    ensures Covers(a, addr) <==> Covers(a, addr + k)
  {
    var end := a.start + a.size * PAGE_SIZE;
    WholePages(a.start, a.size, end);
    WholeWords(a.start, end, addr, k);
  }

  lemma WholePages(start: nat, size: nat, end: nat)
    requires start % PAGE_SIZE == 0 && end == start + size * PAGE_SIZE
    ensures start % 4 == 0 && end % 4 == 0
  {
    var n := start / PAGE_SIZE;
    assert start == 4 * (1024 * n) && end == 4 * (1024 * n + 1024 * size);
  }

  lemma WholeWords(start: nat, end: nat, addr: nat, k: nat)
    requires start % 4 == 0 && end % 4 == 0 && addr % 4 == 0 && k < 4
    ensures start <= addr < end <==> start <= addr + k < end
  {
  }

  /** At the end of an area an address that is not aligned passes the test with bytes beyond it. */
  lemma BytesBeyond(flags: Flags)
    ensures var a := Area(0x1000, 1, flags); Proper(a) && Covers(a, 0x1ffe) && !Covers(a, 0x1ffe + 3)
  {
  }
}

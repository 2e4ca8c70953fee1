/**
 Each system call, user store and program start, as one step from a state that satisfies the
 invariant.
 */
module Calls {
  import opened Wrappers
  import opened Paging
  import opened PhysMem
  import opened Kernel
  import opened Invariant
  import opened Mapping
  import opened Copying
  import opened Forking

  function Roots(procs: ProcTable): map<nat, nat> {
    map pid: nat | pid < PID_MAX && procs[pid].Live? :: procs[pid].root
  }

  ghost predicate Safe(s: State, role: Roles) {
    Good(s.m, Roots(s.procs), role)
  }

  ghost predicate SafeState(s: State) {
    exists role :: Safe(s, role)
  }

  /** Every page in use keeps its contents. */
  ghost predicate UsedUnchanged(m: Phys, m': Phys) {
    forall p: nat :: p < NPAGES && m.rc[p] != 0 ==> m'.mem[p] == m.mem[p]
  }

  /** Every page entry of process `q` below the end of memory is the same. */
  ghost predicate SameEntries(s: State, s': State, q: nat) {
    Running(s, q) && Running(s', q)
    && forall v: nat :: v < USER_END ==> Leaf(s'.m.mem, s'.procs[q].root, v) == Leaf(s.m.mem, s.procs[q].root, v)
  }

  // ---- fork ----

  /** `kalloc_pagetable` zeroes the first free page. */
  lemma PagetableTaken(m: Phys)
    ensures var kp := FindFree(m, 0);
            KallocPagetable(m)
            == if kp.Some? then (kp, Phys(m.kend, m.mem[kp.value := ZeroPage()], m.rc[kp.value := 1])) else (kp, m)
  {
    hide FindFree;
    var kp := FindFree(m, 0);
    if kp.Some? {
      assert m.mem[kp.value := FillPage()][kp.value := ZeroPage()] == m.mem[kp.value := ZeroPage()];
    }
  }

  /** The state in which the copying of `syscall_fork` starts. */
  lemma ForkStart(s: State, role: Roles, slot: nat, f: nat) returns (m1: Phys, role1: Roles)
    requires Safe(s, role) && slot < PID_MAX && s.procs[slot].FreeSlot? && Free(s.m, f)
    ensures m1 == Phys(s.m.kend, s.m.mem[f := ZeroPage()], s.m.rc[f := 1])
    ensures ForkInv(s.m, m1, Roots(s.procs)[slot := f], role1, slot, None)
    ensures forall v: nat :: v < USER_END ==> !Leaf(m1.mem, f, v).perm.p
  {
    m1 := Phys(s.m.kend, s.m.mem[f := ZeroPage()], s.m.rc[f := 1]);
    role1 := role[f := Table(slot, Root)];
    AddRootGood(s.m, Roots(s.procs), role, slot, f);
    forall v: nat | v < USER_END ensures !Leaf(m1.mem, f, v).perm.p {
      EmptyTree(m1.mem, f, PagePath(v));
    }
    forall p: nat | p < NPAGES ensures !Uses(role[p], slot) && CountOk(role[p], s.m.rc[p]) {
      assert Uses(role[p], slot) ==> slot in Roots(s.procs);
    }
  }

  ghost predicate ForkedInto(s: State, s': State, role': Roles, pid: nat, child: nat)
    requires Running(s, pid)
  {
    && child < PID_MAX && s.procs[child].FreeSlot? && s'.procs[child].Live?
    && s'.procs == s.procs[child := s'.procs[child]]
    && ForkInv(s.m, s'.m, Roots(s'.procs), role', child, None)
    && UserInv(s.m, s'.m, Roots(s'.procs), pid, child, USER_END)
  }

  /** The counts after a failed fork: as before, but for at most one page that leaked. */
  ghost predicate CountsBut(m: Phys, m': Phys, leak: Option<nat>) {
    && (leak.Some? ==> leak.value < NPAGES && m.rc[leak.value] == 0)
    && forall p: nat :: p < NPAGES ==> m'.rc[p] as int == m.rc[p] as int + (if leak == Some(p) then 1 else 0)
  }

  /** The page that this fork, if it fails, takes and never gives back. */
  function ForkLeak(s: State, pid: nat): Option<nat>
    requires Running(s, pid)
  {
    var (kp, m1) := KallocPagetable(s.m);
    if FindSlot(s.procs, 1).None? || kp.None? then None else CopyLeak(m1, s.procs[pid].root, kp.value)
  }

  /** What fork makes of the outcome of the copying into the tree at `f`. */
  function ForkEnd(s: State, child: nat, f: nat, r: Result): Outcome
    requires child < PID_MAX
  {
    match r
    case Panic => Halt
    case NoMemory(m2) => Ret(-1, State(FreePagetable(m2, f), s.procs))
    case Ok(m2) => Ret(child, State(m2, s.procs[child := Live(f)]))
  }

  lemma ForkIs(s: State, pid: nat)
    requires Running(s, pid) && FindSlot(s.procs, 1).Some? && FindFree(s.m, 0).Some?
    ensures var child, f := FindSlot(s.procs, 1).value, FindFree(s.m, 0).value;
            var m1 := Phys(s.m.kend, s.m.mem[f := ZeroPage()], s.m.rc[f := 1]);
            SysFork(s, pid) == ForkEnd(s, child, f, CopyAll(m1, s.procs[pid].root, f))
  {
    hide CopyAll, FreePagetable, KallocPagetable;
    PagetableTaken(s.m);
  }

  lemma ForkRefused(s: State, pid: nat)
    requires Running(s, pid) && (FindSlot(s.procs, 1).None? || FindFree(s.m, 0).None?)
    ensures SysFork(s, pid) == Ret(-1, s)
  {
    hide CopyAll, FreePagetable, KallocPagetable;
    PagetableTaken(s.m);
  }

  /** `CopyAll` on the fresh child, and what is left of it when it fails. */
  lemma ForkCopied(s: State, role: Roles, pid: nat, child: nat, f: nat)
    returns (role': Roles, leak: Option<nat>)
    requires Safe(s, role) && Running(s, pid) && child < PID_MAX && s.procs[child].FreeSlot? && Free(s.m, f)
    ensures var m1 := Phys(s.m.kend, s.m.mem[f := ZeroPage()], s.m.rc[f := 1]);
            var r := CopyAll(m1, s.procs[pid].root, f);
            var roots := Roots(s.procs)[child := f];
            && !r.Panic? && ForkInv(s.m, r.m, roots, role', child, leak)
            && (r.Ok? ==> leak == None && UserInv(s.m, r.m, roots, pid, child, USER_END))
    ensures leak.Some? ==> leak.value < NPAGES && s.m.rc[leak.value] == 0
    ensures leak == CopyLeak(Phys(s.m.kend, s.m.mem[f := ZeroPage()], s.m.rc[f := 1]), s.procs[pid].root, f)
  {
    var m1, role1 := ForkStart(s, role, child, f);
    role', leak := CopyAllGood(s.m, m1, Roots(s.procs)[child := f], role1, pid, child);
  }

  /** After giving everything back the child has left at most the leaked page behind. */
  lemma ForkUndone(m0: Phys, m: Phys, roots: map<nat, nat>, role: Roles, child: nat, leak: Option<nat>)
    requires ForkInv(m0, m, roots, role, child, leak)
    requires leak.Some? ==> leak.value < NPAGES && m0.rc[leak.value] == 0
    ensures var r := FreePagetable(m, roots[child]);
            && Good(r, roots - {child}, DropRoles(role, child)) && r.mem == m.mem
            && CountsBut(m0, r, leak)
  {
    FreePagetableCounts(m, roots, role, child);
    DropRootGood(m, roots, role, child, FreePagetable(m, roots[child]).rc);
  }

  /** `syscall_fork`: never halts; a success builds a faithful child, a failure undoes everything
      but a page whose `try_map` failed. */
  lemma ForkCorrect(s: State, role: Roles, pid: nat) returns (role': Roles, leak: Option<nat>)
    requires Safe(s, role) && Running(s, pid)
    ensures var o := SysFork(s, pid);
            && o.Ret? && Safe(o.s, role') && UsedUnchanged(s.m, o.s.m)
            && (o.value < 0 ==> o.value == -1 && o.s.procs == s.procs && CountsBut(s.m, o.s.m, leak))
            && (o.value >= 0 ==> ForkedInto(s, o.s, role', pid, o.value))
    ensures forall q: nat :: Running(s, q) ==> SameEntries(s, SysFork(s, pid).s, q)
    ensures leak == ForkLeak(s, pid)
  {
    hide CopyLeak;
    hide Good, ForkInv, UserInv, CopyAll, FreePagetable, Leaf, FindFree, KallocPagetable;
    role', leak := role, None;
    PagetableTaken(s.m);
    var slot := FindSlot(s.procs, 1);
    var kp := FindFree(s.m, 0);
    if slot.Some? && kp.Some? {
      var child, f := slot.value, kp.value;
      var roots := Roots(s.procs)[child := f];
      var m1 := Phys(s.m.kend, s.m.mem[f := ZeroPage()], s.m.rc[f := 1]);
      role', leak := ForkCopied(s, role, pid, child, f);
      var r := CopyAll(m1, s.procs[pid].root, f);
      ForkKeeps(s, r.m, roots, role', child, leak);
      if r.Ok? {
        assert Roots(s.procs[child := Live(f)]) == roots;
      } else {
        ForkUndone(s.m, r.m, roots, role', child, leak);
        role' := DropRoles(role', child);
        assert roots - {child} == Roots(s.procs);
      }
    }
  }

  lemma ForkKeeps(s: State, m: Phys, roots: map<nat, nat>, role: Roles, child: nat, leak: Option<nat>)
    requires ForkInv(s.m, m, roots, role, child, leak)
    requires child < PID_MAX && s.procs[child].FreeSlot? && roots == Roots(s.procs)[child := roots[child]]
    ensures UsedUnchanged(s.m, m)
    ensures forall q: nat, v: nat :: Running(s, q) && v < USER_END ==>
              Leaf(m.mem, s.procs[q].root, v) == Leaf(s.m.mem, s.procs[q].root, v)
  {
    forall q: nat, v: nat | Running(s, q) && v < USER_END
      ensures Leaf(m.mem, s.procs[q].root, v) == Leaf(s.m.mem, s.procs[q].root, v)
    {
      assert q in roots && q != child;
    }
  }

  // ---- exit ----

  /** `syscall_exit` gives back exactly what the process used and touches no memory. */
  lemma ExitCorrect(s: State, role: Roles, pid: nat)
    requires Safe(s, role) && Running(s, pid)
    ensures var s' := SysExit(s, pid);
            && Safe(s', DropRoles(role, pid)) && s'.m.mem == s.m.mem
            && Released(s.m.rc, s'.m.rc, role, pid)
            && s'.procs == s.procs[pid := FreeSlot]
  {
    hide Good, FreePagetable, DropRoles, Released;
    var roots := Roots(s.procs);
    FreePagetableCounts(s.m, roots, role, pid);
    DropRootGood(s.m, roots, role, pid, FreePagetable(s.m, roots[pid]).rc);
    assert roots - {pid} == Roots(s.procs[pid := FreeSlot]);
  }

  /** A fork followed by the child's exit restores every count. */
  lemma ForkExit(s: State, role: Roles, pid: nat)
    requires Safe(s, role) && Running(s, pid)
    ensures var o := SysFork(s, pid);
            o.Ret? && o.value >= 0 ==>
              Running(o.s, o.value) && SysExit(o.s, o.value).m.rc == s.m.rc && SysExit(o.s, o.value).procs == s.procs
  {
    hide Good, SysFork, UserInv, FreePagetable, ForkLeak;
    var role', leak := ForkCorrect(s, role, pid);
    var o := SysFork(s, pid);
    if o.value >= 0 {
      ExitCorrect(o.s, role', o.value);
      var s2 := SysExit(o.s, o.value);
      forall p: nat | p < NPAGES ensures s2.m.rc[p] == s.m.rc[p] {
      }
      assert s2.m.rc == s.m.rc;
      assert s2.procs == s.procs;
    }
  }
}

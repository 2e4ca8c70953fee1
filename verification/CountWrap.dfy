/**
 What an unchecked page_alloc leads to (weensyos/kernel.cc:406-431): a child that asks for the address
 of a page it shares with its parent loses the mapping but not its count.  Repeated, this wraps the
 8-bit count around to zero, and the page becomes free while the parent still maps it.
 */
module CountWrap {
  import opened Wrappers
  import opened Paging
  import opened PhysMem
  import opened TryMapTheory
  import opened PostOrder
  import opened Kernel
  import opened Invariant
  import opened Mapping
  import opened Copying
  import opened Forking
  import opened Calls
  import opened Allocation
  import opened Setup
  import opened Budget
  import opened ForkCost
  import opened StartCost
  import opened Runs
  import opened References
  import opened AllocExact
  import opened CountShift

  /** The stack page, and the page below it, which is the shared one. */
  const STACK := 0x2FF
  const SHARED := 0x2FE

  /** Like `Run`, but with no restriction on what is asked for. */
  ghost predicate Steps(s: State, es: seq<Event>, s': State)
    decreases |es|
  {
    if es == [] then s' == s
    else Step(s, es[0]).Some? && Steps(Step(s, es[0]).value, es[1..], s')
  }

  lemma {:induction false} StepsTogether(s: State, es: seq<Event>, s1: State, es1: seq<Event>, s2: State)
    requires Steps(s, es, s1) && Steps(s1, es1, s2)
    ensures Steps(s, es + es1, s2)
    decreases |es|
  {
    hide Step;
    if es == [] {
      assert es + es1 == es1;
    } else {
      assert (es + es1)[1..] == es[1..] + es1;
      StepsTogether(Step(s, es[0]).value, es[1..], s1, es1, s2);
    }
  }

  /** Process `pid` maps page `p` read-only just below its stack, and can fork with a page to spare. */
  ghost predicate Victim(s: State, role: Roles, pid: nat, p: nat) {
    && Safe(s, role) && Running(s, pid) && p < NPAGES
    && Shares(s.m.mem, s.procs[pid].root, p)
    && FindSlot(s.procs, 1).Some? && FreeCount(s.m) > ForkPages(s, pid)
  }

  ghost predicate Shares(mem: Memory, root: nat, p: nat) {
    && Leaf(mem, root, SHARED).perm == READ_ONLY && Leaf(mem, root, SHARED).frame == p
    && Leaf(mem, root, STACK).perm == ALL_PERM
  }

  // ---- The copying, up to any page ----

  /** How often `p` is counted when the copying has come to page `vpn`. */
  lemma CountSoFar(m0: Phys, m: Phys, roots: map<nat, nat>, role: Roles, cur: nat, child: nat, vpn: nat, p: nat)
    requires ForkInv(m0, m, roots, role, child, None) && cur in roots && child in roots && cur != child
    requires UserInv(m0, m, roots, cur, child, vpn) && p < NPAGES && Shares(m0.mem, roots[cur], p)
    ensures m0.rc[p] <= m.rc[p] && m.rc[p] as int <= m0.rc[p] as int + 1
    ensures vpn <= SHARED ==> m.rc[p] == m0.rc[p]
  {
    hide Good, UserInv;
    if vpn <= SHARED {
      assert Leaf(m.mem, roots[cur], SHARED) == Leaf(m0.mem, roots[cur], SHARED);
      NotYetShared(m0, m, roots, role, cur, child, vpn, SHARED);
    }
  }

  /** A copying that succeeds goes the same way with the count of `p` shifted. */
  lemma {:induction false} ShiftUser(m0: Phys, m: Phys, roots: map<nat, nat>, role: Roles, cur: nat, child: nat,
                                     vpn: nat, end: nat, p: nat, k: nat)
    returns (mt: Phys, rolet: Roles)
    requires ForkInv(m0, m, roots, role, child, None) && cur in roots && child in roots && cur != child
    requires UserInv(m0, m, roots, cur, child, vpn) && vpn <= end <= USER_END
    requires CopyUser(m, roots[cur], roots[child], vpn).Ok?
    requires p < NPAGES && Shares(m0.mem, roots[cur], p)
    requires m0.rc[p] >= 1 && m0.rc[p] + k + (if end > STACK then 1 else 0) < 256 && end >= STACK
    ensures ForkInv(m0, mt, roots, rolet, child, None) && UserInv(m0, mt, roots, cur, child, end)
    ensures CopyUser(m, roots[cur], roots[child], vpn) == CopyUser(mt, roots[cur], roots[child], end)
    ensures CopyUser(Shift(m, p, k), roots[cur], roots[child], vpn)
         == CopyUser(Shift(mt, p, k), roots[cur], roots[child], end)
    decreases end - vpn
  {
    hide ForkInv, UserInv, CopyUserPage, Shares;
    mt, rolet := m, role;
    if vpn < end {
      CountSoFar(m0, m, roots, role, cur, child, vpn, p);
      ShiftUserPage(m, roots[cur], roots[child], vpn, p, k);
      var role', leak := CopyUserStep(m0, m, roots, role, cur, child, vpn);
      var r := CopyUserPage(m, roots[cur], roots[child], vpn);
      mt, rolet := ShiftUser(m0, r.m, roots, role', cur, child, vpn + 1, end, p, k);
    }
  }

  lemma ShiftAll(m0: Phys, m: Phys, roots: map<nat, nat>, role: Roles, cur: nat, child: nat, end: nat, p: nat, k: nat)
    returns (mt: Phys, rolet: Roles)
    requires ForkInv(m0, m, roots, role, child, None) && cur in roots && child in roots && cur != child
    requires forall v: nat :: v < USER_END ==> !Leaf(m.mem, roots[child], v).perm.p
    requires CopyAll(m, roots[cur], roots[child]).Ok?
    requires p < NPAGES && Shares(m0.mem, roots[cur], p) && m.rc[p] == m0.rc[p]
    requires m0.rc[p] >= 1 && m0.rc[p] + k + (if end > STACK then 1 else 0) < 256 && STACK <= end <= USER_END
    ensures ForkInv(m0, mt, roots, rolet, child, None) && UserInv(m0, mt, roots, cur, child, end)
    ensures CopyAll(m, roots[cur], roots[child]) == CopyUser(mt, roots[cur], roots[child], end)
    ensures CopyAll(Shift(m, p, k), roots[cur], roots[child]) == CopyUser(Shift(mt, p, k), roots[cur], roots[child], end)
  {
    hide Leaf, Good, ForkInv, UserInv, CopyKernel, MapConsole, CopyUser, Shares, MapPage;
    var pt := roots[child];
    BareKernel(m0, m, roots, cur, child);
    ShiftKernel(m, roots[cur], pt, KERNEL_FIRST, p, k);
    var role1 := CopyKernelGood(m0, m, roots, role, cur, child, KERNEL_FIRST);
    var r1 := CopyKernel(m, roots[cur], pt, KERNEL_FIRST);
    ShiftMap(r1.m, pt, CONSOLE_PAGE, CONSOLE_PAGE, ALL_PERM, p, k);
    ShiftConsole(r1.m, pt, p, k);
    var role2 := ConsoleStep(m0, r1.m, roots, role1, cur, child);
    var r2 := MapConsole(r1.m, pt);
    mt, rolet := ShiftUser(m0, r2.m, roots, role2, cur, child, 0, end, p, k);
  }

  lemma ShiftConsole(m: Phys, pt: nat, p: nat, k: nat)
    requires BothCounted(m, p, k)
    ensures MapConsole(Shift(m, p, k), pt) == ShiftResult(MapConsole(m, pt), p, k)
  {
    hide MapPage;
    ShiftMap(m, pt, CONSOLE_PAGE, CONSOLE_PAGE, ALL_PERM, p, k);
  }

  lemma BareKernel(m0: Phys, m: Phys, roots: map<nat, nat>, cur: nat, child: nat)
    requires cur in roots && child in roots
    requires forall v: nat :: v < USER_END ==> !Leaf(m.mem, roots[child], v).perm.p
    ensures KernelInv(m0, m, roots, cur, child, KERNEL_FIRST)
  {
    hide Leaf;
  }

  // ---- One fork ----

  /** A fork of `pid` into `child` has come to page `vpn`, with memory `m` and the child's tree at `f`. */
  ghost predicate Underway(s: State, m: Phys, role: Roles, pid: nat, child: nat, f: nat, vpn: nat)
    requires Running(s, pid)
  {
    var roots := Roots(s.procs)[child := f];
    && child < PID_MAX && s.procs[child].FreeSlot?
    && ForkInv(s.m, m, roots, role, child, None) && UserInv(s.m, m, roots, pid, child, vpn)
  }

  /** The copying of a victim's memory, with the right count and with the shifted one. */
  lemma ForkPieces(s: State, role: Roles, pid: nat, p: nat, k: nat, end: nat)
    returns (f: nat, mt: Phys, rolet: Roles)
    requires Victim(s, role, pid, p) && s.m.rc[p] >= 1 && STACK <= end <= USER_END
    requires s.m.rc[p] + k + (if end > STACK then 1 else 0) < 256
    ensures var child, root := FindSlot(s.procs, 1).value, s.procs[pid].root;
            && Underway(s, mt, rolet, pid, child, f, end)
            && SysFork(ShiftState(s, p, k), pid) == ForkEnd(s, child, f, CopyUser(Shift(mt, p, k), root, f, end))
            && CopyUser(mt, root, f, end).Ok? && SysFork(s, pid) == ForkEnd(s, child, f, CopyUser(mt, root, f, end))
  {
    hide Good, CopyAll, CopyUser, ForkInv, UserInv, ForkEnd, FreeCount, Shares, Leaf, SysFork, ForkPages;
    var child := FindSlot(s.procs, 1).value;
    FindFreeCount(s.m);
    f := FindFree(s.m, 0).value;
    ForkIs(s, pid);
    ForkIsShifted(s, pid, p, k);
    var m1, role1 := ForkStart(s, role, child, f);
    ForkCount(s, role, pid, child, f);
    var roots := Roots(s.procs)[child := f];
    mt, rolet := ShiftAll(s.m, m1, roots, role1, pid, child, end, p, k);
  }

  lemma ForkIsShifted(s: State, pid: nat, p: nat, k: nat)
    requires Running(s, pid) && FindSlot(s.procs, 1).Some? && FindFree(s.m, 0).Some? && BothCounted(s.m, p, k)
    ensures var child, f := FindSlot(s.procs, 1).value, FindFree(s.m, 0).value;
            var m1 := Phys(s.m.kend, s.m.mem[f := ZeroPage()], s.m.rc[f := 1]);
            SysFork(ShiftState(s, p, k), pid) == ForkEnd(s, child, f, CopyAll(Shift(m1, p, k), s.procs[pid].root, f))
  {
    hide CopyAll, FreePagetable, SysFork;
    ShiftFind(s.m, p, k, 0);
    ForkIs(ShiftState(s, p, k), pid);
    var f := FindFree(s.m, 0).value;
    var m1 := Phys(s.m.kend, s.m.mem[f := ZeroPage()], s.m.rc[f := 1]);
    assert Shift(m1, p, k).rc == Shift(s.m, p, k).rc[f := 1];
  }

  /** As long as the count does not wrap around, the fork with the shifted count is the fork. */
  lemma ShiftFork(s: State, role: Roles, pid: nat, p: nat, k: nat) returns (f: nat, mt: Phys, rolet: Roles)
    requires Victim(s, role, pid, p) && s.m.rc[p] >= 1 && s.m.rc[p] + k + 1 < 256
    ensures var child := FindSlot(s.procs, 1).value;
            && Underway(s, mt, rolet, pid, child, f, USER_END)
            && SysFork(ShiftState(s, p, k), pid) == Ret(child, ShiftState(State(mt, s.procs[child := Live(f)]), p, k))
            && SysFork(s, pid) == Ret(child, State(mt, s.procs[child := Live(f)]))
  {
    hide Good, Underway, SysFork, Shares, FreeCount, ForkPages;
    f, mt, rolet := ForkPieces(s, role, pid, p, k, USER_END);
  }

  // ---- The child asks for the shared page's address ----

  /** The child's own entry for the shared page, once it is copied. */
  lemma ChildShares(m0: Phys, m: Phys, roots: map<nat, nat>, role: Roles, cur: nat, child: nat, end: nat, p: nat)
    requires ForkInv(m0, m, roots, role, child, None) && cur in roots && child in roots && cur != child
    requires UserInv(m0, m, roots, cur, child, end) && STACK <= end <= USER_END
    requires p < NPAGES && Shares(m0.mem, roots[cur], p)
    ensures Shares(m.mem, roots[cur], p)
    ensures Leaf(m.mem, roots[child], SHARED).perm == READ_ONLY && Leaf(m.mem, roots[child], SHARED).frame == p
    ensures Good(m, roots, role) && role[p].Data? && !role[p].w && role[p].users.Keys >= {cur, child}
    ensures m.rc[p] as int == m0.rc[p] as int + 1 && m0.rc[p] >= 1 && Allocatable(m.kend, p)
  {
    hide Good, Leaf, LeafOk;
    ParentLeaves(m0, m, roots, role, cur, child);
    assert Copied(m0, m, roots[cur], roots[child], SHARED);
    UsersOfShared(m, roots, role, cur, p);
    UsersOfShared(m, roots, role, child, p);
  }

  lemma ParentLeaves(m0: Phys, m: Phys, roots: map<nat, nat>, role: Roles, cur: nat, child: nat)
    requires ForkInv(m0, m, roots, role, child, None) && cur in roots && cur != child
    ensures Leaf(m.mem, roots[cur], SHARED) == Leaf(m0.mem, roots[cur], SHARED)
    ensures Leaf(m.mem, roots[cur], STACK) == Leaf(m0.mem, roots[cur], STACK)
  {
    hide Good, Leaf;
  }

  /** A process with a read-only leaf for `p` is among the users of `p`. */
  lemma UsersOfShared(m: Phys, roots: map<nat, nat>, role: Roles, pid: nat, p: nat)
    requires Good(m, roots, role) && pid in roots && p < NPAGES
    requires Leaf(m.mem, roots[pid], SHARED).perm == READ_ONLY && Leaf(m.mem, roots[pid], SHARED).frame == p
    ensures role[p].Data? && !role[p].w && pid in role[p].users && Allocatable(m.kend, p)
  {
    hide Leaf;
    ItLeaf(m, roots, role, pid, SHARED);
  }

  /** What is left when the child's mapping of the shared page is replaced: its count is one too high. */
  lemma AllocDrops(m0: Phys, s: State, role: Roles, cur: nat, child: nat, p: nat) returns (s2: State, role2: Roles)
    requires Running(s, cur) && Running(s, child) && cur != child
    requires ForkInv(m0, s.m, Roots(s.procs), role, child, None)
    requires UserInv(m0, s.m, Roots(s.procs), cur, child, USER_END)
    requires p < NPAGES && Shares(m0.mem, s.procs[cur].root, p) && FreeCount(s.m) > 0
    ensures SHARED * PAGESIZE < VA_END && s2.procs == s.procs
    ensures SysPageAlloc(s, child, SHARED * PAGESIZE) == Ret(0, ShiftState(s2, p, 1))
    ensures ForkInv(m0, s2.m, Roots(s.procs), role2, child, None) && s2.m.rc[p] == m0.rc[p] >= 1
  {
    hide Good, ForkInv, UserInv, SysPageAlloc, FreeCount, Leaf, FindFree, Shares, SetEntry, Shift;
    var roots := Roots(s.procs);
    ChildShares(m0, s.m, roots, role, cur, child, USER_END, p);
    FindFreeCount(s.m);
    var f := FindFree(s.m, 0).value;
    var g := AllocOver(s, role, child, SHARED);
    var m2 := Phys(s.m.kend, s.m.mem[f := ZeroPage()], s.m.rc[f := 1]);
    AllocStart(s, role, f);
    assert Leaf(m2.mem, roots[child], SHARED) == Leaf(s.m.mem, roots[child], SHARED);
    LeakedForkInv(m0, s.m, roots, role, child, f, m2);
    var m4;
    m4, role2 := Replaced(m0, m2, roots, role, child, g, f, p);
    s2 := State(m4, s.procs);
  }

  /** The child's entry for the shared page replaced by one for page `f`. */
  lemma Replaced(m0: Phys, m: Phys, roots: map<nat, nat>, role: Roles, child: nat, g: nat, f: nat, p: nat)
    returns (m': Phys, role': Roles)
    requires ForkInv(m0, m, roots, role, child, Some(f)) && SlotAt(m, roots, role, child, SHARED, g)
    requires p < NPAGES && Leaf(m.mem, roots[child], SHARED).perm.p && Leaf(m.mem, roots[child], SHARED).frame == p
    requires m.rc[p] >= 2 && m0.rc[p] >= 1 && f < NPAGES && role[f] == Unused && m.rc[f] == 1 && m0.rc[f] == 0
    requires Allocatable(m.kend, f)
    ensures Shift(m', p, 1) == Phys(m.kend, SetEntry(m.mem, g, SHARED % ENTRIES, EntryWord(f, ALL_PERM)), m.rc)
    ensures ForkInv(m0, m', roots, role', child, None) && m'.rc[p] == m0.rc[p]
  {
    hide Good, ForkInv, Leaf, Node, SetEntry;
    var m3, role3 := DropShared(m0, m, roots, role, child, g, f, p);
    FreshLeaf(m0, m3, roots, role3, child, SHARED, g, f);
    role' := Mapped(role3, child, SHARED, f, true);
    m' := Phys(m3.kend, SetEntry(m3.mem, g, SHARED % ENTRIES, EntryWord(f, ALL_PERM)), m3.rc);
    Overwritten(m.mem, g, SHARED % ENTRIES, EntryWord(f, ALL_PERM));
    assert Shift(m', p, 1).rc == m.rc;
  }

  lemma Overwritten(mem: Memory, g: nat, i: nat, e: Word)
    requires g < NPAGES && i < ENTRIES
    ensures SetEntry(SetEntry(mem, g, i, ZERO), g, i, e) == SetEntry(mem, g, i, e)
  {
    assert mem[g][i := ZERO][i := e] == mem[g][i := e];
  }

  /** Taking a free page during the copying, as long as it has no place yet. */
  lemma LeakedForkInv(m0: Phys, m: Phys, roots: map<nat, nat>, role: Roles, child: nat, f: nat, m2: Phys)
    requires ForkInv(m0, m, roots, role, child, None) && Good(m2, roots, role) && SameLeaves(m.mem, m2.mem, roots)
    requires f < NPAGES && m.rc[f] == 0 && role[f] == Unused
    requires m2 == Phys(m.kend, m.mem[f := ZeroPage()], m.rc[f := 1])
    ensures ForkInv(m0, m2, roots, role, child, Some(f)) && m0.rc[f] == 0
  {
    hide Good, Leaf;
  }

  lemma DropShared(m0: Phys, m: Phys, roots: map<nat, nat>, role: Roles, child: nat, g: nat, f: nat, p: nat)
    returns (m3: Phys, role3: Roles)
    requires ForkInv(m0, m, roots, role, child, Some(f)) && SlotAt(m, roots, role, child, SHARED, g)
    requires p < NPAGES && Leaf(m.mem, roots[child], SHARED).perm.p && Leaf(m.mem, roots[child], SHARED).frame == p
    requires m.rc[p] >= 2 && m0.rc[p] >= 1 && f < NPAGES && role[f] == Unused && m.rc[f] == 1 && m0.rc[f] == 0
    ensures m3 == Phys(m.kend, SetEntry(m.mem, g, SHARED % ENTRIES, ZERO), m.rc[p := m.rc[p] - 1])
    ensures ForkInv(m0, m3, roots, role3, child, Some(f)) && SlotAt(m3, roots, role3, child, SHARED, g)
    ensures !Leaf(m3.mem, roots[child], SHARED).perm.p && role3[f] == Unused && m3.rc[f] == 1 && m3.rc[p] == m0.rc[p]
  {
    hide Good, Leaf, Node, ForkInv;
    UnsharedGood(m, roots, role, child, SHARED, g);
    OldPage(m, roots, role, child, SHARED, g);
    LeafWritten(m, roots, role, child, SHARED, g, ZERO);
    LeafTrees(m, roots, role, child, SHARED, g, ZERO, child, PagePath(SHARED));
    m3 := Phys(m.kend, SetEntry(m.mem, g, SHARED % ENTRIES, ZERO), m.rc[p := m.rc[p] - 1]);
    role3 := Unshared(role, child, p);
    assert Leaf(m3.mem, roots[child], SHARED) == ZERO;
    DroppedForkInv(m0, m, roots, role, child, g, f, p);
  }

  lemma DroppedForkInv(m0: Phys, m: Phys, roots: map<nat, nat>, role: Roles, child: nat, g: nat, f: nat, p: nat)
    requires ForkInv(m0, m, roots, role, child, Some(f)) && p < NPAGES && g < NPAGES
    requires role[g].Table? && role[g].pid == child && role[p].Data? && child in role[p].users && p != f
    requires m.rc[p] >= 2 && m0.rc[p] >= 1
    requires var mem' := SetEntry(m.mem, g, SHARED % ENTRIES, ZERO);
             && LeavesAfter(m.mem, mem', roots, child, SHARED, ZERO)
             && Good(Phys(m.kend, mem', m.rc[p := m.rc[p] - 1]), roots, Unshared(role, child, p))
    ensures ForkInv(m0, Phys(m.kend, SetEntry(m.mem, g, SHARED % ENTRIES, ZERO), m.rc[p := m.rc[p] - 1]), roots,
                    Unshared(role, child, p), child, Some(f))
    ensures m.rc[p] - 1 == m0.rc[p] as int
  {
    hide Good, Leaf;
  }

  // ---- One round: fork, page_alloc in the child, exit of the child ----

  function Round(pid: nat, child: nat): seq<Event> {
    [Fork(pid), PageAlloc(child, SHARED * PAGESIZE), Exit(child)]
  }

  lemma ThreeSteps(s: State, e1: Event, s1: State, e2: Event, s2: State, e3: Event, s3: State)
    requires Step(s, e1) == Some(s1) && Step(s1, e2) == Some(s2) && Step(s2, e3) == Some(s3)
    ensures Steps(s, [e1, e2, e3], s3)
  {
    hide Step;
    TwoMore(s1, e2, s2, e3, s3);
    assert [e1, e2, e3][1..] == [e2, e3];
  }

  lemma TwoMore(s: State, e1: Event, s1: State, e2: Event, s2: State)
    requires Step(s, e1) == Some(s1) && Step(s1, e2) == Some(s2)
    ensures Steps(s, [e1, e2], s2)
  {
    hide Step;
    assert [e2][1..] == [];
    assert Steps(s1, [e2], s2);
    assert [e1, e2][1..] == [e2];
  }

  /** Freeing a child's pages leaves the counts from before the fork. */
  lemma FreedIs(m0: Phys, m: Phys, roots: map<nat, nat>, role: Roles, child: nat)
    requires child in roots && ForkInv(m0, m, roots, role, child, None)
    ensures var r := Phys(m.kend, m.mem, m0.rc);
            FreePagetable(m, roots[child]) == r && Good(r, roots - {child}, DropRoles(role, child))
  {
    hide Good, ForkInv, FreePagetable;
    ForkUndone(m0, m, roots, role, child, None);
    FreeLowers(m, roots[child]);
    assert FreePagetable(m, roots[child]).rc == m0.rc;
  }

  /** The child's exit gives back what the child has, but for the count that is one too high. */
  lemma ExitDrops(m0: Phys, s: State, role: Roles, child: nat, p: nat, k: nat) returns (s3: State, role3: Roles)
    requires Running(s, child) && ForkInv(m0, s.m, Roots(s.procs), role, child, None)
    requires BothCounted(s.m, p, k) && m0.rc[p] >= 1
    ensures SysExit(ShiftState(s, p, k), child) == ShiftState(s3, p, k)
    ensures s3 == State(Phys(s.m.kend, s.m.mem, m0.rc), s.procs[child := FreeSlot]) && Safe(s3, role3)
  {
    hide Good, FreePagetable, Shift;
    FreedIs(m0, s.m, Roots(s.procs), role, child);
    ShiftFree(s.m, s.procs[child].root, p, k);
    s3 := State(Phys(s.m.kend, s.m.mem, m0.rc), s.procs[child := FreeSlot]);
    role3 := DropRoles(role, child);
    RootsWithout(s, child);
  }

  lemma RootsWithout(s: State, child: nat)
    requires Running(s, child)
    ensures Roots(s.procs[child := FreeSlot]) == Roots(s.procs) - {child}
  {
  }

  /** A process with the same entries needs as many pages for a fork. */
  lemma SameNeeds(s: State, s': State, pid: nat)
    requires Running(s, pid) && s'.procs == s.procs
    requires forall v: nat :: v < USER_END ==> Leaf(s'.m.mem, s.procs[pid].root, v) == Leaf(s.m.mem, s.procs[pid].root, v)
    ensures ForkPages(s', pid) == ForkPages(s, pid)
  {
    hide Leaf;
    var root := s.procs[pid].root;
    assert Writables(s'.m.mem, root, 0, USER_END) == Writables(s.m.mem, root, 0, USER_END);
    SameFirst(s.m.mem, s'.m.mem, root, HIGH_FIRST);
  }

  lemma {:induction false} SameFirst(mem: Memory, mem': Memory, root: nat, v: nat)
    requires forall u: nat :: u < USER_END ==> Leaf(mem', root, u) == Leaf(mem, root, u)
    ensures FirstData(mem', root, v) == FirstData(mem, root, v)
    decreases USER_END - v
  {
    hide Leaf;
    if v < USER_END { SameFirst(mem, mem', root, v + 1); }
  }

  /** The fork and the page_alloc of a round. */
  lemma ForkThenAlloc(s: State, role: Roles, pid: nat, p: nat, k: nat) returns (f: nat, s1: State, s2: State, role2: Roles)
    requires Victim(s, role, pid, p) && s.m.rc[p] >= 1 && s.m.rc[p] + k + 1 < 256
    ensures var child := FindSlot(s.procs, 1).value;
            && SysFork(ShiftState(s, p, k), pid) == Ret(child, ShiftState(s1, p, k)) && s1.procs == s2.procs
            && SHARED * PAGESIZE < VA_END
            && SysPageAlloc(ShiftState(s1, p, k), child, SHARED * PAGESIZE) == Ret(0, ShiftState(s2, p, k + 1))
            && s2.procs == s.procs[child := Live(f)] && s2.m.rc[p] == s.m.rc[p]
            && ForkInv(s.m, s2.m, Roots(s2.procs), role2, child, None)
  {
    hide Good, ForkInv, UserInv, SysFork, SysPageAlloc, FreeCount, ForkPages, Shares, Leaf;
    var child := FindSlot(s.procs, 1).value;
    ForkSucceeds(s, role, pid);
    var mt, rolet;
    f, mt, rolet := ShiftFork(s, role, pid, p, k);
    s1 := State(mt, s.procs[child := Live(f)]);
    assert Roots(s1.procs) == Roots(s.procs)[child := f];
    ChildShares(s.m, mt, Roots(s1.procs), rolet, pid, child, USER_END, p);
    s2, role2 := AllocDrops(s.m, s1, rolet, pid, child, p);
    ShiftAlloc(s1, child, SHARED * PAGESIZE, p, k);
    ShiftTwice(s2, p, k);
  }

  lemma RoundSteps(s: State, pid: nat, child: nat, s1: State, s2: State)
    requires Running(s, pid) && SysFork(s, pid) == Ret(child, s1) && Running(s1, child) && SHARED * PAGESIZE < VA_END
    requires SysPageAlloc(s1, child, SHARED * PAGESIZE) == Ret(0, s2) && Running(s2, child)
    ensures Steps(s, Round(pid, child), SysExit(s2, child))
  {
    hide SysFork, SysPageAlloc, SysExit, Steps;
    ThreeSteps(s, Fork(pid), s1, PageAlloc(child, SHARED * PAGESIZE), s2, Exit(child), SysExit(s2, child));
  }

  /** After a round the victim is as before, but its page is counted once more. */
  lemma OneRound(s: State, role: Roles, pid: nat, p: nat, k: nat) returns (s3: State, role3: Roles)
    requires Victim(s, role, pid, p) && s.m.rc[p] >= 1 && s.m.rc[p] + k + 1 < 256
    ensures Victim(s3, role3, pid, p) && s3.procs == s.procs && s3.m.rc == s.m.rc
    ensures Steps(ShiftState(s, p, k), Round(pid, FindSlot(s.procs, 1).value), ShiftState(s3, p, k + 1))
  {
    hide Victim, ForkInv, SysFork, SysPageAlloc, SysExit, Steps, Round, Shift;
    VictimCounted(s, role, pid, p);
    var child := FindSlot(s.procs, 1).value;
    var f, s1, s2, role2 := ForkThenAlloc(s, role, pid, p, k);
    s3, role3 := ExitDrops(s.m, s2, role2, child, p, k + 1);
    RoundSteps(ShiftState(s, p, k), pid, child, ShiftState(s1, p, k), ShiftState(s2, p, k + 1));
    VictimStill(s, role, pid, p, child, f, s2, role2, s3, role3);
  }

  lemma ShiftTwice(s: State, p: nat, k: nat)
    requires BothCounted(s.m, p, k + 1)
    ensures ShiftState(ShiftState(s, p, 1), p, k) == ShiftState(s, p, k + 1)
  {
    assert Shift(Shift(s.m, p, 1), p, k).rc == Shift(s.m, p, k + 1).rc;
  }

  lemma VictimStill(s: State, role: Roles, pid: nat, p: nat, child: nat, f: nat, s2: State, role2: Roles, s3: State, role3: Roles)
    requires Victim(s, role, pid, p) && FindSlot(s.procs, 1) == Some(child) && Safe(s3, role3)
    requires s2.procs == s.procs[child := Live(f)] && ForkInv(s.m, s2.m, Roots(s2.procs), role2, child, None)
    requires s3 == State(Phys(s2.m.kend, s2.m.mem, s.m.rc), s2.procs[child := FreeSlot])
    ensures Victim(s3, role3, pid, p) && s3.procs == s.procs && s3.m.rc == s.m.rc
  {
    hide Good, FreeCount, ForkPages, Leaf;
    assert s3.procs == s.procs;
    assert pid in Roots(s2.procs) && pid != child;
    SameNeeds(s, s3, pid);
    SameCount(s.m, s3.m);
  }

  function Rounds(n: nat, pid: nat, child: nat): seq<Event> {
    if n == 0 then [] else Round(pid, child) + Rounds(n - 1, pid, child)
  }

  lemma {:induction false} ManyRounds(s: State, role: Roles, pid: nat, p: nat, k: nat, n: nat)
    returns (s': State, role': Roles)
    requires Victim(s, role, pid, p) && s.m.rc[p] >= 1 && s.m.rc[p] + k + n < 256
    ensures Victim(s', role', pid, p) && s'.procs == s.procs && s'.m.rc == s.m.rc
    ensures Steps(ShiftState(s, p, k), Rounds(n, pid, FindSlot(s.procs, 1).value), ShiftState(s', p, k + n))
    decreases n
  {
    hide Victim, Steps, Round;
    s', role' := s, role;
    VictimCounted(s, role, pid, p);
    if n > 0 {
      var s1, role1 := OneRound(s, role, pid, p, k);
      var child := FindSlot(s.procs, 1).value;
      s', role' := ManyRounds(s1, role1, pid, p, k + 1, n - 1);
      StepsTogether(ShiftState(s, p, k), Round(pid, child), ShiftState(s1, p, k + 1), Rounds(n - 1, pid, child),
                    ShiftState(s', p, k + n));
    } else {
      NoSteps(ShiftState(s, p, k));
    }
  }

  lemma NoSteps(s: State)
    ensures Steps(s, [], s)
  {
  }

  lemma VictimCounted(s: State, role: Roles, pid: nat, p: nat)
    requires Victim(s, role, pid, p)
    ensures FindSlot(s.procs, 1).Some? && p < NPAGES && 1 <= s.m.rc[p] < PID_MAX && Running(s, pid)
  {
    hide Good, Leaf, ItPerm, ItFrame, FreeCount, ForkPages, Walk;
    ItLeaf(s.m, Roots(s.procs), role, pid, SHARED);
    var child := FindSlot(s.procs, 1).value;
    PageCount(s.m, Roots(s.procs), role, p);
    assert child !in Roots(s.procs);
    AbsentUser(s, role, p, child);
    UserBound(s.m, Roots(s.procs), role, p, child);
  }

  lemma AbsentUser(s: State, role: Roles, p: nat, child: nat)
    requires Safe(s, role) && p < NPAGES && role[p].Data? && child !in Roots(s.procs)
    ensures child !in role[p].users
  {
    hide Leaf;
  }

  // ---- The fork in which the count wraps around ----

  /** What a process sees at the shared page. */
  predicate SeesShared(mem: Memory, root: nat, p: nat) {
    IsUserPage(ItPerm(mem, root, SHARED), SHARED) && ItFrame(mem, root, SHARED) == p
  }

  lemma FreeNow(m: Phys, p: nat)
    requires p < NPAGES && Allocatable(m.kend, p) && m.rc[p] == 0
    ensures FindFree(m, 0).Some? && FindFree(m, 0).value < NPAGES && m.rc[FindFree(m, 0).value] == 0
  {
    assert Free(m, p);
  }

  /** The page taken is no table, and not the stack page itself. */
  lemma NotTaken(m: Phys, roots: map<nat, nat>, role: Roles, cur: nat, p: nat, k: nat, f: nat)
    requires Good(m, roots, role) && cur in roots && Leaf(m.mem, roots[cur], STACK).perm == ALL_PERM
    requires p < NPAGES && role[p].Data? && !role[p].w && f < NPAGES && Shift(m, p, k).rc[f] == 0
    ensures var q := Leaf(m.mem, roots[cur], STACK).frame;
            !role[f].Table? && q < NPAGES && q != f
  {
    ItLeaf(m, roots, role, cur, STACK);
    var q := Leaf(m.mem, roots[cur], STACK).frame;
    PageCount(m, roots, role, q);
    PageCount(m, roots, role, f);
  }

  /** The copy made, its place in the child's tree is there already. */
  lemma StackTarget(m: Phys, roots: map<nat, nat>, role: Roles, child: nat, f: nat, page: Page) returns (g: nat)
    requires Good(m, roots, role) && child in roots && Leaf(m.mem, roots[child], SHARED).perm.p
    requires f < NPAGES && !role[f].Table?
    ensures var m2 := Phys(m.kend, m.mem[f := page], m.rc);
            && SlotAt(m2, roots, role, child, STACK, g) && SameLeaves(m.mem, m2.mem, roots)
            && WalkPage(m2.mem, roots[child], STACK) == Walked(Slot(g, STACK % ENTRIES), PAGEOFFBITS, ALL_PERM)
  {
    hide Good, Walk;
    var m2 := Phys(m.kend, m.mem[f := page], m.rc);
    PageWriteGood(m, roots, role, f, page);
    assert Leaf(m2.mem, roots[child], SHARED).perm.p;
    PagePathTo(STACK);
    WalkToLeaf(m2.mem, roots[child], STACK * PAGESIZE);
    ItLeaf(m2, roots, role, child, STACK);
    g := Node(m2.mem, roots[child], PagePath(STACK)).value;
    WalkFacts(m2, roots, role, child, STACK * PAGESIZE);
    GoodTree(m2, roots, role, child);
  }

  lemma StackCopyIs(m: Phys, roots: map<nat, nat>, role: Roles, cur: nat, child: nat, p: nat, k: nat, f: nat, g: nat)
    requires Good(m, roots, role) && cur in roots && child in roots && Leaf(m.mem, roots[cur], STACK).perm == ALL_PERM
    requires p < NPAGES && f < NPAGES && !role[f].Table? && g < NPAGES
    requires FindFree(Shift(m, p, k), 0) == Some(f) && Shift(m, p, k).rc[f] == 0
    requires Leaf(m.mem, roots[cur], STACK).frame < NPAGES && Leaf(m.mem, roots[cur], STACK).frame != f
    requires var mem2 := m.mem[f := m.mem[Leaf(m.mem, roots[cur], STACK).frame]];
             WalkPage(mem2, roots[child], STACK) == Walked(Slot(g, STACK % ENTRIES), PAGEOFFBITS, ALL_PERM)
    ensures var R := Shift(m, p, k);
            var mem2 := m.mem[f := m.mem[Leaf(m.mem, roots[cur], STACK).frame]];
            CopyUserPage(R, roots[cur], roots[child], STACK)
            == Ok(Phys(m.kend, SetEntry(mem2, g, STACK % ENTRIES, EntryWord(f, ALL_PERM)), R.rc[f := 1]))
  {
    hide Good, Leaf, FindFree, ItPerm, ItFrame, MapPage, WalkPage;
    var R := Shift(m, p, k);
    var q := Leaf(m.mem, roots[cur], STACK).frame;
    ItLeaf(m, roots, role, cur, STACK);
    PageWriteGood(m, roots, role, f, FillPage());
    ItLeaf(Phys(m.kend, m.mem[f := FillPage()], m.rc), roots, role, cur, STACK);
    assert m.mem[f := FillPage()][f := m.mem[q]] == m.mem[f := m.mem[q]];
    MapPageResult(Phys(m.kend, m.mem[f := m.mem[q]], R.rc[f := 1]), roots[child], STACK, f, ALL_PERM);
  }

  /** The copy of the stack page, into whichever page is free now: the shared page may be the one. */
  lemma StackCopied(m0: Phys, m: Phys, roots: map<nat, nat>, role: Roles, cur: nat, child: nat, p: nat, k: nat)
    requires ForkInv(m0, m, roots, role, child, None) && cur in roots && child in roots && cur != child
    requires UserInv(m0, m, roots, cur, child, STACK) && p < NPAGES && Shares(m0.mem, roots[cur], p)
    requires m.rc[p] + k == 256
    ensures var r := CopyUser(Shift(m, p, k), roots[cur], roots[child], STACK);
            && r.Ok? && r.m.rc[p] <= 1 && r.m.kend == m.kend && Allocatable(m.kend, p)
            && SeesShared(r.m.mem, roots[cur], p) && SeesShared(r.m.mem, roots[child], p)
  {
    hide Good, ForkInv, UserInv, Leaf, FindFree, ItPerm, ItFrame, CopyUserPage, WalkPage;
    var R := Shift(m, p, k);
    ChildShares(m0, m, roots, role, cur, child, STACK, p);
    FreeNow(R, p);
    var f := FindFree(R, 0).value;
    NotTaken(m, roots, role, cur, p, k, f);
    var page := m.mem[Leaf(m.mem, roots[cur], STACK).frame];
    var g := StackTarget(m, roots, role, child, f, page);
    StackCopyIs(m, roots, role, cur, child, p, k, f, g);
    var m2 := Phys(m.kend, m.mem[f := page], m.rc);
    StillSeen(m2, roots, role, child, g, f, cur, p);
    StillSeen(m2, roots, role, child, g, f, child, p);
  }

  /** A new entry for the stack page does not change what is seen at the shared page. */
  lemma StillSeen(m: Phys, roots: map<nat, nat>, role: Roles, child: nat, g: nat, f: nat, q: nat, p: nat)
    requires SlotAt(m, roots, role, child, STACK, g) && q in roots
    requires Leaf(m.mem, roots[q], SHARED).perm == READ_ONLY && Leaf(m.mem, roots[q], SHARED).frame == p
    ensures SeesShared(SetEntry(m.mem, g, STACK % ENTRIES, EntryWord(f, ALL_PERM)), roots[q], p)
  {
    hide Good, Translate, Leaf, ItPerm, ItFrame;
    PagePathTo(STACK);
    PagePathTo(SHARED);
    OneLeafChanged(m, roots, role, child, STACK * PAGESIZE, g, f, q, SHARED * PAGESIZE);
    SameTranslation(m.mem, SetEntry(m.mem, g, STACK % ENTRIES, EntryWord(f, ALL_PERM)), roots[q], SHARED);
    ItLeaf(m, roots, role, q, SHARED);
  }

  // ---- The exit after it ----

  /** Freeing the child's pages brings the count of the shared page, if it is not zero yet, to zero. */
  lemma {:induction false} SharedFreed(m: Phys, root: nat, vpn: nat, p: nat)
    requires p < NPAGES && Allocatable(m.kend, p) && m.rc[p] <= 1 && vpn <= SHARED && SeesShared(m.mem, root, p)
    ensures FreeUser(m, root, vpn).rc[p] == 0
    decreases SHARED - vpn
  {
    hide ItPerm, ItFrame;
    var m1 := FreeUserPage(m, root, vpn);
    if vpn < SHARED {
      SharedFreed(m1, root, vpn + 1, p);
    } else {
      FreeUserLowers(m1, root, vpn + 1);
    }
  }

  lemma ExitFrees(s: State, child: nat, p: nat)
    requires Running(s, child) && p < NPAGES && Allocatable(s.m.kend, p) && s.m.rc[p] <= 1
    requires SeesShared(s.m.mem, s.procs[child].root, p)
    ensures var s' := SysExit(s, child);
            Free(s'.m, p) && s'.m.mem == s.m.mem && s'.procs == s.procs[child := FreeSlot]
  {
    hide ItPerm, ItFrame, FreePagetable, FreeUser;
    SharedFreed(s.m, s.procs[child].root, 0, p);
    FreeLowers(s.m, s.procs[child].root);
  }

  /** The fork that takes the count from 255 to 0, and the child's exit. */
  lemma LastFork(s: State, role: Roles, pid: nat, p: nat) returns (s': State)
    requires Victim(s, role, pid, p)
    ensures 1 <= s.m.rc[p] <= 255
    ensures var child := FindSlot(s.procs, 1).value;
            Steps(ShiftState(s, p, 255 - s.m.rc[p]), [Fork(pid), Exit(child)], s')
    ensures s'.procs == s.procs && Free(s'.m, p) && UserMaps(s', pid, SHARED, p)
  {
    hide Good, ForkInv, UserInv, SysFork, SysExit, Leaf, CopyUser, ItPerm, ItFrame, FreeCount, ForkPages, Shares;
    VictimCounted(s, role, pid, p);
    var k: nat := 255 - s.m.rc[p];
    var child := FindSlot(s.procs, 1).value;
    var f, mt, rolet := ForkPieces(s, role, pid, p, k, STACK);
    var roots := Roots(s.procs)[child := f];
    ChildShares(s.m, mt, roots, rolet, pid, child, STACK, p);
    StackCopied(s.m, mt, roots, rolet, pid, child, p, k);
    var s1 := SysFork(ShiftState(s, p, k), pid).s;
    ExitFrees(s1, child, p);
    s' := SysExit(s1, child);
    assert s'.procs == s.procs;
    TwoMore(ShiftState(s, p, k), Fork(pid), s1, Exit(child), s');
  }

  /** The whole run: after enough rounds and one fork and exit more the page is free, although process
      `pid` maps it as before. */
  lemma CountWraps(s: State, role: Roles, pid: nat, p: nat) returns (s': State)
    requires Victim(s, role, pid, p)
    ensures s.m.rc[p] < 256
    ensures var child := FindSlot(s.procs, 1).value;
            Steps(s, Rounds(255 - s.m.rc[p], pid, child) + [Fork(pid), Exit(child)], s')
    ensures s'.procs == s.procs && Free(s'.m, p) && UserMaps(s', pid, SHARED, p) && !CountsExact(s')
  {
    hide Victim, Steps, Free, ItPerm, ItFrame;
    VictimCounted(s, role, pid, p);
    var n: nat := 255 - s.m.rc[p];
    var child := FindSlot(s.procs, 1).value;
    var s1, role1 := ManyRounds(s, role, pid, p, 0, n);
    assert ShiftState(s, p, 0).m.rc == s.m.rc;
    s' := LastFork(s1, role1, pid, p);
    StepsTogether(s, Rounds(n, pid, child), ShiftState(s1, p, n), [Fork(pid), Exit(child)], s');
    Uncounted(s', pid, p);
  }

  lemma Uncounted(s: State, pid: nat, p: nat)
    requires Running(s, pid) && Free(s.m, p) && UserMaps(s, pid, SHARED, p)
    ensures !CountsExact(s)
  {
    assert (pid, SHARED) in UserRefs(s, p);
  }

  // ---- From boot ----

  const IMAGE := [(SHARED, false)]

  lemma ImagePages(v: nat)
    ensures ImageEntry(IMAGE + [(USER_END - 1, true)], v)
         == if v == STACK then Some(true) else if v == SHARED then Some(false) else None
    ensures UserPages(IMAGE)
  {
    var all := IMAGE + [(USER_END - 1, true)];
    assert all == [(SHARED, false), (STACK, true)];
    assert all[1..] == [(STACK, true)] && all[1..][1..] == [];
    assert ImageEntry(all[1..][1..], v) == None;
    assert ImageEntry(all[1..], v) == if v == STACK then Some(true) else None;
  }

  /** The program with that image shares a page with each child, and takes six pages for a fork. */
  lemma ImageShares(mem: Memory, root: nat)
    requires Loaded(mem, root, IMAGE + [(USER_END - 1, true)])
    ensures Shares(mem, root, Leaf(mem, root, SHARED).frame)
    ensures |Writables(mem, root, 0, USER_END)| <= 1
  {
    hide Leaf;
    forall v: nat | v < USER_END
      ensures MapsWritable(mem, root, v) ==> v == STACK
    {
      ImagePages(v);
    }
    ImagePages(STACK);
    ImagePages(SHARED);
    assert Writables(mem, root, 0, USER_END) <= {STACK};
    SubsetCard(Writables(mem, root, 0, USER_END), {STACK});
  }

  /** From every boot state one program start, 254 rounds, a fork and an exit lead to a page that is free
      although the process maps it. */
  lemma WrapFromBoot(s: State) returns (n: nat, s1: State, s': State, p: nat)
    requires Boot(s)
    ensures n == 254
    ensures Steps(s, [Event.Start(1, IMAGE)] + Rounds(n, 1, 2) + [Fork(1), Exit(2)], s')
    ensures Running(s', 1) && Free(s'.m, p) && UserMaps(s', 1, SHARED, p) && !CountsExact(s')
  {
    hide Victim, Steps, Free, UserMaps, CountsExact, Rounds, Step;
    var role1;
    s1, role1, p := BootVictim(s);
    s' := CountWraps(s1, role1, 1, p);
    n := 255 - s1.m.rc[p];
    OneOf(s, Event.Start(1, IMAGE), s1);
    StepsTogether(s, [Event.Start(1, IMAGE)], s1, Rounds(n, 1, 2) + [Fork(1), Exit(2)], s');
    Together([Event.Start(1, IMAGE)], Rounds(n, 1, 2), [Fork(1), Exit(2)]);
  }

  lemma Together(a: seq<Event>, b: seq<Event>, c: seq<Event>)
    ensures a + (b + c) == a + b + c
  {
  }

  lemma BootVictim(s: State) returns (s1: State, role1: Roles, p: nat)
    requires Boot(s)
    ensures Step(s, Event.Start(1, IMAGE)) == Some(s1) && Victim(s1, role1, 1, p) && s1.m.rc[p] == 1
    ensures p < NPAGES && Running(s1, 1) && FindSlot(s1.procs, 1) == Some(2)
  {
    hide Good, ProcessSetup, FreeCount, Loaded, Leaf, Writables, FirstData;
    BootPages(s);
    ImagePages(0);
    s1, role1 := StartFromBoot(s, IMAGE);
    p := Leaf(s1.m.mem, s1.procs[1].root, SHARED).frame;
    ImageShares(s1.m.mem, s1.procs[1].root);
    OnlyUser(s, s1, role1, p);
  }

  lemma OneOf(s: State, e: Event, s1: State)
    requires Step(s, e) == Some(s1)
    ensures Steps(s, [e], s1)
  {
    hide Step;
    assert [e][1..] == [];
  }

  /** The only process there is counts its page once. */
  lemma OnlyUser(s: State, s1: State, role: Roles, p: nat)
    requires Boot(s) && Safe(s1, role) && Running(s1, 1) && s1.procs == s.procs[1 := s1.procs[1]]
    requires Shares(s1.m.mem, s1.procs[1].root, p)
    ensures p < NPAGES && s1.m.rc[p] == 1
  {
    ItLeaf(s1.m, Roots(s1.procs), role, 1, SHARED);
    hide Leaf, ItPerm, ItFrame, Walk;
    PageCount(s1.m, Roots(s1.procs), role, p);
    var users := role[p].users;
    forall q | q in users ensures q == 1 { UserRuns(s1, role, p, q); }
    assert users.Keys == {1};
    assert |users| == |users.Keys|;
  }

  lemma UserRuns(s: State, role: Roles, p: nat, q: nat)
    requires Safe(s, role) && p < NPAGES && role[p].Data? && q in role[p].users
    ensures Running(s, q)
  {
    assert q in Roots(s.procs);
  }
}

/**
 Exactly when memory is sound after a successful `syscall_page_alloc` (weensyos/kernel.cc:406-431).  This
 is stated without roles: every mapped page is counted once for each mapping, and no process maps what
 it should not.  What pages a call loses is the subject of `AllocLeak`.
 */
module AllocExact {
  import opened Wrappers
  import opened Paging
  import opened PhysMem
  import opened TryMapTheory
  import opened Kernel
  import opened Invariant
  import opened Mapping
  import opened Copying
  import opened Forking
  import opened Calls
  import opened Allocation
  import opened Setup
  import opened Budget
  import opened StartCost
  import opened Runs
  import opened References

  /** Nothing is mapped beyond process memory, the kernel's pages are for the kernel only, and the
      console is where it belongs. */
  ghost predicate Confined(s: State, pid: nat)
    requires Running(s, pid)
  {
    var mem, root := s.m.mem, s.procs[pid].root;
    && (forall va: nat :: va < VA_END && Translate(mem, root, va).1.p ==> va / PAGESIZE < USER_END)
    && (forall v: nat :: KernelPage(v) ==> !ItPerm(mem, root, v).u)
    && (ItPerm(mem, root, CONSOLE_PAGE).p ==> ItFrame(mem, root, CONSOLE_PAGE) == CONSOLE_PAGE)
  }

  /** Every page that some process maps is counted once for each mapping. */
  ghost predicate CountsExact(s: State) {
    forall p: nat :: p < NPAGES && UserRefs(s, p) != {} ==> s.m.rc[p] == |UserRefs(s, p)|
  }

  ghost predicate MemorySound(s: State) {
    CountsExact(s) && forall pid: nat :: Running(s, pid) ==> Confined(s, pid)
  }

  // ---- Safe states are sound ----

  lemma PresentInside(m: Phys, roots: map<nat, nat>, role: Roles, pid: nat, va: nat)
    requires Good(m, roots, role) && pid in roots && va < VA_END && Translate(m.mem, roots[pid], va).1.p
    ensures va / PAGESIZE < USER_END
  {
    if Canonical(va) {
      WalkFacts(m, roots, role, pid, va);
      WalkEnd(m.mem, roots[pid], va);
      var w := Walk(m.mem, roots[pid], va);
      DepthPathTo(va, w.lbits);
      assert w.lbits == PAGEOFFBITS;
      LowAddress(va);
    }
  }

  /** An address below the table of process memory, from its last two indices. */
  lemma LowAddress(va: nat)
    requires va < VA_END && Canonical(va) && PathTo(va, PAGEOFFBITS).Sub? && PathTo(va, PAGEOFFBITS).up == LOW
    ensures va / PAGESIZE == PathTo(va, PAGEOFFBITS).i * ENTRIES + Index(va, PAGEOFFBITS)
  {
    PathIndices(va);
    TopIndex(va);
    DivSteps(va);
    assert va / 0x80_0000_0000 == 0;
  }

  lemma SafeConfined(s: State, role: Roles, pid: nat)
    requires Safe(s, role) && Running(s, pid)
    ensures Confined(s, pid)
  {
    hide Good, Translate, Leaf;
    forall va: nat | va < VA_END && Translate(s.m.mem, s.procs[pid].root, va).1.p ensures va / PAGESIZE < USER_END {
      PresentInside(s.m, Roots(s.procs), role, pid, va);
    }
    forall v: nat | KernelPage(v) ensures !ItPerm(s.m.mem, s.procs[pid].root, v).u {
      ItLeaf(s.m, Roots(s.procs), role, pid, v);
    }
    ItLeaf(s.m, Roots(s.procs), role, pid, CONSOLE_PAGE);
  }

  /** A mapped page has exactly its users' mappings. */
  lemma RefsAreUsers(s: State, role: Roles, p: nat)
    requires Safe(s, role) && p < NPAGES && UserRefs(s, p) != {}
    ensures s.m.rc[p] == |UserRefs(s, p)|
  {
    hide Good, Leaf, ItPerm, ItFrame;
    var x :| x in UserRefs(s, p);
    UserRole(s, role, x.0, x.1, p);
    var users := role[p].users;
    var image := set pid | pid in users :: (pid, users[pid]);
    forall r | r in UserRefs(s, p) ensures r in image { UserRole(s, role, r.0, r.1, p); }
    forall r | r in image ensures r in UserRefs(s, p) { UserMapsIt(s, role, r.0, p); }
    assert UserRefs(s, p) == image;
    GraphCard(users, users.Keys, image);
    PageCount(s.m, Roots(s.procs), role, p);
  }

  lemma UserMapsIt(s: State, role: Roles, pid: nat, p: nat)
    requires Safe(s, role) && p < NPAGES && role[p].Data? && pid in role[p].users
    ensures Running(s, pid) && role[p].users[pid] < USER_END && UserMaps(s, pid, role[p].users[pid], p)
  {
    assert MapsTo(s.m.mem, Roots(s.procs)[pid], role[p].users[pid], p);
    ItLeaf(s.m, Roots(s.procs), role, pid, role[p].users[pid]);
  }

  lemma SafeIsSound(s: State, role: Roles)
    requires Safe(s, role)
    ensures MemorySound(s)
  {
    hide Good, Confined, UserRefs;
    forall p: nat | p < NPAGES && UserRefs(s, p) != {} ensures s.m.rc[p] == |UserRefs(s, p)| {
      RefsAreUsers(s, role, p);
    }
    forall pid: nat | Running(s, pid) ensures Confined(s, pid) { SafeConfined(s, role, pid); }
  }

  // ---- What a successful call does to everyone's mappings ----

  lemma OneLeafChanged(m: Phys, roots: map<nat, nat>, role: Roles, pid: nat, addr: nat, g: nat, f: nat, q: nat, va: nat)
    requires Good(m, roots, role) && pid in roots && q in roots && addr < VA_END && Canonical(addr) && va < VA_END
    requires g < NPAGES && Node(m.mem, roots[pid], PathTo(addr, PAGEOFFBITS)) == Some(g)
    ensures var mem' := SetEntry(m.mem, g, Index(addr, PAGEOFFBITS), EntryWord(f, ALL_PERM));
            Translate(mem', roots[q], va)
            == if q == pid && va / PAGESIZE == addr / PAGESIZE then (Some(f * PAGESIZE + va % PAGESIZE), ALL_PERM)
               else Translate(m.mem, roots[q], va)
  {
    hide Translate, Walk;
    var mem' := SetEntry(m.mem, g, Index(addr, PAGEOFFBITS), EntryWord(f, ALL_PERM));
    GoodTree(m, roots, role, pid);
    assert role[g] == Table(pid, PathTo(addr, PAGEOFFBITS));
    if q == pid {
      WalkFacts(m, roots, role, pid, addr);
      WalkToLeaf(m.mem, roots[pid], addr);
      TranslateAfterLeaf(m.mem, roots[pid], addr, f, ALL_PERM, va);
    } else {
      GoodTree(m, roots, role, q);
      assert SameOnTree(m.mem, mem', roots[q]);
      WalkFrame(m.mem, mem', roots[q], va);
    }
  }

  /** A walk reaches the lowest level if there is a lowest-level table. */
  lemma WalkToLeaf(mem: Memory, root: nat, va: nat)
    requires Canonical(va) && Node(mem, root, PathTo(va, PAGEOFFBITS)).Some?
    ensures var w := Walk(mem, root, va);
            w.lbits == PAGEOFFBITS && w.pep == Slot(Node(mem, root, PathTo(va, PAGEOFFBITS)).value, Index(va, PAGEOFFBITS))
  {
    WalkEnd(mem, root, va);
    var w := Walk(mem, root, va);
    if w.lbits > PAGEOFFBITS { MissingBelow(mem, root, va, w.lbits); }
  }

  /** The entry for `v` that `q` sees in two memories. */
  ghost predicate SameEntry(mem: Memory, mem': Memory, root: nat, v: nat) {
    && ItPerm(mem', root, v) == ItPerm(mem, root, v)
    && (ItPerm(mem, root, v).p ==> ItFrame(mem', root, v) == ItFrame(mem, root, v))
  }

  /** After a successful call: a fresh page with full access at the address, everything else as before. */
  lemma AllocSeen(s: State, role: Roles, pid: nat, addr: nat) returns (f: nat)
    requires Safe(s, role) && Running(s, pid) && addr < VA_END
    requires SysPageAlloc(s, pid, addr).Ret? && SysPageAlloc(s, pid, addr).value == 0
    ensures var s' := SysPageAlloc(s, pid, addr).s;
            && addr % PAGESIZE == 0 && f < NPAGES && s.m.rc[f] == 0 && f != CONSOLE_PAGE && s'.procs == s.procs
            && (forall p: nat :: p < NPAGES && s.m.rc[p] != 0 ==> s'.m.rc[p] == s.m.rc[p])
            && Translate(s'.m.mem, s.procs[pid].root, addr) == (Some(f * PAGESIZE), ALL_PERM)
            && (forall q: nat, v: nat :: Running(s, q) && v < USER_END && !(q == pid && v == addr / PAGESIZE) ==>
                  SameEntry(s.m.mem, s'.m.mem, s.procs[q].root, v))
  {
    hide Good, SysPageAlloc, Leaf, Translate, PathTo, Index, ItPerm, ItFrame;
    var roots := Roots(s.procs);
    var m3, role3, g;
    m3, role3, g, f := AllocWrote(s, role, pid, addr);
    var s' := SysPageAlloc(s, pid, addr).s;
    OneLeafChanged(m3, roots, role3, pid, addr, g, f, pid, addr);
    forall q: nat, v: nat | Running(s, q) && v < USER_END && !(q == pid && v == addr / PAGESIZE)
      ensures SameEntry(s.m.mem, s'.m.mem, s.procs[q].root, v)
    {
      assert q in roots && roots[q] == s.procs[q].root;
      PagePathTo(v);
      OneLeafChanged(m3, roots, role3, pid, addr, g, f, q, v * PAGESIZE);
      SameTranslation(m3.mem, s'.m.mem, roots[q], v);
      ItLeaf(s.m, roots, role, q, v);
      ItLeaf(m3, roots, role3, q, v);
    }
  }

  lemma SameTranslation(mem: Memory, mem': Memory, root: nat, v: nat)
    requires Translate(mem', root, v * PAGESIZE) == Translate(mem, root, v * PAGESIZE)
    ensures ItPerm(mem', root, v) == ItPerm(mem, root, v) && ItFrame(mem', root, v) == ItFrame(mem, root, v)
  {
    hide Walk;
  }

  lemma Translated(mem: Memory, root: nat, v: nat, f: nat)
    requires Translate(mem, root, v * PAGESIZE) == (Some(f * PAGESIZE), ALL_PERM)
    ensures ItPerm(mem, root, v) == ALL_PERM && ItFrame(mem, root, v) == f
  {
    hide Walk;
  }

  /** The mappings of a page other than the one at `vpn` of `pid` stay. */
  lemma OtherRefs(s: State, s': State, pid: nat, vpn: nat, p: nat)
    requires s'.procs == s.procs
    requires forall q: nat, v: nat :: Running(s, q) && v < USER_END && !(q == pid && v == vpn) ==>
               SameEntry(s.m.mem, s'.m.mem, s.procs[q].root, v)
    ensures UserRefs(s', p) - {(pid, vpn)} == UserRefs(s, p) - {(pid, vpn)}
  {
    hide ItPerm, ItFrame;
    forall r: (nat, nat) | r != (pid, vpn) ensures r in UserRefs(s', p) <==> r in UserRefs(s, p) {
      if r.0 < PID_MAX && r.1 < USER_END && Running(s, r.0) {
        assert SameEntry(s.m.mem, s'.m.mem, s.procs[r.0].root, r.1);
      }
    }
  }

  /** A shared page keeps its count but loses a mapping. */
  lemma SharedLost(s: State, role: Roles, pid: nat, addr: nat)
    requires Safe(s, role) && Running(s, pid) && addr < VA_END && DataPage(addr / PAGESIZE)
    requires SysPageAlloc(s, pid, addr).Ret? && SysPageAlloc(s, pid, addr).value == 0
    requires !Private(s.m, s.procs[pid].root, addr / PAGESIZE)
    ensures !CountsExact(SysPageAlloc(s, pid, addr).s)
  {
    hide Good, SysPageAlloc, Leaf, Translate, ItPerm, ItFrame;
    var vpn := addr / PAGESIZE;
    var p := Leaf(s.m.mem, s.procs[pid].root, vpn).frame;
    var s' := SysPageAlloc(s, pid, addr).s;
    var f := AllocSeen(s, role, pid, addr);
    Translated(s'.m.mem, s.procs[pid].root, vpn, f);
    SharedRefs(s, role, pid, vpn);
    OtherRefs(s, s', pid, vpn, p);
    assert (pid, vpn) !in UserRefs(s', p);
    assert UserRefs(s', p) == UserRefs(s, p) - {(pid, vpn)};
    assert |UserRefs(s', p)| == s'.m.rc[p] - 1 >= 1;
    assert UserRefs(s', p) != {};
  }

  lemma SharedRefs(s: State, role: Roles, pid: nat, vpn: nat)
    requires Safe(s, role) && Running(s, pid) && DataPage(vpn) && !Private(s.m, s.procs[pid].root, vpn)
    ensures var p := Leaf(s.m.mem, s.procs[pid].root, vpn).frame;
            p < NPAGES && (pid, vpn) in UserRefs(s, p) && s.m.rc[p] == |UserRefs(s, p)| >= 2
  {
    hide Good, Leaf, ItPerm, ItFrame;
    ItLeaf(s.m, Roots(s.procs), role, pid, vpn);
    var p := Leaf(s.m.mem, s.procs[pid].root, vpn).frame;
    assert UserMaps(s, pid, vpn, p);
    assert (pid, vpn) in UserRefs(s, p);
    RefsAreUsers(s, role, p);
    PageCount(s.m, Roots(s.procs), role, p);
  }

  /** An address that is not a process page: the caller is no longer confined. */
  lemma Unconfined(s: State, role: Roles, pid: nat, addr: nat)
    requires Safe(s, role) && Running(s, pid) && addr < VA_END && !DataPage(addr / PAGESIZE)
    requires SysPageAlloc(s, pid, addr).Ret? && SysPageAlloc(s, pid, addr).value == 0
    ensures Running(SysPageAlloc(s, pid, addr).s, pid) && !Confined(SysPageAlloc(s, pid, addr).s, pid)
  {
    hide Good, SysPageAlloc, Leaf, Translate, ItPerm, ItFrame;
    var s' := SysPageAlloc(s, pid, addr).s;
    var f := AllocSeen(s, role, pid, addr);
    Translated(s'.m.mem, s.procs[pid].root, addr / PAGESIZE, f);
    assert Translate(s'.m.mem, s'.procs[pid].root, addr).1.p;
  }

  /** A successful page_alloc leaves sound memory if and only if it mapped a process page that was
      absent or not shared.  The code checks neither; see weensyos/u-lib.hh:92-104 for what it promises. */
  lemma PageAllocExact(s: State, role: Roles, pid: nat, addr: nat)
    requires Safe(s, role) && Running(s, pid) && addr < VA_END
    requires SysPageAlloc(s, pid, addr).Ret? && SysPageAlloc(s, pid, addr).value == 0
    ensures var s' := SysPageAlloc(s, pid, addr).s;
            var unshared := DataPage(addr / PAGESIZE) && Private(s.m, s.procs[pid].root, addr / PAGESIZE);
            && (MemorySound(s') <==> unshared)
            && (SafeState(s') <==> unshared)
  {
    hide Good, SysPageAlloc, Private, Confined, CountsExact;
    var vpn := addr / PAGESIZE;
    var s' := SysPageAlloc(s, pid, addr).s;
    if DataPage(vpn) && Private(s.m, s.procs[pid].root, vpn) {
      AllocAligned(s, role, pid, addr);
      var role' := PageAllocCorrect(s, role, pid, vpn);
      SafeIsSound(s', role');
    } else {
      if DataPage(vpn) { SharedLost(s, role, pid, addr); } else { Unconfined(s, role, pid, addr); }
      forall role' ensures !Safe(s', role') {
        if Safe(s', role') { SafeIsSound(s', role'); }
      }
    }
  }

  /** Every state reached from boot by allowed events is sound. */
  lemma RunStaysSound(s: State, es: seq<Event>, s': State)
    requires Boot(s) && Run(s, es, s')
    ensures MemorySound(s')
  {
    RunFromBoot(s, es, s');
    var role :| Safe(s', role);
    SafeIsSound(s', role);
  }

  // ---- Mapping over a present page ----

  /** At a present page the call needs one free page only, and replaces the entry. */
  lemma AllocOver(s: State, role: Roles, pid: nat, vpn: nat) returns (g: nat)
    requires Safe(s, role) && Running(s, pid) && vpn < USER_END && FindFree(s.m, 0).Some?
    requires Leaf(s.m.mem, s.procs[pid].root, vpn).perm.p
    ensures var f := FindFree(s.m, 0).value;
            var m2 := Phys(s.m.kend, s.m.mem[f := ZeroPage()], s.m.rc[f := 1]);
            && SlotAt(m2, Roots(s.procs), role, pid, vpn, g) && vpn * PAGESIZE < VA_END
            && SysPageAlloc(s, pid, vpn * PAGESIZE)
               == Ret(0, State(Phys(m2.kend, SetEntry(m2.mem, g, vpn % ENTRIES, EntryWord(f, ALL_PERM)), m2.rc), s.procs))
  {
    hide Good, Walk, SysPageAlloc, Kalloc, MapPage, FindFree;
    var f := FindFree(s.m, 0).value;
    var root := s.procs[pid].root;
    PagePathTo(vpn);
    AllocStart(s, role, f);
    AllocIsMap(s, pid, vpn, f);
    var m2 := Phys(s.m.kend, s.m.mem[f := ZeroPage()], s.m.rc[f := 1]);
    assert Leaf(m2.mem, Roots(s.procs)[pid], vpn) == Leaf(s.m.mem, root, vpn);
    ItLeaf(m2, Roots(s.procs), role, pid, vpn);
    WalkToLeaf(m2.mem, root, vpn * PAGESIZE);
    MapPageResult(m2, root, vpn, f, ALL_PERM);
    g := Node(m2.mem, root, PagePath(vpn)).value;
  }

  /** In any safe state with a free page, a process that asks for one of the kernel's own addresses gets
      it, and from then on may write there. */
  lemma KernelAddressTaken(s: State, role: Roles, pid: nat, vpn: nat, i: nat, word: Word)
    requires Safe(s, role) && Running(s, pid) && KernelPage(vpn) && FreeCount(s.m) > 0
    requires ItPerm(s.m.mem, s.procs[pid].root, vpn).p && i < ENTRIES
    ensures vpn * PAGESIZE < VA_END
    ensures var o := SysPageAlloc(s, pid, vpn * PAGESIZE);
            && o.Ret? && o.value == 0 && !MemorySound(o.s)
            && Running(o.s, pid) && UserStore(o.s, pid, vpn, i, word).Some?
  {
    hide Good, SysPageAlloc, Walk, FreeCount;
    PagePathTo(vpn);
    FindFreeCount(s.m);
    ItLeaf(s.m, Roots(s.procs), role, pid, vpn);
    var g := AllocOver(s, role, pid, vpn);
    PageAllocExact(s, role, pid, vpn * PAGESIZE);
    var f := AllocSeen(s, role, pid, vpn * PAGESIZE);
    Translated(SysPageAlloc(s, pid, vpn * PAGESIZE).s.m.mem, s.procs[pid].root, vpn, f);
  }

  /** So after boot one program start is enough to get at the kernel's address 0x40000. */
  lemma KernelAddressFromBoot(s: State) returns (s1: State, s2: State)
    requires Boot(s)
    ensures Run(s, [Event.Start(1, [])], s1) && SafeState(s1) && Running(s1, 1)
    ensures KERNEL_FIRST * PAGESIZE == 0x4_0000 && SysPageAlloc(s1, 1, 0x4_0000) == Ret(0, s2)
    ensures !MemorySound(s2) && ItPerm(s1.m.mem, s1.procs[1].root, KERNEL_FIRST) == KERNEL_ONLY
  {
    hide Good, SysPageAlloc, ProcessSetup, FreeCount, MemorySound, Walk, Leaf;
    BootPages(s);
    var role1;
    s1, role1 := StartFromBoot(s, []);
    ItLeaf(s1.m, Roots(s1.procs), role1, 1, KERNEL_FIRST);
    KernelAddressTaken(s1, role1, 1, KERNEL_FIRST, 0, ZERO);
    s2 := SysPageAlloc(s1, 1, 0x4_0000).s;
  }
}

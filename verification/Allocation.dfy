/**
 `syscall_page_alloc`, user stores and `process_setup` (weensyos/kernel.cc:176-249, 402-431).
 */
module Allocation {
  import opened Wrappers
  import opened Paging
  import opened PhysMem
  import opened TryMapTheory
  import opened Kernel
  import opened Invariant
  import opened Mapping
  import opened Copying
  import opened Forking
  import opened Calls

  /** Pages in use keep their counts and, but for the tables of `pid`, their contents. */
  ghost predicate OthersKept(m: Phys, m': Phys, role: Roles, pid: nat) {
    && m'.kend == m.kend
    && forall p: nat :: p < NPAGES && m.rc[p] != 0 ==>
         && m'.rc[p] == m.rc[p]
         && (!(role[p].Table? && role[p].pid == pid) ==> m'.mem[p] == m.mem[p])
  }

  /** Mapping a page that was taken but not yet mapped, over an absent or a private page. */
  lemma MapFreshAt(m: Phys, roots: map<nat, nat>, role: Roles, pid: nat, vpn: nat, f: nat, w: bool)
    returns (role': Roles)
    requires Good(m, roots, role) && pid in roots && DataPage(vpn) && Private(m, roots[pid], vpn)
    requires f < NPAGES && Allocatable(m.kend, f) && role[f] == Unused && m.rc[f] == 1
    ensures var r := MapPage(m, roots[pid], vpn, f, Perm(true, w, true));
            && !r.Panic? && Good(r.m, roots, role') && OthersKept(m, r.m, role, pid)
            && (r.NoMemory? ==> SameLeaves(m.mem, r.m.mem, roots))
            && (r.Ok? ==> LeavesAfter(m.mem, r.m.mem, roots, pid, vpn, EntryWord(f, Perm(true, w, true))))
    ensures forall p: nat :: p < NPAGES && m.rc[p] != 0 && role'[p].Table? ==> role'[p] == role[p]
    ensures forall p: nat :: p < NPAGES && m.rc[p] != 0 && p != f && Uses(role'[p], pid) ==> Uses(role[p], pid)
  {
    hide Good, MapPage, Leaf;
    var m1, role1, g := MapUpTo(m, roots, role, pid, vpn, f, Perm(true, w, true));
    role' := role1;
    if MapPage(m, roots[pid], vpn, f, Perm(true, w, true)).Ok? {
      assert Leaf(m1.mem, roots[pid], vpn) == Leaf(m.mem, roots[pid], vpn);
      DataLeafGood(m1, roots, role1, pid, vpn, g, f, w, 1);
      role' := Mapped(Unmapped(m1, role1, roots[pid], vpn), pid, vpn, f, w);
      LeafWritten(m1, roots, role1, pid, vpn, g, EntryWord(f, Perm(true, w, true)));
      assert m1.rc[f := 1] == m1.rc;
    }
  }

  // ---- page_alloc ----

  /** The state in which `syscall_page_alloc` calls `try_map`. */
  lemma AllocStart(s: State, role: Roles, f: nat)
    requires Safe(s, role) && FindFree(s.m, 0) == Some(f)
    ensures Kalloc(s.m).0 == Some(f)
    ensures var m1 := Kalloc(s.m).1;
            var m2 := Phys(s.m.kend, s.m.mem[f := ZeroPage()], s.m.rc[f := 1]);
            && Phys(m1.kend, m1.mem[f := ZeroPage()], m1.rc) == m2
            && Good(m2, Roots(s.procs), role) && SameLeaves(s.m.mem, m2.mem, Roots(s.procs))
            && role[f] == Unused && Allocatable(s.m.kend, f) && s.m.rc[f] == 0
  {
    KallocGood(s.m, Roots(s.procs), role, f, ZeroPage());
    assert s.m.mem[f := FillPage()][f := ZeroPage()] == s.m.mem[f := ZeroPage()];
  }

  /** The call is `kalloc`, a zeroed page, and one mapping. */
  lemma AllocIsMap(s: State, pid: nat, vpn: nat, f: nat)
    requires Running(s, pid) && vpn * PAGESIZE < VA_END && Kalloc(s.m).0 == Some(f) && f < NPAGES
    ensures var m1 := Kalloc(s.m).1;
            var r := MapPage(Phys(m1.kend, m1.mem[f := ZeroPage()], m1.rc), s.procs[pid].root, vpn, f, ALL_PERM);
            SysPageAlloc(s, pid, vpn * PAGESIZE)
            == match r
               case Panic => Halt
               case Ok(m) => Ret(0, State(m, s.procs))
               case NoMemory(m) => Ret(-1, State(m, s.procs))
  {
  }

  ghost predicate AllocDone(s: State, s': State, pid: nat, vpn: nat)
    requires Running(s, pid)
  {
    && s'.procs == s.procs
    && exists f: nat ::
         && f < NPAGES && s.m.rc[f] == 0 && s'.m.mem[f] == ZeroPage()
         && LeavesAfter(s.m.mem, s'.m.mem, Roots(s.procs), pid, vpn, EntryWord(f, ALL_PERM))
  }

  /** At a process page that is absent or not shared the call succeeds with a zeroed page of its
      own, or fails without changing any mapping. */
  lemma PageAllocCorrect(s: State, role: Roles, pid: nat, vpn: nat) returns (role': Roles)
    requires Safe(s, role) && Running(s, pid) && DataPage(vpn) && Private(s.m, s.procs[pid].root, vpn)
    ensures vpn * PAGESIZE < VA_END
    ensures var o := SysPageAlloc(s, pid, vpn * PAGESIZE);
            && o.Ret? && Safe(o.s, role') && OthersKept(s.m, o.s.m, role, pid) && o.s.procs == s.procs
            && (o.value == 0 || o.value == -1)
            && (o.value == 0 ==> AllocDone(s, o.s, pid, vpn))
            && (o.value == -1 ==> SameLeaves(s.m.mem, o.s.m.mem, Roots(s.procs)))
  {
    PagePathTo(vpn);
    role' := role;
    if FindFree(s.m, 0).Some? {
      hide Good, MapPage, Leaf, SysPageAlloc, Kalloc;
      var f := FindFree(s.m, 0).value;
      AllocStart(s, role, f);
      AllocIsMap(s, pid, vpn, f);
      var m2 := Phys(s.m.kend, s.m.mem[f := ZeroPage()], s.m.rc[f := 1]);
      assert Leaf(m2.mem, Roots(s.procs)[pid], vpn) == Leaf(s.m.mem, Roots(s.procs)[pid], vpn);
      role' := MapFreshAt(m2, Roots(s.procs), role, pid, vpn, f, true);
      AllocKept(s, role, pid, vpn, f, MapPage(m2, s.procs[pid].root, vpn, f, ALL_PERM));
    }
  }

  /** Composing the first `kalloc` with the mapping. */
  lemma AllocKept(s: State, role: Roles, pid: nat, vpn: nat, f: nat, r: Result)
    requires Running(s, pid) && f < NPAGES && s.m.rc[f] == 0 && role[f] == Unused && !r.Panic?
    requires var m2 := Phys(s.m.kend, s.m.mem[f := ZeroPage()], s.m.rc[f := 1]);
             && SameLeaves(s.m.mem, m2.mem, Roots(s.procs)) && OthersKept(m2, r.m, role, pid)
             && (r.NoMemory? ==> SameLeaves(m2.mem, r.m.mem, Roots(s.procs)))
             && (r.Ok? ==> LeavesAfter(m2.mem, r.m.mem, Roots(s.procs), pid, vpn, EntryWord(f, ALL_PERM)))
    ensures OthersKept(s.m, r.m, role, pid)
    ensures r.Ok? ==> AllocDone(s, State(r.m, s.procs), pid, vpn)
    ensures r.NoMemory? ==> SameLeaves(s.m.mem, r.m.mem, Roots(s.procs))
  {
    hide Leaf;
    assert r.m.mem[f] == ZeroPage();
  }

  /** `syscall_page_alloc` stops the kernel exactly on a misaligned or non-canonical address. */
  lemma PageAllocHalts(s: State, role: Roles, pid: nat, addr: nat)
    requires Safe(s, role) && Running(s, pid) && addr < VA_END
    ensures SysPageAlloc(s, pid, addr).Halt?
       <==> FindFree(s.m, 0).Some? && (addr % PAGESIZE != 0 || !Canonical(addr))
  {
    var kp := FindFree(s.m, 0);
    if kp.Some? {
      AllocStart(s, role, kp.value);
      if Canonical(addr) {
        var m2 := Phys(s.m.kend, s.m.mem[kp.value := ZeroPage()], s.m.rc[kp.value := 1]);
        WalkFacts(m2, Roots(s.procs), role, pid, addr);
      }
    }
  }

  // ---- What a successful page_alloc writes ----

  /** A successful call wrote the new mapping at the place that `addr` names. */
  lemma AllocWrote(s: State, role: Roles, pid: nat, addr: nat) returns (m3: Phys, role3: Roles, g: nat, f: nat)
    requires Safe(s, role) && Running(s, pid) && addr < VA_END
    requires SysPageAlloc(s, pid, addr).Ret? && SysPageAlloc(s, pid, addr).value == 0
    ensures var roots := Roots(s.procs);
            && addr % PAGESIZE == 0 && Canonical(addr)
            && Good(m3, roots, role3) && SameLeaves(s.m.mem, m3.mem, roots) && OthersKept(s.m, m3, role, pid)
            && (forall p: nat :: p < NPAGES && s.m.rc[p] != 0 ==> role3[p] == role[p])
            && g < NPAGES && f < NPAGES && s.m.rc[f] == 0 && f != CONSOLE_PAGE
            && Node(m3.mem, roots[pid], PathTo(addr, PAGEOFFBITS)) == Some(g)
            && SysPageAlloc(s, pid, addr).s
               == State(Phys(m3.kend, SetEntry(m3.mem, g, Index(addr, PAGEOFFBITS), EntryWord(f, ALL_PERM)), m3.rc), s.procs)
  {
    PageAllocHalts(s, role, pid, addr);
    f := FindFree(s.m, 0).value;
    AllocStart(s, role, f);
    var roots := Roots(s.procs);
    var m2 := Phys(s.m.kend, s.m.mem[f := ZeroPage()], s.m.rc[f := 1]);
    WalkFacts(m2, roots, role, pid, addr);
    AllocIsGrow(s, pid, addr, f);
    hide Good, Leaf, SysPageAlloc, Kalloc, Grow, Walk, SameLeaves, Extended, OthersKept, CanMap;
    role3 := GrowGood(m2, roots, role, pid, addr);
    var gr := Grow(m2, Walk(m2.mem, roots[pid], addr), addr);
    m3 := gr.m;
    g := gr.w.pep.page;
    GrowKept(s.m, m3, roots, role, role3, pid, f);
  }

  lemma GrowKept(m: Phys, m3: Phys, roots: map<nat, nat>, role: Roles, role3: Roles, pid: nat, f: nat)
    requires f < NPAGES && m.rc[f] == 0
    requires var m2 := Phys(m.kend, m.mem[f := ZeroPage()], m.rc[f := 1]);
             SameLeaves(m.mem, m2.mem, roots) && SameLeaves(m2.mem, m3.mem, roots) && Extended(m2, role, m3, role3, pid)
    ensures SameLeaves(m.mem, m3.mem, roots) && OthersKept(m, m3, role, pid)
    ensures forall p: nat :: p < NPAGES && m.rc[p] != 0 ==> role3[p] == role[p]
  {
    hide Leaf;
  }

  lemma AllocIsGrow(s: State, pid: nat, addr: nat, f: nat)
    requires Running(s, pid) && addr < VA_END && Kalloc(s.m).0 == Some(f) && f < NPAGES
    requires SysPageAlloc(s, pid, addr).Ret? && SysPageAlloc(s, pid, addr).value == 0
    ensures var m1 := Kalloc(s.m).1;
            var m2 := Phys(m1.kend, m1.mem[f := ZeroPage()], m1.rc);
            var w := Walk(m2.mem, s.procs[pid].root, addr);
            && CanMap(m2, w, addr, f, ALL_PERM)
            && var g := Grow(m2, w, addr);
            && g.ok
            && SysPageAlloc(s, pid, addr).s
               == State(Phys(g.m.kend, SetEntry(g.m.mem, g.w.pep.page, g.w.pep.idx, EntryWord(f, ALL_PERM)), g.m.rc), s.procs)
  {
  }

  lemma AllocAligned(s: State, role: Roles, pid: nat, addr: nat)
    requires Safe(s, role) && Running(s, pid) && addr < VA_END
    requires SysPageAlloc(s, pid, addr).Ret? && SysPageAlloc(s, pid, addr).value == 0
    ensures addr / PAGESIZE * PAGESIZE == addr
  {
    PageAllocHalts(s, role, pid, addr);
  }

  // ---- User stores ----

  /** A store by user code reaches one page, and that page is the console or its own. */
  lemma UserStoreCorrect(s: State, role: Roles, pid: nat, vpn: nat, i: nat, word: Word)
    requires Safe(s, role) && Running(s, pid) && vpn < USER_END && i < ENTRIES
    ensures var o := UserStore(s, pid, vpn, i, word);
            var e := Leaf(s.m.mem, s.procs[pid].root, vpn);
            && (o.Some? <==> e.perm == ALL_PERM)
            && (o.Some? ==>
                  && e.frame < NPAGES && o.value == State(Phys(s.m.kend, SetEntry(s.m.mem, e.frame, i, word), s.m.rc), s.procs)
                  && Safe(o.value, role) && SameLeaves(s.m.mem, o.value.m.mem, Roots(s.procs))
                  && (if vpn == CONSOLE_PAGE then e.frame == CONSOLE_PAGE
                      else role[e.frame] == Data(true, map[pid := vpn])))
  {
    var roots := Roots(s.procs);
    ItLeaf(s.m, roots, role, pid, vpn);
    var e := Leaf(s.m.mem, roots[pid], vpn);
    if e.perm == ALL_PERM {
      assert CountOk(role[e.frame], s.m.rc[e.frame]);
      if vpn == CONSOLE_PAGE {
        assert !Allocatable(s.m.kend, CONSOLE_PAGE);
      } else {
        SoleKey(role[e.frame].users, pid);
        assert role[e.frame].users == map[pid := vpn];
      }
      PageWriteGood(s.m, roots, role, e.frame, s.m.mem[e.frame][i := word]);
    }
  }
}

/**
 The kernel as an object: the system calls with their loops over `vmiter` and `ptiter`
 (weensyos/kernel.cc:406-554), each proved to compute the function of `Kernel` that the invariant
 was proved about.
 */
module KernelClass {
  import opened Wrappers
  import opened Paging
  import opened PhysMem
  import opened PostOrder
  import opened TryMapTheory
  import opened Kernel
  import opened Invariant
  import opened Mapping
  import opened Copying
  import opened Forking
  import opened Calls
  import opened Allocation
  import opened Setup
  import opened Runs
  import opened VmIterClass
  import opened PtIterClass

  // ---- What keeps an iterator valid while memory changes under it ----

  /** A walk through the parent's tree is not disturbed by building the child. */
  lemma ParentWalk(m0: Phys, m: Phys, roots: map<nat, nat>, role: Roles, cur: nat, child: nat, va: nat)
    requires ForkInv(m0, m, roots, role, child, None) && cur in roots && cur != child
    ensures Walk(m.mem, roots[cur], va) == Walk(m0.mem, roots[cur], va)
    ensures Translate(m.mem, roots[cur], va) == Translate(m0.mem, roots[cur], va)
  {
    GoodTree(m, roots, role, cur);
    forall f: nat | f < NPAGES && InTree(m.mem, roots[cur], f) ensures m0.mem[f] == m.mem[f] {
      assert CountOk(role[f], m.rc[f]);
    }
    WalkFrame(m.mem, m0.mem, roots[cur], va);
  }

  lemma WalkBesideFree(m: Phys, roots: map<nat, nat>, role: Roles, pid: nat, f: nat, page: Page, va: nat)
    requires Good(m, roots, role) && pid in roots && Free(m, f)
    ensures Walk(m.mem[f := page], roots[pid], va) == Walk(m.mem, roots[pid], va)
    ensures Translate(m.mem[f := page], roots[pid], va) == Translate(m.mem, roots[pid], va)
  {
    GoodTree(m, roots, role, pid);
    WalkFrame(m.mem, m.mem[f := page], roots[pid], va);
  }

  /** In a good state `try_map` of a present page is always allowed. */
  lemma MapReady(m: Phys, roots: map<nat, nat>, role: Roles, pid: nat, vpn: nat, frame: nat, perm: Perm)
    requires Good(m, roots, role) && pid in roots && vpn < USER_END && perm.p
    ensures TreeCounted(m, roots[pid]) && Mappable(m, roots[pid], vpn, frame, perm)
    ensures Canonical(vpn * PAGESIZE) && vpn * PAGESIZE < VA_END
  {
    GoodTree(m, roots, role, pid);
    ItLeaf(m, roots, role, pid, vpn);
    PagePathTo(vpn);
    assert vpn * PAGESIZE % PAGESIZE == 0;
  }

  lemma ForkReady(m0: Phys, m: Phys, roots: map<nat, nat>, role: Roles, child: nat, vpn: nat, frame: nat, perm: Perm)
    requires ForkInv(m0, m, roots, role, child, None) && vpn < USER_END
    ensures Canonical(vpn * PAGESIZE) && vpn * PAGESIZE < VA_END && TreeCounted(m, roots[child])
    ensures perm.p ==> Mappable(m, roots[child], vpn, frame, perm)
  {
    MapReady(m, roots, role, child, vpn, frame, if perm.p then perm else ALL_PERM);
  }

  /** Between taking the fresh page and mapping it. */
  lemma CopyReady(m0: Phys, m: Phys, roots: map<nat, nat>, role: Roles, pid: nat, child: nat, vpn: nat, f: nat)
    requires ForkInv(m0, m, roots, role, child, None) && pid in roots && pid != child && DataPage(vpn)
    requires Leaf(m.mem, roots[pid], vpn).perm == ALL_PERM && FindFree(m, 0) == Some(f)
    ensures var m1 := Kalloc(m).1;
            var src := ItFrame(m1.mem, roots[pid], vpn);
            && src < NPAGES && ItPerm(m1.mem, roots[pid], vpn).p
            && Walk(m1.mem, roots[pid], vpn * PAGESIZE) == Walk(m.mem, roots[pid], vpn * PAGESIZE)
            && var m2 := Phys(m1.kend, m1.mem[f := m1.mem[src]], m1.rc);
            && TreeCounted(m2, roots[child]) && Mappable(m2, roots[child], vpn, f, ALL_PERM)
            && Canonical(vpn * PAGESIZE) && vpn * PAGESIZE < VA_END
  {
    hide Good, Leaf, ItPerm, ItFrame, Mappable, TreeCounted, Canonical, Walk, FindFree;
    ForkGood(m0, m, roots, role, child);
    hide ForkInv;
    var m1 := Kalloc(m).1;
    KallocGood(m, roots, role, f, FillPage());
    assert m1 == Phys(m.kend, m.mem[f := FillPage()], m.rc[f := 1]);
    WalkBesideFree(m, roots, role, pid, f, FillPage(), vpn * PAGESIZE);
    CopyReadyMap(m, m1, roots, role, pid, child, vpn, f);
  }

  /** Before a read-only page of the parent is mapped into the child. */
  lemma ShareReady(m0: Phys, m: Phys, roots: map<nat, nat>, role: Roles, pid: nat, child: nat, vpn: nat)
    requires ForkInv(m0, m, roots, role, child, None) && pid in roots && pid != child && DataPage(vpn)
    requires Leaf(m.mem, roots[pid], vpn).perm == READ_ONLY
    ensures var f := ItFrame(m.mem, roots[pid], vpn);
            && ItPerm(m.mem, roots[pid], vpn) == READ_ONLY && f < NPAGES
            && TreeCounted(m, roots[child]) && Mappable(m, roots[child], vpn, f, READ_ONLY)
            && Canonical(vpn * PAGESIZE) && vpn * PAGESIZE < VA_END
  {
    ItLeaf(m, roots, role, pid, vpn);
    MapReady(m, roots, role, child, vpn, ItFrame(m.mem, roots[pid], vpn), READ_ONLY);
  }

  lemma SameReport(mem: Memory, mem': Memory, root: nat, vpn: nat)
    requires Translate(mem, root, vpn * PAGESIZE) == Translate(mem', root, vpn * PAGESIZE)
    ensures ItPerm(mem', root, vpn) == ItPerm(mem, root, vpn) && ItFrame(mem', root, vpn) == ItFrame(mem, root, vpn)
  {
  }

  lemma ForkGood(m0: Phys, m: Phys, roots: map<nat, nat>, role: Roles, child: nat)
    requires ForkInv(m0, m, roots, role, child, None)
    ensures Good(m, roots, role) && child in roots
  {
  }

  lemma CopyReadyMap(m: Phys, m1: Phys, roots: map<nat, nat>, role: Roles, pid: nat, child: nat, vpn: nat, f: nat)
    requires Good(m1, roots, role) && pid in roots && child in roots && DataPage(vpn) && f < NPAGES && role[f] == Unused
    requires SameLeaves(m.mem, m1.mem, roots) && Leaf(m.mem, roots[pid], vpn).perm == ALL_PERM
    ensures var src := ItFrame(m1.mem, roots[pid], vpn);
            && src < NPAGES && ItPerm(m1.mem, roots[pid], vpn).p
            && var m2 := Phys(m1.kend, m1.mem[f := m1.mem[src]], m1.rc);
            && TreeCounted(m2, roots[child]) && Mappable(m2, roots[child], vpn, f, ALL_PERM)
            && Canonical(vpn * PAGESIZE) && vpn * PAGESIZE < VA_END
  {
    hide Good, Leaf, ItPerm, ItFrame, Mappable, TreeCounted, Canonical;
    ItLeaf(m1, roots, role, pid, vpn);
    var src := ItFrame(m1.mem, roots[pid], vpn);
    PageWriteGood(m1, roots, role, f, m1.mem[src]);
    MapReady(Phys(m1.kend, m1.mem[f := m1.mem[src]], m1.rc), roots, role, child, vpn, f, ALL_PERM);
  }

  /** An iterator at the start of a page reports what the functions of `Kernel` say about it. */
  lemma ReportsPage(it: VmIter, vpn: nat)
    requires it.Valid() && it.lbits != DONE_LBITS && it.va == vpn * PAGESIZE
    ensures it.PermNow() == ItPerm(it.m.View().mem, it.pt, vpn)
    ensures it.PermNow().p ==>
              it.PaNow().Some? && it.PaNow().value / PAGESIZE == ItFrame(it.m.View().mem, it.pt, vpn)
  {
    hide Walk;
  }

  lemma OnlyCanonical(mem: Memory, root: nat, va: nat)
    ensures IsLevel(Walk(mem, root, va).lbits) ==> Canonical(va)
  {
  }

  ghost predicate AllocAllowed(s: State, pid: nat, addr: nat)
    requires Running(s, pid) && addr < VA_END
  {
    Allowed(s, PageAlloc(pid, addr))
  }

  /** The child has no mappings when copying begins. */
  lemma FreshChild(m0: Phys, m: Phys, roots: map<nat, nat>, pid: nat, child: nat)
    requires pid in roots && child in roots
    requires forall v: nat :: v < USER_END ==> !Leaf(m.mem, roots[child], v).perm.p
    ensures KernelInv(m0, m, roots, pid, child, KERNEL_FIRST)
  {
    hide Leaf;
  }

  lemma ForkLeaked(m0: Phys, m: Phys, roots: map<nat, nat>, role: Roles, child: nat, leak: Option<nat>)
    requires ForkInv(m0, m, roots, role, child, leak)
    ensures Good(m, roots, role) && child in roots
  {
  }

  /** Tearing down a half-built child. */
  lemma Undone(s: State, m: Phys, roots: map<nat, nat>, role: Roles, child: nat, leak: Option<nat>)
    requires ForkInv(s.m, m, roots, role, child, leak) && roots == Roots(s.procs)[child := roots[child]]
    requires child < PID_MAX && s.procs[child].FreeSlot?
    requires leak.Some? ==> leak.value < NPAGES && s.m.rc[leak.value] == 0
    ensures child in roots && TreeOk(m.mem, roots[child])
    ensures Good(Kernel.FreePagetable(m, roots[child]), Roots(s.procs), DropRoles(role, child))
  {
    hide Good, Kernel.FreePagetable, DropRoles, Leaf, CountsBut, TreeOk;
    ForkLeaked(s.m, m, roots, role, child, leak);
    hide ForkInv;
    ForkUndone(s.m, m, roots, role, child, leak);
    GoodTree(m, roots, role, child);
    assert TreeCounted(m, roots[child]);
    assert roots - {child} == Roots(s.procs);
  }

  class WeensyKernel {
    const physical: PhysicalMemory
    const ptable: array<Proc>
    ghost var role: Roles

    ghost predicate Shape() {
      physical.Valid() && ptable.Length == PID_MAX
    }

    ghost function View(): State
      requires Shape()
      reads ptable, physical.pages, physical.refcount
    {
      State(physical.View(), ptable[..])
    }

    ghost predicate Valid()
      reads this, ptable, physical.pages, physical.refcount
    {
      Shape() && Safe(View(), role)
    }

    /** The kernel at boot: no page is in use and no process exists. */
    constructor (physical: PhysicalMemory)
      requires physical.Valid() && forall p: nat :: p < NPAGES ==> physical.refcount[p] == 0
      ensures Valid() && this.physical == physical && fresh(ptable) && Boot(View())
    {
      this.physical := physical;
      this.ptable := new Proc[PID_MAX](_ => FreeSlot);
      this.role := seq(NPAGES, _ => Unused);
      new;
      BootSafe(View());
    }

    /** `vmiter(pt, va).try_map(pa, perm)`. */
    method MapPage(pt: nat, vpn: nat, frame: nat, perm: Perm) returns (r: int)
      requires physical.Valid() && TreeCounted(physical.View(), pt)
      requires vpn * PAGESIZE < VA_END && Canonical(vpn * PAGESIZE)
      requires Mappable(physical.View(), pt, vpn, frame, perm)
      modifies physical.pages, physical.refcount
      ensures r == 0 || r == -1
      ensures Kernel.MapPage(old(physical.View()), pt, vpn, frame, perm)
           == if r == 0 then Ok(physical.View()) else NoMemory(physical.View())
    {
      hide Walk;
      var it := new VmIter(physical, pt, vpn * PAGESIZE);
      r := it.TryMap(frame, perm);
    }

    // ---- free_pagetable ----

    method FreePagetable(root: nat)
      requires physical.Valid() && TreeOk(physical.View().mem, root)
      modifies physical.refcount
      ensures physical.View() == Kernel.FreePagetable(old(physical.View()), root)
    {
      FreeUserPages(root);
      FreeTablePages(root);
      physical.Kfree(Some(root));
    }

    method FreeUserPages(root: nat)
      requires physical.Valid()
      modifies physical.refcount
      ensures physical.View() == FreeUser(old(physical.View()), root, 0)
      ensures physical.View().mem == old(physical.View().mem)
    {
      hide Walk, PhysMem.Kfree, ItPerm, ItFrame, PermAt, PaAt;
      ghost var m, vpn: nat := physical.View(), 0;
      var it := new VmIter(physical, root, 0);
      while it.va < USER_END * PAGESIZE
        invariant it.m == physical && it.pt == root && it.Valid() && it.lbits != DONE_LBITS
        invariant it.va == vpn * PAGESIZE && vpn <= USER_END
        invariant physical.View().mem == m.mem
        invariant FreeUser(m, root, 0) == FreeUser(physical.View(), root, vpn)
        decreases USER_END - vpn
      {
        FreeAt(it, root, vpn);
        it.Advance(PAGESIZE);
        vpn := vpn + 1;
      }
    }

    /** Frees the process page that the iterator is at, if there is one. */
    method FreeAt(it: VmIter, ghost root: nat, ghost vpn: nat)
      requires it.m == physical && it.pt == root && it.Valid() && it.lbits != DONE_LBITS && it.va == vpn * PAGESIZE
      modifies physical.refcount
      ensures physical.View() == FreeUserPage(old(physical.View()), root, vpn)
      ensures physical.View().mem == old(physical.View().mem) && it.Valid()
    {
      hide Walk, PhysMem.Kfree, ItPerm, ItFrame, PermAt, PaAt;
      ReportsPage(it, vpn);
      if it.PermNow().p && it.PermNow().u && it.va != CONSOLE_PAGE * PAGESIZE {
        physical.Kfree(Some(it.PaNow().value / PAGESIZE));
      }
    }

    method FreeTablePages(root: nat)
      requires physical.Valid() && TreeOk(physical.View().mem, root)
      modifies physical.refcount
      ensures physical.View() == FreeTables(old(physical.View()), root, Tables(old(physical.View().mem), root))
    {
      ghost var m := physical.View();
      var it := new PtIter(physical, root);
      while it.lbits != DONE_LBITS
        invariant it.m == physical && it.pt == root && it.Valid()
        invariant physical.View().mem == m.mem
        invariant FreeTables(m, root, Tables(m.mem, root)) == FreeTables(physical.View(), root, it.Remaining())
        decreases |it.Remaining()|
      {
        KptrIsNode(it);
        physical.Kfree(Some(it.Kptr()));
        it.Next();
      }
    }

    lemma KptrIsNode(it: PtIter)
      requires it.Valid() && it.lbits != DONE_LBITS
      ensures Node(it.m.View().mem, it.pt, it.Remaining()[0]) == Some(it.Kptr())
    {
    }

    // ---- syscall_fork ----

    method KallocPagetable() returns (pt: Option<nat>)
      requires physical.Valid()
      modifies physical.pages, physical.refcount
      ensures (pt, physical.View()) == Kernel.KallocPagetable(old(physical.View()))
    {
      pt := physical.Kalloc();
      if pt.Some? {
        physical.pages[pt.value] := ZeroPage();
      }
    }

    /** Copies the kernel mappings; `m0` is memory before the fork began. */
    method CopyKernelMappings(cur: nat, pt: nat, ghost m0: Phys, ghost roots: map<nat, nat>, ghost role0: Roles,
                              ghost pid: nat, ghost child: nat)
      returns (ok: bool, ghost role': Roles)
      requires physical.Valid() && ForkInv(m0, physical.View(), roots, role0, child, None)
      requires pid in roots && child in roots && pid != child && roots[pid] == cur && roots[child] == pt
      requires KernelInv(m0, physical.View(), roots, pid, child, KERNEL_FIRST)
      modifies physical.pages, physical.refcount
      ensures CopyKernel(old(physical.View()), cur, pt, KERNEL_FIRST)
           == if ok then Ok(physical.View()) else NoMemory(physical.View())
      ensures ForkInv(m0, physical.View(), roots, role', child, None)
      ensures ok ==> KernelInv(m0, physical.View(), roots, pid, child, KERNEL_TOP)
    {
      hide ForkInv, KernelInv, Walk, CopyKernelPage;
      ghost var m := physical.View();
      ghost var vpn: nat := KERNEL_FIRST;
      role' := role0;
      var it := new VmIter(physical, cur, KERNEL_FIRST * PAGESIZE);
      while it.va < KERNEL_TOP * PAGESIZE
        invariant it.m == physical && it.pt == cur && it.Valid() && it.lbits != DONE_LBITS
        invariant it.va == vpn * PAGESIZE && KERNEL_FIRST <= vpn <= KERNEL_TOP
        invariant ForkInv(m0, physical.View(), roots, role', child, None)
        invariant KernelInv(m0, physical.View(), roots, pid, child, vpn)
        invariant CopyKernel(m, cur, pt, KERNEL_FIRST) == CopyKernel(physical.View(), cur, pt, vpn)
        decreases KERNEL_TOP - vpn
      {
        ok, role' := CopyKernelEntry(it, pt, m0, roots, role', pid, child, vpn);
        if !ok { return; }
        it.Advance(PAGESIZE);
        vpn := vpn + 1;
      }
      ok := true;
    }

    /** One round of that loop, with the iterator on the page to copy. */
    method CopyKernelEntry(it: VmIter, pt: nat, ghost m0: Phys, ghost roots: map<nat, nat>, ghost role0: Roles,
                           ghost pid: nat, ghost child: nat, ghost vpn: nat)
      returns (ok: bool, ghost role': Roles)
      requires it.m == physical && it.Valid() && it.lbits != DONE_LBITS && it.va == vpn * PAGESIZE && KernelPage(vpn)
      requires ForkInv(m0, physical.View(), roots, role0, child, None)
      requires pid in roots && child in roots && pid != child && roots[pid] == it.pt && roots[child] == pt
      requires KernelInv(m0, physical.View(), roots, pid, child, vpn)
      modifies physical.pages, physical.refcount
      ensures it.Valid()
      ensures CopyKernelPage(old(physical.View()), it.pt, pt, vpn)
           == if ok then Ok(physical.View()) else NoMemory(physical.View())
      ensures ForkInv(m0, physical.View(), roots, role', child, None)
      ensures ok ==> KernelInv(m0, physical.View(), roots, pid, child, vpn + 1)
    {
      hide ForkInv, KernelInv, Walk, Kernel.MapPage, ItPerm, ItFrame, Mappable, TreeCounted, Canonical, VmIter.PermNow,
           VmIter.PaNow, Translate;
      ghost var m := physical.View();
      ReportsPage(it, vpn);
      ForkReady(m0, m, roots, role0, child, vpn, ItFrame(m.mem, it.pt, vpn), ItPerm(m.mem, it.pt, vpn));
      role' := CopyKernelStep(m0, m, roots, role0, pid, child, vpn);
      ParentWalk(m0, m, roots, role0, pid, child, it.va);
      ok := true;
      if it.PermNow().p {
        var perm := Perm(true, it.PermNow().w, it.PermNow().u);
        var rc := MapPage(pt, it.va / PAGESIZE, it.PaNow().value / PAGESIZE, perm);
        ok := rc >= 0;
      }
      ParentWalk(m0, physical.View(), roots, role', pid, child, it.va);
    }

    /** Copies or shares the process pages of the parent. */
    method CopyUserMappings(cur: nat, pt: nat, ghost m0: Phys, ghost roots: map<nat, nat>, ghost role0: Roles,
                            ghost pid: nat, ghost child: nat)
      returns (ok: bool, ghost role': Roles, ghost leak: Option<nat>)
      requires physical.Valid() && ForkInv(m0, physical.View(), roots, role0, child, None)
      requires pid in roots && child in roots && pid != child && roots[pid] == cur && roots[child] == pt
      requires UserInv(m0, physical.View(), roots, pid, child, 0)
      modifies physical.pages, physical.refcount
      ensures CopyUser(old(physical.View()), cur, pt, 0)
           == if ok then Ok(physical.View()) else NoMemory(physical.View())
      ensures ForkInv(m0, physical.View(), roots, role', child, leak)
      ensures ok ==> leak == None && UserInv(m0, physical.View(), roots, pid, child, USER_END)
      ensures leak.Some? ==> leak.value < NPAGES && m0.rc[leak.value] == 0
    {
      hide ForkInv, UserInv, Walk, CopyUserPage;
      ghost var m := physical.View();
      ghost var vpn: nat := 0;
      role', leak := role0, None;
      var it := new VmIter(physical, cur, 0);
      while it.va < USER_END * PAGESIZE
        invariant it.m == physical && it.pt == cur && it.Valid() && it.lbits != DONE_LBITS
        invariant it.va == vpn * PAGESIZE && vpn <= USER_END && leak == None
        invariant ForkInv(m0, physical.View(), roots, role', child, None)
        invariant UserInv(m0, physical.View(), roots, pid, child, vpn)
        invariant CopyUser(m, cur, pt, 0) == CopyUser(physical.View(), cur, pt, vpn)
        decreases USER_END - vpn
      {
        ok, role', leak := CopyUserEntry(it, pt, m0, roots, role', pid, child, vpn);
        if !ok { return; }
        it.Advance(PAGESIZE);
        vpn := vpn + 1;
      }
      ok := true;
    }

    method CopyUserEntry(it: VmIter, pt: nat, ghost m0: Phys, ghost roots: map<nat, nat>, ghost role0: Roles,
                         ghost pid: nat, ghost child: nat, ghost vpn: nat)
      returns (ok: bool, ghost role': Roles, ghost leak: Option<nat>)
      requires it.m == physical && it.Valid() && it.lbits != DONE_LBITS && it.va == vpn * PAGESIZE && vpn < USER_END
      requires ForkInv(m0, physical.View(), roots, role0, child, None)
      requires pid in roots && child in roots && pid != child && roots[pid] == it.pt && roots[child] == pt
      requires UserInv(m0, physical.View(), roots, pid, child, vpn)
      modifies physical.pages, physical.refcount
      ensures ok ==> it.Valid()
      ensures CopyUserPage(old(physical.View()), it.pt, pt, vpn)
           == if ok then Ok(physical.View()) else NoMemory(physical.View())
      ensures ForkInv(m0, physical.View(), roots, role', child, leak)
      ensures ok ==> leak == None && UserInv(m0, physical.View(), roots, pid, child, vpn + 1)
      ensures leak.Some? ==> leak.value < NPAGES && m0.rc[leak.value] == 0
    {
      hide ForkInv, UserInv, Walk, CopyPage, SharePage, ItPerm, ItFrame, VmIter.PermNow, VmIter.PaNow, Translate, Leaf;
      ghost var m := physical.View();
      ReportsPage(it, vpn);
      ParentPage(m0, m, roots, role0, pid, child, vpn);
      role', leak := CopyUserStep(m0, m, roots, role0, pid, child, vpn);
      ParentWalk(m0, m, roots, role0, pid, child, it.va);
      ok := true;
      if it.PermNow().p && it.PermNow().u && it.va != CONSOLE_PAGE * PAGESIZE {
        if it.PermNow().w {
          ok := CopyPageInto(it, pt, m0, roots, role0, pid, child, vpn);
        } else {
          ok := SharePageInto(it, pt, m0, roots, role0, pid, child, vpn);
        }
      }
      if ok { ParentWalk(m0, physical.View(), roots, role', pid, child, it.va); }
    }

    /** A writable page: allocate, copy, map. */
    method CopyPageInto(it: VmIter, pt: nat, ghost m0: Phys, ghost roots: map<nat, nat>, ghost role0: Roles,
                        ghost pid: nat, ghost child: nat, ghost vpn: nat)
      returns (ok: bool)
      requires it.m == physical && it.Valid() && it.lbits != DONE_LBITS && it.va == vpn * PAGESIZE && DataPage(vpn)
      requires ForkInv(m0, physical.View(), roots, role0, child, None)
      requires pid in roots && child in roots && pid != child && roots[pid] == it.pt && roots[child] == pt
      requires Leaf(physical.View().mem, it.pt, vpn).perm == ALL_PERM
      modifies physical.pages, physical.refcount
      ensures CopyPage(old(physical.View()), it.pt, pt, vpn)
           == if ok then Ok(physical.View()) else NoMemory(physical.View())
    {
      hide ForkInv, UserInv, Walk, ItPerm, ItFrame, VmIter.PermNow, VmIter.PaNow, Mappable, TreeCounted, Canonical,
           Kernel.MapPage, Leaf;
      ghost var m := physical.View();
      var kp := physical.Kalloc();
      if kp.None? { return false; }
      CopyReady(m0, m, roots, role0, pid, child, vpn, kp.value);
      ReportsPage(it, vpn);
      physical.pages[kp.value] := physical.pages[it.PaNow().value / PAGESIZE];
      var rc := MapPage(pt, it.va / PAGESIZE, kp.value, ALL_PERM);
      ok := rc >= 0;
    }

    /** A read-only page: map the same page and count it once more. */
    method SharePageInto(it: VmIter, pt: nat, ghost m0: Phys, ghost roots: map<nat, nat>, ghost role0: Roles,
                         ghost pid: nat, ghost child: nat, ghost vpn: nat)
      returns (ok: bool)
      requires it.m == physical && it.Valid() && it.lbits != DONE_LBITS && it.va == vpn * PAGESIZE && DataPage(vpn)
      requires ForkInv(m0, physical.View(), roots, role0, child, None)
      requires pid in roots && child in roots && pid != child && roots[pid] == it.pt && roots[child] == pt
      requires UserInv(m0, physical.View(), roots, pid, child, vpn)
      requires Leaf(physical.View().mem, it.pt, vpn).perm == READ_ONLY
      modifies physical.pages, physical.refcount
      ensures SharePage(old(physical.View()), it.pt, pt, vpn)
           == if ok then Ok(physical.View()) else NoMemory(physical.View())
    {
      hide ForkInv, UserInv, Walk, ItPerm, ItFrame, VmIter.PermNow, VmIter.PaNow, Mappable, TreeCounted, Canonical,
           Kernel.MapPage, Leaf, Copied, Translate;
      ghost var m := physical.View();
      ReportsPage(it, vpn);
      ShareReady(m0, m, roots, role0, pid, child, vpn);
      ghost var role' := SharePageGood(m0, m, roots, role0, pid, child, vpn);
      ParentWalk(m0, m, roots, role0, pid, child, it.va);
      var rc := MapPage(pt, it.va / PAGESIZE, it.PaNow().value / PAGESIZE, READ_ONLY);
      ok := rc >= 0;
      if ok {
        ParentWalk(m0, SharePage(m, it.pt, pt, vpn).m, roots, role', pid, child, it.va);
        ReportsPage(it, vpn);
        SameReport(m.mem, physical.View().mem, it.pt, vpn);
        var pageno := it.PaNow().value / PAGESIZE;
        physical.refcount[pageno] := Increment(physical.refcount[pageno]);
      }
    }

    /** Kernel mappings, console, process memory, in this order. */
    method CopyMappings(cur: nat, pt: nat, ghost m0: Phys, ghost roots: map<nat, nat>, ghost role0: Roles,
                        ghost pid: nat, ghost child: nat)
      returns (ok: bool, ghost role': Roles, ghost leak: Option<nat>)
      requires physical.Valid() && ForkInv(m0, physical.View(), roots, role0, child, None)
      requires pid in roots && child in roots && pid != child && roots[pid] == cur && roots[child] == pt
      requires forall v: nat :: v < USER_END ==> !Leaf(physical.View().mem, pt, v).perm.p
      modifies physical.pages, physical.refcount
      ensures CopyAll(old(physical.View()), cur, pt)
           == if ok then Ok(physical.View()) else NoMemory(physical.View())
      ensures ForkInv(m0, physical.View(), roots, role', child, leak)
      ensures leak.Some? ==> leak.value < NPAGES && m0.rc[leak.value] == 0
      ensures ok ==> leak == None
    {
      FreshChild(m0, physical.View(), roots, pid, child);
      hide ForkInv, UserInv, KernelInv, CopyKernel, CopyUser, Kernel.MapPage, Leaf, Mappable, TreeCounted, Canonical;
      leak := None;
      ok, role' := CopyKernelMappings(cur, pt, m0, roots, role0, pid, child);
      if !ok { return; }
      ghost var m1 := physical.View();
      ghost var role1 := ConsoleStep(m0, m1, roots, role', pid, child);
      ForkReady(m0, m1, roots, role', child, CONSOLE_PAGE, CONSOLE_PAGE, ALL_PERM);
      var rc := MapPage(pt, CONSOLE_PAGE, CONSOLE_PAGE, ALL_PERM);
      role' := role1;
      ok := rc >= 0;
      if !ok { return; }
      ok, role', leak := CopyUserMappings(cur, pt, m0, roots, role', pid, child);
    }

    /** The first slot from 1 on that is not in use. */
    method UnusedSlot() returns (slot: Option<nat>)
      requires ptable.Length == PID_MAX
      ensures slot == FindSlot(ptable[..], 1)
    {
      slot := None;
      for i := 1 to PID_MAX
        invariant slot.None? ==> FindSlot(ptable[..], 1) == FindSlot(ptable[..], i)
        invariant slot.Some? ==> FindSlot(ptable[..], 1) == slot
      {
        if slot.None? && ptable[i].FreeSlot? { slot := Some(i); }
      }
    }

    method SyscallFork(pid: nat) returns (r: int)
      requires Valid() && Running(View(), pid)
      modifies this, ptable, physical.pages, physical.refcount
      ensures Valid() && SysFork(old(View()), pid) == Ret(r, View())
    {
      hide Good, CopyAll, Kernel.FreePagetable, Leaf, ForkInv, FindFree, DropRoles, SysFork, Kernel.KallocPagetable;
      ghost var s := View();
      PagetableTaken(s.m);
      var slot := UnusedSlot();
      if slot.None? { ForkRefused(s, pid); return -1; }
      var kp := KallocPagetable();
      if kp.None? { ForkRefused(s, pid); return -1; }
      ForkIs(s, pid);
      var child, pt := slot.value, kp.value;
      ghost var m1, role1 := ForkStart(s, role, child, pt);
      ghost var roots := Roots(s.procs)[child := pt];
      var ok;
      ghost var role', leak;
      ok, role', leak := CopyMappings(ptable[pid].root, pt, s.m, roots, role1, pid, child);
      if !ok {
        Undone(s, physical.View(), roots, role', child, leak);
        FreePagetable(pt);
        role := DropRoles(role', child);
        return -1;
      }
      ptable[child] := Live(pt);
      role := role';
      assert Roots(ptable[..]) == roots by { assert ptable[..] == s.procs[child := Live(pt)]; }
      ForkGood(s.m, physical.View(), roots, role', child);
      return child;
    }

    method SyscallExit(pid: nat)
      requires Valid() && Running(View(), pid)
      modifies this, ptable, physical.refcount
      ensures Valid() && View() == SysExit(old(View()), pid)
    {
      hide Good, Kernel.FreePagetable, DropRoles, Leaf;
      ghost var s := View();
      ExitCorrect(s, role, pid);
      GoodTree(s.m, Roots(s.procs), role, pid);
      FreePagetable(ptable[pid].root);
      ptable[pid] := FreeSlot;
      role := DropRoles(role, pid);
    }

    /** `halted` stands for a failed assertion of `try_map`, which stops the kernel. */
    method SyscallPageAlloc(pid: nat, addr: nat) returns (halted: bool, r: int)
      requires Valid() && Running(View(), pid) && addr < VA_END
      modifies this, physical.pages, physical.refcount
      ensures SysPageAlloc(old(View()), pid, addr) == if halted then Halt else Ret(r, View())
      ensures AllocAllowed(old(View()), pid, addr) ==> !halted && Valid()
    {
      hide Good, Leaf, PhysMem.TryMap, Private, Walk, FindFree, SameLeaves, OthersKept, AllocDone;
      ghost var s := View();
      halted := false;
      ghost var role' := role;
      if AllocAllowed(s, pid, addr) {
        role' := PageAllocCorrect(s, role, pid, addr / PAGESIZE);
      }
      var pa := physical.Kalloc();
      if pa.None? {
        r := -1;
      } else {
        AllocStart(s, role, pa.value);
        physical.pages[pa.value] := ZeroPage();
        GoodTree(physical.View(), Roots(s.procs), role, pid);
        var it := new VmIter(physical, ptable[pid].root, addr);
        halted := !it.Asserts(pa.value, ALL_PERM);
        if halted { r := 0; return; }
        OnlyCanonical(physical.View().mem, it.pt, addr);
        r := it.TryMap(pa.value, ALL_PERM);
      }
      role := role';
    }
  }
}

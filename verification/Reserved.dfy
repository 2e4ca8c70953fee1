/**
 Which pages the allocator may never hand out (weensyos/k-hardware.cc:331-354): page 0, the kernel's image and
 stack, and the device memory.  No run of the machine counts one of them or writes to it, but for the console.
 */
module Reserved {
  import opened Wrappers
  import opened Paging
  import opened PhysMem
  import opened TryMapTheory
  import opened PostOrder
  import opened Kernel
  import opened Invariant
  import opened Mapping
  import opened Copying
  import opened Forking
  import opened Calls
  import opened Allocation
  import opened Setup
  import opened Runs

  // ---- What leaves the kernel's pages alone ----

  ghost predicate Spares(m: Phys, m': Phys) {
    && m'.kend == m.kend
    && forall p: nat :: p < NPAGES && !Allocatable(m.kend, p) ==> m'.mem[p] == m.mem[p] && m'.rc[p] == m.rc[p]
  }

  lemma SparesTrans(a: Phys, b: Phys, c: Phys)
    requires Spares(a, b) && Spares(b, c)
    ensures Spares(a, c)
  {
    hide Allocatable;
  }

  lemma TakeSpares(m: Phys, page: Page)
    ensures var kp := FindFree(m, 0);
            && Spares(m, Kalloc(m).1) && Spares(m, KallocPagetable(m).1)
            && (kp.Some? ==>
                  && kp.value < NPAGES && Allocatable(m.kend, kp.value)
                  && Spares(m, Phys(m.kend, m.mem[kp.value := page], m.rc[kp.value := 1])))
  {
    hide FindFree, Allocatable;
  }

  lemma {:induction false} GrowSpares(m: Phys, w: Walked, va: nat)
    requires w.pep.Slot? && w.pep.page < NPAGES && w.pep.idx < ENTRIES && IsLevel(w.lbits)
    requires Allocatable(m.kend, w.pep.page)
    ensures var g := Grow(m, w, va);
            Spares(m, g.m) && Allocatable(m.kend, g.w.pep.page)
    decreases w.lbits
  {
    hide FindFree, Allocatable;
    if w.lbits > PAGEOFFBITS && FindFree(m, 0).Some? {
      var f := FindFree(m, 0).value;
      TakeSpares(m, ZeroPage());
      GrowRound(m, w, va);
      var m2 := Phys(m.kend, LinkTable(m.mem, w.pep.page, w.pep.idx, f), m.rc[f := 1]);
      GrowSpares(m2, Walked(Slot(f, Index(va, w.lbits - 9)), w.lbits - 9, Meet(w.perm, ALL_PERM)), va);
      SparesTrans(m, m2, Grow(m, w, va).m);
    }
  }

  lemma MapSpares(m: Phys, roots: map<nat, nat>, role: Roles, pid: nat, vpn: nat, frame: nat, perm: Perm)
    requires Good(m, roots, role) && pid in roots && vpn < USER_END
    ensures var r := MapPage(m, roots[pid], vpn, frame, perm);
            !r.Panic? ==> Spares(m, r.m)
  {
    hide Grow, Allocatable;
    PagePathTo(vpn);
    WalkAllocatable(m, roots, role, pid, vpn * PAGESIZE);
    hide Good, Walk;
    GrowSpares(m, WalkPage(m.mem, roots[pid], vpn), vpn * PAGESIZE);
  }

  /** Walks end in page tables, which are never the kernel's pages. */
  lemma WalkAllocatable(m: Phys, roots: map<nat, nat>, role: Roles, pid: nat, va: nat)
    requires Good(m, roots, role) && pid in roots && Canonical(va)
    ensures var w := Walk(m.mem, roots[pid], va);
            && w.pep.Slot? && w.pep.page < NPAGES && w.pep.idx < ENTRIES && IsLevel(w.lbits)
            && Allocatable(m.kend, w.pep.page)
  {
    hide Allocatable;
    WalkFacts(m, roots, role, pid, va);
    WalkEnd(m.mem, roots[pid], va);
  }

  // ---- fork ----

  lemma {:induction false} CopyKernelSpares(m0: Phys, m: Phys, roots: map<nat, nat>, role: Roles, cur: nat, child: nat, vpn: nat)
    requires ForkInv(m0, m, roots, role, child, None) && cur in roots && child in roots && cur != child
    requires KERNEL_FIRST <= vpn <= KERNEL_TOP && KernelInv(m0, m, roots, cur, child, vpn)
    ensures var r := CopyKernel(m, roots[cur], roots[child], vpn);
            !r.Panic? ==> Spares(m, r.m)
    decreases KERNEL_TOP - vpn
  {
    hide ForkInv, KernelInv, Spares, MapPage, ItPerm, ItFrame;
    SparesRefl(m);
    if vpn < KERNEL_TOP {
      var role' := CopyKernelStep(m0, m, roots, role, cur, child, vpn);
      var r := CopyKernelPage(m, roots[cur], roots[child], vpn);
      ForkInvGood(m0, m, roots, role, child, None);
      MapSpares(m, roots, role, child, vpn, ItFrame(m.mem, roots[cur], vpn), ItPerm(m.mem, roots[cur], vpn));
      if r.Ok? {
        CopyKernelSpares(m0, r.m, roots, role', cur, child, vpn + 1);
        var r' := CopyKernel(r.m, roots[cur], roots[child], vpn + 1);
        if !r'.Panic? { SparesTrans(m, r.m, r'.m); }
      }
    }
  }

  lemma ForkInvGood(m0: Phys, m: Phys, roots: map<nat, nat>, role: Roles, child: nat, leak: Option<nat>)
    requires ForkInv(m0, m, roots, role, child, leak)
    ensures Good(m, roots, role) && child in roots
  {
  }

  lemma SparesRefl(m: Phys)
    ensures Spares(m, m)
  {
  }

  lemma CopyPageSpares(m0: Phys, m: Phys, roots: map<nat, nat>, role: Roles, cur: nat, child: nat, vpn: nat)
    requires ForkInv(m0, m, roots, role, child, None) && cur in roots && child in roots && cur != child && DataPage(vpn)
    requires Leaf(m.mem, roots[cur], vpn).perm == ALL_PERM
    ensures var r := CopyPage(m, roots[cur], roots[child], vpn);
            !r.Panic? ==> Spares(m, r.m)
  {
    hide ForkInv, Spares, MapPage, CopyPage, Leaf, FindFree, Good;
    SparesRefl(m);
    if FindFree(m, 0).Some? {
      var f := FindFree(m, 0).value;
      var m2 := TakeCopy(m0, m, roots, role, cur, child, vpn, f);
      TakeSpares(m, m.mem[Leaf(m.mem, roots[cur], vpn).frame]);
      ForkInvGood(m0, m2, roots, role, child, Some(f));
      MapSpares(m2, roots, role, child, vpn, f, ALL_PERM);
      var r := CopyPage(m, roots[cur], roots[child], vpn);
      if !r.Panic? { SparesTrans(m, m2, r.m); }
    } else {
      NothingTaken(m, roots[cur], roots[child], vpn);
    }
  }

  lemma SharePageSpares(m0: Phys, m: Phys, roots: map<nat, nat>, role: Roles, cur: nat, child: nat, vpn: nat)
    requires ForkInv(m0, m, roots, role, child, None) && cur in roots && child in roots && cur != child && DataPage(vpn)
    requires UserInv(m0, m, roots, cur, child, vpn) && Leaf(m.mem, roots[cur], vpn).perm == READ_ONLY
    ensures var r := SharePage(m, roots[cur], roots[child], vpn);
            !r.Panic? ==> Spares(m, r.m)
  {
    hide ForkInv, UserInv, MapPage, Leaf, Good, SharePage, Allocatable;
    NotYetShared(m0, m, roots, role, cur, child, vpn, vpn);
    var f := Leaf(m.mem, roots[cur], vpn).frame;
    var role' := MapShared(m0, m, roots, role, child, vpn, f);
    SharePageResult(m0, m, roots, role, cur, child, vpn, role');
    ForkInvGood(m0, m, roots, role, child, None);
    MapSpares(m, roots, role, child, vpn, f, READ_ONLY);
  }

  lemma CopyUserPageSpares(m0: Phys, m: Phys, roots: map<nat, nat>, role: Roles, cur: nat, child: nat, vpn: nat)
    requires ForkInv(m0, m, roots, role, child, None) && cur in roots && child in roots && cur != child && vpn < USER_END
    requires UserInv(m0, m, roots, cur, child, vpn)
    ensures var r := CopyUserPage(m, roots[cur], roots[child], vpn);
            !r.Panic? ==> Spares(m, r.m)
  {
    hide ForkInv, UserInv, Spares, CopyPage, SharePage, Leaf, Good;
    SparesRefl(m);
    ParentPage(m0, m, roots, role, cur, child, vpn);
    var e := Leaf(m.mem, roots[cur], vpn);
    if e.perm.p && DataPage(vpn) {
      if e.perm.w {
        CopyPageSpares(m0, m, roots, role, cur, child, vpn);
      } else {
        SharePageSpares(m0, m, roots, role, cur, child, vpn);
      }
    }
  }

  lemma {:induction false} CopyUserSpares(m0: Phys, m: Phys, roots: map<nat, nat>, role: Roles, cur: nat, child: nat, vpn: nat)
    requires ForkInv(m0, m, roots, role, child, None) && cur in roots && child in roots && cur != child && vpn <= USER_END
    requires UserInv(m0, m, roots, cur, child, vpn)
    ensures var r := CopyUser(m, roots[cur], roots[child], vpn);
            !r.Panic? ==> Spares(m, r.m)
    decreases USER_END - vpn
  {
    hide ForkInv, UserInv, Spares, CopyUserPage;
    SparesRefl(m);
    if vpn < USER_END {
      var role', leak := CopyUserStep(m0, m, roots, role, cur, child, vpn);
      CopyUserPageSpares(m0, m, roots, role, cur, child, vpn);
      var r := CopyUserPage(m, roots[cur], roots[child], vpn);
      if r.Ok? {
        CopyUserSpares(m0, r.m, roots, role', cur, child, vpn + 1);
        var r' := CopyUser(r.m, roots[cur], roots[child], vpn + 1);
        if !r'.Panic? { SparesTrans(m, r.m, r'.m); }
      }
    }
  }

  lemma CopyAllSpares(m0: Phys, m: Phys, roots: map<nat, nat>, role: Roles, cur: nat, child: nat)
    requires ForkInv(m0, m, roots, role, child, None) && cur in roots && child in roots && cur != child
    requires forall v: nat :: v < USER_END ==> !Leaf(m.mem, roots[child], v).perm.p
    ensures var r := CopyAll(m, roots[cur], roots[child]);
            !r.Panic? ==> Spares(m, r.m)
  {
    KernelRoom(m0, m, roots, cur, child);
    hide ForkInv, KernelInv, UserInv, Spares, CopyKernel, CopyUser, MapPage, Leaf, Good;
    CopyKernelSpares(m0, m, roots, role, cur, child, KERNEL_FIRST);
    var role1 := CopyKernelGood(m0, m, roots, role, cur, child, KERNEL_FIRST);
    var r1 := CopyKernel(m, roots[cur], roots[child], KERNEL_FIRST);
    if r1.Ok? {
      var role2 := ConsoleStep(m0, r1.m, roots, role1, cur, child);
      ForkInvGood(m0, r1.m, roots, role1, child, None);
      MapSpares(r1.m, roots, role1, child, CONSOLE_PAGE, CONSOLE_PAGE, ALL_PERM);
      var r2 := MapConsole(r1.m, roots[child]);
      SparesTrans(m, r1.m, r2.m);
      if r2.Ok? {
        CopyUserSpares(m0, r2.m, roots, role2, cur, child, 0);
        var r3 := CopyUser(r2.m, roots[cur], roots[child], 0);
        if !r3.Panic? { SparesTrans(m, r2.m, r3.m); }
      }
    }
  }

  lemma KernelRoom(m0: Phys, m: Phys, roots: map<nat, nat>, cur: nat, child: nat)
    requires cur in roots && child in roots && forall v: nat :: v < USER_END ==> !Leaf(m.mem, roots[child], v).perm.p
    ensures KernelInv(m0, m, roots, cur, child, KERNEL_FIRST)
  {
    hide Leaf;
  }

  // ---- Giving back ----

  lemma KfreeSpares(m: Phys, kptr: Option<nat>)
    ensures Spares(m, Kfree(m, kptr))
  {
  }

  lemma {:induction false} FreeUserSpares(m: Phys, root: nat, vpn: nat)
    ensures Spares(m, FreeUser(m, root, vpn))
    decreases USER_END - vpn
  {
    hide Spares, ItPerm, ItFrame, Kfree;
    SparesRefl(m);
    if vpn < USER_END {
      KfreeSpares(m, Some(ItFrame(m.mem, root, vpn)));
      var m1 := FreeUserPage(m, root, vpn);
      FreeUserSpares(m1, root, vpn + 1);
      SparesTrans(m, m1, FreeUser(m1, root, vpn + 1));
    }
  }

  lemma {:induction false} FreeTablesSpares(m: Phys, root: nat, paths: seq<Path>)
    ensures Spares(m, FreeTables(m, root, paths))
    decreases |paths|
  {
    hide Spares, Node, Kfree;
    SparesRefl(m);
    if paths != [] {
      var m1 := Kfree(m, Node(m.mem, root, paths[0]));
      KfreeSpares(m, Node(m.mem, root, paths[0]));
      FreeTablesSpares(m1, root, paths[1..]);
      SparesTrans(m, m1, FreeTables(m1, root, paths[1..]));
    }
  }

  lemma FreePagetableSpares(m: Phys, root: nat)
    ensures Spares(m, FreePagetable(m, root))
  {
    hide Spares, FreeUser, FreeTables, Kfree, Tables;
    var m1 := FreeUser(m, root, 0);
    var m2 := FreeTables(m1, root, Tables(m1.mem, root));
    FreeUserSpares(m, root, 0);
    FreeTablesSpares(m1, root, Tables(m1.mem, root));
    KfreeSpares(m2, Some(root));
    SparesTrans(m, m1, m2);
    SparesTrans(m, m2, Kfree(m2, Some(root)));
  }

  lemma ForkSpares(s: State, role: Roles, pid: nat)
    requires Safe(s, role) && Running(s, pid) && SysFork(s, pid).Ret?
    ensures Spares(s.m, SysFork(s, pid).s.m)
  {
    hide Good, ForkInv, CopyAll, FreePagetable, Leaf, FindFree, Spares, KallocPagetable, SysFork;
    SparesRefl(s.m);
    if FindSlot(s.procs, 1).Some? && FindFree(s.m, 0).Some? {
      var child, f := FindSlot(s.procs, 1).value, FindFree(s.m, 0).value;
      ForkIs(s, pid);
      TakeSpares(s.m, ZeroPage());
      var m1, role1 := ForkStart(s, role, child, f);
      var roots := Roots(s.procs)[child := f];
      CopyAllSpares(s.m, m1, roots, role1, pid, child);
      var r := CopyAll(m1, roots[pid], f);
      if !r.Panic? {
        SparesTrans(s.m, m1, r.m);
        FreePagetableSpares(r.m, f);
        SparesTrans(s.m, r.m, FreePagetable(r.m, f));
      }
    } else {
      ForkRefused(s, pid);
    }
  }

  // ---- Starting a program ----

  lemma {:induction false} SetupKernelSpares(m0: Phys, m: Phys, roots: map<nat, nat>, role: Roles, pid: nat, vpn: nat)
    requires pid in roots && SetupInv(m0, m, roots, role, pid) && AllPrivate(m, roots[pid])
    requires KERNEL_FIRST <= vpn <= KERNEL_TOP
    ensures var r := SetupKernel(m, roots[pid], vpn);
            r.Ok? ==> Spares(m, r.m)
    decreases KERNEL_TOP - vpn
  {
    hide SetupInv, AllPrivate, MapPage, Leaf, Spares;
    SparesRefl(m);
    if vpn < KERNEL_TOP {
      var role' := SetupKernelStep(m0, m, roots, role, pid, vpn, vpn, KERNEL_ONLY);
      SetupInvGood(m0, m, roots, role, pid);
      MapSpares(m, roots, role, pid, vpn, vpn, KERNEL_ONLY);
      var r := MapPage(m, roots[pid], vpn, vpn, KERNEL_ONLY);
      if r.Ok? {
        SetupKernelSpares(m0, r.m, roots, role', pid, vpn + 1);
        var r' := SetupKernel(r.m, roots[pid], vpn + 1);
        if r'.Ok? { SparesTrans(m, r.m, r'.m); }
      }
    }
  }

  lemma SetupInvGood(m0: Phys, m: Phys, roots: map<nat, nat>, role: Roles, pid: nat)
    requires SetupInv(m0, m, roots, role, pid)
    ensures Good(m, roots, role) && pid in roots
  {
  }

  lemma {:induction false} SetupImageSpares(m0: Phys, m: Phys, roots: map<nat, nat>, role: Roles, pid: nat, pages: seq<(nat, bool)>)
    requires pid in roots && SetupInv(m0, m, roots, role, pid) && AllPrivate(m, roots[pid]) && UserPages(pages)
    ensures var r := SetupImage(m, roots[pid], pages);
            r.Ok? ==> Spares(m, r.m)
    decreases |pages|
  {
    hide SetupInv, AllPrivate, MapPage, Kalloc, Leaf, Spares, Good;
    SparesRefl(m);
    var kp := Kalloc(m).0;
    if pages != [] && kp.Some? {
      KallocFinds(m);
      TakePage(m0, m, roots, role, pid, kp.value);
      TakeSpares(m, FillPage());
      var m1 := Kalloc(m).1;
      var role' := SetupImageStep(m0, m1, roots, role, pid, pages[0].0, kp.value, pages[0].1);
      SetupInvGood(m0, m1, roots, role, pid);
      MapSpares(m1, roots, role, pid, pages[0].0, kp.value, Perm(true, pages[0].1, true));
      var r := MapPage(m1, roots[pid], pages[0].0, kp.value, Perm(true, pages[0].1, true));
      if r.Ok? {
        SetupImageSpares(m0, r.m, roots, role', pid, pages[1..]);
        var r' := SetupImage(r.m, roots[pid], pages[1..]);
        if r'.Ok? {
          SparesTrans(m, m1, r.m);
          SparesTrans(m, r.m, r'.m);
        }
      }
    }
  }

  lemma StartSpares(s: State, role: Roles, pid: nat, pages: seq<(nat, bool)>)
    requires Safe(s, role) && pid < PID_MAX && s.procs[pid].FreeSlot? && UserPages(pages)
    ensures var o := ProcessSetup(s, pid, pages);
            o.Some? ==> Spares(s.m, o.value.m)
  {
    hide Good, Leaf, SetupKernel, SetupImage, FindFree, SetupInv, AllPrivate, ProcessSetup, Blank, Spares, MapPage, KernelBuilt;
    SetupIs(s, pid, pages);
    if FindFree(s.m, 0).Some? && ProcessSetup(s, pid, pages).Some? {
      var f := FindFree(s.m, 0).value;
      var m1 := Phys(s.m.kend, s.m.mem[f := ZeroPage()], s.m.rc[f := 1]);
      TakeSpares(s.m, ZeroPage());
      var role1 := SetupStart(s, role, pid, f);
      var roots := Roots(s.procs)[pid := f];
      SetupKernelSpares(s.m, m1, roots, role1, pid, KERNEL_FIRST);
      role1 := SetupKernelGood(s.m, m1, roots, role1, pid, KERNEL_FIRST);
      var m2 := SetupKernel(m1, f, KERNEL_FIRST).m;
      var role2 := SetupKernelStep(s.m, m2, roots, role1, pid, CONSOLE_PAGE, CONSOLE_PAGE, ALL_PERM);
      SetupInvGood(s.m, m2, roots, role1, pid);
      MapSpares(m2, roots, role1, pid, CONSOLE_PAGE, CONSOLE_PAGE, ALL_PERM);
      var m3 := MapConsole(m2, f).m;
      var all := pages + [(USER_END - 1, true)];
      SetupImageSpares(s.m, m3, roots, role2, pid, all);
      SparesTrans(s.m, m1, m2);
      SparesTrans(s.m, m2, m3);
      SparesTrans(s.m, m3, SetupImage(m3, f, all).m);
    }
  }

  // ---- page_alloc and stores ----

  lemma PageAllocSpares(s: State, role: Roles, pid: nat, vpn: nat)
    requires Safe(s, role) && Running(s, pid) && vpn < USER_END
    ensures vpn * PAGESIZE < VA_END
    ensures var o := SysPageAlloc(s, pid, vpn * PAGESIZE);
            o.Ret? ==> Spares(s.m, o.s.m)
  {
    PagePathTo(vpn);
    hide Good, MapPage, Leaf, Spares;
    SparesRefl(s.m);
    if FindFree(s.m, 0).Some? {
      hide SysPageAlloc, Kalloc;
      var f := FindFree(s.m, 0).value;
      AllocStart(s, role, f);
      AllocIsMap(s, pid, vpn, f);
      TakeSpares(s.m, ZeroPage());
      var m2 := Phys(s.m.kend, s.m.mem[f := ZeroPage()], s.m.rc[f := 1]);
      MapSpares(m2, Roots(s.procs), role, pid, vpn, f, ALL_PERM);
      var r := MapPage(m2, s.procs[pid].root, vpn, f, ALL_PERM);
      if !r.Panic? { SparesTrans(s.m, m2, r.m); }
    }
  }

  /** Every kernel page but the console is as before, and no kernel page is counted that was not. */
  ghost predicate KernelKept(m: Phys, m': Phys) {
    && m'.kend == m.kend
    && forall p: nat :: p < 512 && KernelOwned(m.kend, p) ==> m'.rc[p] == m.rc[p] && (p != 0xB8 ==> m'.mem[p] == m.mem[p])
  }

  lemma SparesKeeps(m: Phys, m': Phys)
    requires Spares(m, m')
    ensures KernelKept(m, m')
  {
    forall p: nat ensures Allocatable(m.kend, p) <==> p < 512 && !KernelOwned(m.kend, p) { AllocatableExact(m.kend, p); }
    hide Allocatable, KernelOwned;
  }

  lemma StoreKeeps(s: State, role: Roles, pid: nat, vpn: nat, i: nat, word: Word)
    requires Safe(s, role) && Running(s, pid) && vpn < USER_END && i < ENTRIES
    ensures var o := UserStore(s, pid, vpn, i, word);
            o.Some? ==> KernelKept(s.m, o.value.m)
  {
    hide Leaf, KernelOwned, UserStore;
    UserStoreCorrect(s, role, pid, vpn, i, word);
    var f := Leaf(s.m.mem, s.procs[pid].root, vpn).frame;
    if UserStore(s, pid, vpn, i, word).Some? && vpn != CONSOLE_PAGE {
      assert role[f] != Unused;
      assert Allocatable(s.m.kend, f);
      AllocatableExact(s.m.kend, f);
    }
  }

  lemma StepKeepsKernel(s: State, role: Roles, e: Event)
    requires Safe(s, role) && Allowed(s, e) && Step(s, e).Some?
    ensures KernelKept(s.m, Step(s, e).value.m)
  {
    hide Good, Leaf, ProcessSetup, SysFork, SysPageAlloc, UserStore, KernelKept, FreePagetable;
    KeptRefl(s.m);
    var s' := Step(s, e).value;
    match e
    case Start(pid, pages) =>
      StartSpares(s, role, pid, pages);
      SparesKeeps(s.m, s'.m);
    case Fork(pid) =>
      ForkSpares(s, role, pid);
      SparesKeeps(s.m, s'.m);
    case Exit(pid) =>
      FreePagetableSpares(s.m, s.procs[pid].root);
      SparesKeeps(s.m, s'.m);
    case PageAlloc(pid, addr) =>
      PageAllocSpares(s, role, pid, addr / PAGESIZE);
      SparesKeeps(s.m, s'.m);
    case Store(pid, vpn, i, word) => StoreKeeps(s, role, pid, vpn, i, word);
  }

  lemma KeptRefl(m: Phys)
    ensures KernelKept(m, m)
  {
  }

  lemma KeptTrans(a: Phys, b: Phys, c: Phys)
    requires KernelKept(a, b) && KernelKept(b, c)
    ensures KernelKept(a, c)
  {
    hide KernelOwned;
  }

  lemma {:induction false} RunKeepsKernel(s: State, role: Roles, es: seq<Event>, s': State)
    requires Safe(s, role) && Run(s, es, s')
    ensures KernelKept(s.m, s'.m)
    decreases |es|
  {
    hide Good, Leaf, Step, Allowed, KernelKept, SameView;
    KeptRefl(s.m);
    if es != [] {
      var s1 := Step(s, es[0]).value;
      StepKeepsKernel(s, role, es[0]);
      var role1 := StepSafe(s, role, es[0], 0);
      RunKeepsKernel(s1, role1, es[1..], s');
      KeptTrans(s.m, s1.m, s'.m);
    }
  }

  /** On every run from boot the kernel's own pages are never counted, never handed out, and, but for the
      console, never written. */
  lemma KernelSpared(s: State, es: seq<Event>, s': State, p: nat)
    requires Boot(s) && Run(s, es, s') && p < 512
    requires p == 0 || 0x40 <= p < s.m.kend || p == 0x7F || 0xA0 <= p < 0x100
    ensures s'.m.kend == s.m.kend && s'.m.rc[p] == 0 && (p != 0xB8 ==> s'.m.mem[p] == s.m.mem[p])
    ensures Kalloc(s'.m).0 != Some(p)
  {
    hide Run, Kalloc;
    BootSafe(s);
    var role :| Safe(s, role);
    RunKeepsKernel(s, role, es, s');
    KallocExact(s'.m);
  }
}

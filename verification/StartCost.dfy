/**
 Exactly when a program start (weensyos/kernel.cc:180-249) succeeds.
 */
module StartCost {
  import opened Wrappers
  import opened Paging
  import opened PhysMem
  import opened Kernel
  import opened Invariant
  import opened Mapping
  import opened Copying
  import opened Forking
  import opened Calls
  import opened Setup
  import opened Budget
  import opened Runs

  /** The three low tables are paid for once, by the first page mapped. */
  lemma {:induction false} SetupKernelCount(m0: Phys, m: Phys, roots: map<nat, nat>, role: Roles, pid: nat, vpn: nat)
    requires pid in roots
    requires SetupInv(m0, m, roots, role, pid) && AllPrivate(m, roots[pid]) && KERNEL_FIRST <= vpn <= KERNEL_TOP
    requires LowOnly(m.mem, roots[pid])
    ensures var r := SetupKernel(m, roots[pid], vpn);
            && (!r.Ok? ==> FreeCount(m) < LowNeed(m.mem, roots[pid]))
            && (r.Ok? ==>
                  && LowOnly(r.m.mem, roots[pid])
                  && FreeCount(r.m) - LowNeed(r.m.mem, roots[pid]) == FreeCount(m) - LowNeed(m.mem, roots[pid]))
    decreases KERNEL_TOP - vpn
  {
    hide SetupInv, AllPrivate, MapPage, FreeCount, LowOnly, HasLow;
    if vpn < KERNEL_TOP {
      SetupMapCount(m0, m, roots, role, pid, vpn, vpn, KERNEL_ONLY);
      var role' := SetupKernelStep(m0, m, roots, role, pid, vpn, vpn, KERNEL_ONLY);
      var r := MapPage(m, roots[pid], vpn, vpn, KERNEL_ONLY);
      if r.Ok? { SetupKernelCount(m0, r.m, roots, role', pid, vpn + 1); }
    }
  }

  lemma SetupMapCount(m0: Phys, m: Phys, roots: map<nat, nat>, role: Roles, pid: nat, vpn: nat, frame: nat, perm: Perm)
    requires SetupInv(m0, m, roots, role, pid) && vpn < ENTRIES && perm.p && LowOnly(m.mem, roots[pid])
    ensures var r := MapPage(m, roots[pid], vpn, frame, perm);
            var k := LowNeed(m.mem, roots[pid]);
            && (r.Ok? <==> FreeCount(m) >= k)
            && (r.Ok? ==> FreeCount(r.m) == FreeCount(m) - k && LowOnly(r.m.mem, roots[pid]) && HasLow(r.m.mem, roots[pid], 0))
  {
    hide MapPage, FreeCount, LowOnly, LowNeed, HasLow;
    LowMapCount(m, roots, role, pid, vpn, frame, perm);
  }

  predicate AnyHigh(pages: seq<(nat, bool)>) {
    exists i :: 0 <= i < |pages| && pages[i].0 >= ENTRIES
  }

  /** A page for every entry of the image, and a table if one lies at or above 0x200. */
  lemma {:induction false} SetupImageCount(m0: Phys, m: Phys, roots: map<nat, nat>, role: Roles, pid: nat, pages: seq<(nat, bool)>)
    requires pid in roots
    requires SetupInv(m0, m, roots, role, pid) && AllPrivate(m, roots[pid]) && UserPages(pages)
    requires HasLow(m.mem, roots[pid], 0) && Node(m.mem, roots[pid], LOW).Some?
    ensures var r := SetupImage(m, roots[pid], pages);
            var n := |pages| + (if !HasLow(m.mem, roots[pid], 1) && AnyHigh(pages) then 1 else 0);
            && (r.Ok? <==> FreeCount(m) >= n)
            && (r.Ok? ==> FreeCount(r.m) == FreeCount(m) - n)
    decreases |pages|
  {
    hide SetupInv, AllPrivate, MapPage, Kalloc, FreeCount, HasLow, Node;
    if pages != [] {
      KallocFinds(m);
      FindFreeCount(m);
      assert AnyHigh(pages) <==> pages[0].0 >= ENTRIES || AnyHigh(pages[1..]) by {
        if AnyHigh(pages) { HighSplit(pages); }
        if AnyHigh(pages[1..]) {
          var i :| 0 <= i < |pages[1..]| && pages[1..][i].0 >= ENTRIES;
          assert pages[i + 1].0 >= ENTRIES;
        }
      }
      var kp := Kalloc(m).0;
      if kp.Some? {
        TakePage(m0, m, roots, role, pid, kp.value);
        var m1 := Kalloc(m).1;
        var vpn, perm := pages[0].0, Perm(true, pages[0].1, true);
        ImagePageCount(m0, m, roots, role, pid, vpn, perm);
        var role' := SetupImageStep(m0, m1, roots, role, pid, vpn, kp.value, pages[0].1);
        var r := MapPage(m1, roots[pid], vpn, kp.value, perm);
        if r.Ok? {
          LowsUp(r.m.mem, roots[pid]);
          SetupImageCount(m0, r.m, roots, role', pid, pages[1..]);
        }
      }
    }
  }

  lemma HighSplit(pages: seq<(nat, bool)>)
    requires AnyHigh(pages)
    ensures pages[0].0 >= ENTRIES || AnyHigh(pages[1..])
  {
    var i :| 0 <= i < |pages| && pages[i].0 >= ENTRIES;
    if i > 0 { assert pages[1..][i - 1].0 >= ENTRIES; }
  }

  lemma ImagePageCount(m0: Phys, m: Phys, roots: map<nat, nat>, role: Roles, pid: nat, vpn: nat, perm: Perm)
    requires SetupInv(m0, m, roots, role, pid) && AllPrivate(m, roots[pid]) && vpn < USER_END && perm.p
    requires HasLow(m.mem, roots[pid], 0) && Node(m.mem, roots[pid], LOW).Some? && FindFree(m, 0).Some?
    ensures Kalloc(m).0.Some?
    ensures var r := MapPage(Kalloc(m).1, roots[pid], vpn, Kalloc(m).0.value, perm);
            var table := vpn >= ENTRIES && !HasLow(m.mem, roots[pid], 1);
            var k := if table then 2 else 1;
            && (r.Ok? <==> FreeCount(m) >= k)
            && (r.Ok? ==>
                  && FreeCount(r.m) == FreeCount(m) - k
                  && HasLow(r.m.mem, roots[pid], 0)
                  && (HasLow(r.m.mem, roots[pid], 1) <==> HasLow(m.mem, roots[pid], 1) || table))
  {
    hide MapPage, FreeCount, HasLow, Good, AllPrivate, Missing, Kalloc, Node, Leaf, LowAfter;
    var f := FindFree(m, 0).value;
    var m1 := Kalloc(m).1;
    TakePage(m0, m, roots, role, pid, f);
    TakenCount(m, f, m1.mem);
    WrittenTables(m, roots, role, pid, f, FillPage(), vpn);
    MissingTables(m.mem, roots[pid], vpn);
    MapCount(m1, roots, role, pid, vpn, f, perm);
    var r := MapPage(m1, roots[pid], vpn, f, perm);
    if r.Ok? { LowsNow(m1.mem, r.m.mem, roots[pid], vpn); }
  }

  lemma LowsNow(mem: Memory, mem': Memory, root: nat, vpn: nat)
    requires LowAfter(mem, mem', root, vpn)
    ensures forall i :: 0 <= i < 2 ==> (HasLow(mem', root, i) <==> HasLow(mem, root, i) || i == vpn / ENTRIES)
  {
    hide HasLow;
  }

  /** Starting a program takes a root, three low tables, the table of the stack, the stack page and a
      page for every image entry; it succeeds if and only if there are as many free pages. */
  lemma StartExact(s: State, role: Roles, pid: nat, pages: seq<(nat, bool)>)
    requires Safe(s, role) && pid < PID_MAX && s.procs[pid].FreeSlot? && UserPages(pages)
    ensures var o := ProcessSetup(s, pid, pages);
            && (o.Some? <==> FreeCount(s.m) >= |pages| + 6)
            && (o.Some? ==> FreeCount(o.value.m) == FreeCount(s.m) - (|pages| + 6))
  {
    hide Good, ProcessSetup, SetupAll, FreeCount, SetupInv, AllPrivate, Blank, UserPages;
    SetupIs(s, pid, pages);
    FindFreeCount(s.m);
    var kp := FindFree(s.m, 0);
    if kp.Some? {
      var f := kp.value;
      var m1 := Phys(s.m.kend, s.m.mem[f := ZeroPage()], s.m.rc[f := 1]);
      var role1 := SetupStart(s, role, pid, f);
      TakenCount(s.m, f, m1.mem);
      NewRoot(m1.mem, f);
      StackHigh(pages);
      SetupAllCount(s.m, m1, Roots(s.procs)[pid := f], role1, pid, pages + [(USER_END - 1, true)]);
    }
  }

  lemma NewRoot(mem: Memory, f: nat)
    requires f < NPAGES && mem[f] == ZeroPage()
    ensures LowOnly(mem, f) && LowNeed(mem, f) == 3
  {
    EmptyTree(mem, f, Sub(Root, 0));
    BareTree(mem, f);
  }

  lemma StackHigh(pages: seq<(nat, bool)>)
    requires UserPages(pages)
    ensures UserPages(pages + [(USER_END - 1, true)]) && AnyHigh(pages + [(USER_END - 1, true)])
  {
    assert (pages + [(USER_END - 1, true)])[|pages|].0 >= ENTRIES;
  }

  lemma SetupAllCount(m0: Phys, m: Phys, roots: map<nat, nat>, role: Roles, pid: nat, pages: seq<(nat, bool)>)
    requires pid in roots
    requires SetupInv(m0, m, roots, role, pid) && AllPrivate(m, roots[pid]) && UserPages(pages) && AnyHigh(pages)
    requires LowOnly(m.mem, roots[pid]) && LowNeed(m.mem, roots[pid]) == 3
    ensures var r := SetupAll(m, roots[pid], pages);
            && (r.Ok? <==> FreeCount(m) >= |pages| + 4)
            && (r.Ok? ==> FreeCount(r.m) == FreeCount(m) - (|pages| + 4))
  {
    hide SetupInv, AllPrivate, MapPage, SetupKernel, SetupImage, FreeCount, HasLow, LowNeed, AnyHigh;
    SetupKernelCount(m0, m, roots, role, pid, KERNEL_FIRST);
    var role' := SetupKernelGood(m0, m, roots, role, pid, KERNEL_FIRST);
    var r1 := SetupKernel(m, roots[pid], KERNEL_FIRST);
    if r1.Ok? {
      SetupMapCount(m0, r1.m, roots, role', pid, CONSOLE_PAGE, CONSOLE_PAGE, ALL_PERM);
      role' := SetupKernelStep(m0, r1.m, roots, role', pid, CONSOLE_PAGE, CONSOLE_PAGE, ALL_PERM);
      var r2 := MapConsole(r1.m, roots[pid]);
      if r2.Ok? {
        LowsUp(r2.m.mem, roots[pid]);
        SetupImageCount(m0, r2.m, roots, role', pid, pages);
      }
    }
  }

  // ---- No table beyond process memory ----

  /** The table for the pages from 0x400 on, which no process page needs. */
  const BEYOND := 2

  lemma {:induction false} SetupKernelBeyond(m0: Phys, m: Phys, roots: map<nat, nat>, role: Roles, pid: nat, vpn: nat)
    requires pid in roots
    requires SetupInv(m0, m, roots, role, pid) && AllPrivate(m, roots[pid]) && KERNEL_FIRST <= vpn <= KERNEL_TOP
    ensures var r := SetupKernel(m, roots[pid], vpn);
            r.Ok? ==> (HasLow(r.m.mem, roots[pid], BEYOND) <==> HasLow(m.mem, roots[pid], BEYOND))
    decreases KERNEL_TOP - vpn
  {
    hide SetupInv, AllPrivate, MapPage, HasLow;
    if vpn < KERNEL_TOP {
      MapBeyond(m0, m, roots, role, pid, vpn, vpn, KERNEL_ONLY);
      var role' := SetupKernelStep(m0, m, roots, role, pid, vpn, vpn, KERNEL_ONLY);
      var r := MapPage(m, roots[pid], vpn, vpn, KERNEL_ONLY);
      if r.Ok? { SetupKernelBeyond(m0, r.m, roots, role', pid, vpn + 1); }
    }
  }

  lemma MapBeyond(m0: Phys, m: Phys, roots: map<nat, nat>, role: Roles, pid: nat, vpn: nat, frame: nat, perm: Perm)
    requires SetupInv(m0, m, roots, role, pid) && vpn < USER_END && perm.p
    ensures var r := MapPage(m, roots[pid], vpn, frame, perm);
            r.Ok? ==> (HasLow(r.m.mem, roots[pid], BEYOND) <==> HasLow(m.mem, roots[pid], BEYOND))
  {
    hide MapPage, FreeCount, HasLow, Good, Missing;
    MapCount(m, roots, role, pid, vpn, frame, perm);
  }

  lemma {:induction false} SetupImageBeyond(m0: Phys, m: Phys, roots: map<nat, nat>, role: Roles, pid: nat, pages: seq<(nat, bool)>)
    requires pid in roots
    requires SetupInv(m0, m, roots, role, pid) && AllPrivate(m, roots[pid]) && UserPages(pages)
    ensures var r := SetupImage(m, roots[pid], pages);
            r.Ok? ==> (HasLow(r.m.mem, roots[pid], BEYOND) <==> HasLow(m.mem, roots[pid], BEYOND))
    decreases |pages|
  {
    hide SetupInv, AllPrivate, MapPage, Kalloc, HasLow;
    if pages != [] {
      KallocFinds(m);
      var kp := Kalloc(m).0;
      if kp.Some? {
        TakePage(m0, m, roots, role, pid, kp.value);
        var m1 := Kalloc(m).1;
        var vpn, perm := pages[0].0, Perm(true, pages[0].1, true);
        TakenBeyond(m0, m, roots, role, pid, kp.value);
        MapBeyond(m0, m1, roots, role, pid, vpn, kp.value, perm);
        var role' := SetupImageStep(m0, m1, roots, role, pid, vpn, kp.value, pages[0].1);
        var r := MapPage(m1, roots[pid], vpn, kp.value, perm);
        if r.Ok? { SetupImageBeyond(m0, r.m, roots, role', pid, pages[1..]); }
      }
    }
  }

  lemma TakenBeyond(m0: Phys, m: Phys, roots: map<nat, nat>, role: Roles, pid: nat, f: nat)
    requires SetupInv(m0, m, roots, role, pid) && f < NPAGES && role[f] == Unused
    ensures HasLow(m.mem[f := FillPage()], roots[pid], BEYOND) <==> HasLow(m.mem, roots[pid], BEYOND)
  {
    hide HasLow, Good, Missing;
    WrittenTables(m, roots, role, pid, f, FillPage(), 0);
  }

  lemma SetupAllBeyond(m0: Phys, m: Phys, roots: map<nat, nat>, role: Roles, pid: nat, pages: seq<(nat, bool)>)
    requires pid in roots
    requires SetupInv(m0, m, roots, role, pid) && AllPrivate(m, roots[pid]) && UserPages(pages)
    ensures var r := SetupAll(m, roots[pid], pages);
            r.Ok? ==> (HasLow(r.m.mem, roots[pid], BEYOND) <==> HasLow(m.mem, roots[pid], BEYOND))
  {
    hide SetupInv, AllPrivate, MapPage, SetupKernel, SetupImage, HasLow;
    SetupKernelBeyond(m0, m, roots, role, pid, KERNEL_FIRST);
    var role' := SetupKernelGood(m0, m, roots, role, pid, KERNEL_FIRST);
    var r1 := SetupKernel(m, roots[pid], KERNEL_FIRST);
    if r1.Ok? {
      MapBeyond(m0, r1.m, roots, role', pid, CONSOLE_PAGE, CONSOLE_PAGE, ALL_PERM);
      role' := SetupKernelStep(m0, r1.m, roots, role', pid, CONSOLE_PAGE, CONSOLE_PAGE, ALL_PERM);
      var r2 := MapConsole(r1.m, roots[pid]);
      if r2.Ok? { SetupImageBeyond(m0, r2.m, roots, role', pid, pages); }
    }
  }

  /** A program just started has no table for addresses from 0x400000 on. */
  lemma StartedWithin(s: State, role: Roles, pid: nat, pages: seq<(nat, bool)>)
    requires Safe(s, role) && pid < PID_MAX && s.procs[pid].FreeSlot? && UserPages(pages)
    requires ProcessSetup(s, pid, pages).Some?
    ensures var s' := ProcessSetup(s, pid, pages).value;
            s'.procs[pid].Live? && !HasLow(s'.m.mem, s'.procs[pid].root, BEYOND)
  {
    hide Good, ProcessSetup, SetupAll, SetupInv, AllPrivate, Blank, UserPages, FindFree;
    SetupIs(s, pid, pages);
    var f := FindFree(s.m, 0).value;
    var m1 := Phys(s.m.kend, s.m.mem[f := ZeroPage()], s.m.rc[f := 1]);
    var role1 := SetupStart(s, role, pid, f);
    EmptyTree(m1.mem, f, Sub(LOW, BEYOND));
    StackHigh(pages);
    SetupAllBeyond(s.m, m1, Roots(s.procs)[pid := f], role1, pid, pages + [(USER_END - 1, true)]);
  }

  // ---- After boot ----

  /** After boot at least the pages below the kernel are free. */
  lemma BootPages(s: State)
    requires Boot(s)
    ensures KERNEL_FIRST - 1 <= FreeCount(s.m) <= NPAGES
  {
    SubsetCard(Range(1, KERNEL_FIRST - 1), FreePages(s.m));
    SubsetCard(FreePages(s.m), Range(0, NPAGES));
  }

  /** Any program with a small image starts, so that there are runs from every boot state. */
  lemma StartFromBoot(s: State, pages: seq<(nat, bool)>) returns (s1: State, role1: Roles)
    requires Boot(s) && UserPages(pages) && |pages| + 6 <= FreeCount(s.m)
    ensures Run(s, [Event.Start(1, pages)], s1) && ProcessSetup(s, 1, pages) == Some(s1)
    ensures Safe(s1, role1) && Started(s, s1, 1, pages) && FreeCount(s1.m) == FreeCount(s.m) - (|pages| + 6)
    ensures FindSlot(s1.procs, 1) == Some(2)
  {
    hide Good, ProcessSetup, FreeCount, Loaded, UserPages;
    BootSafe(s);
    var role :| Safe(s, role);
    StartExact(s, role, 1, pages);
    role1 := ProcessSetupCorrect(s, role, 1, pages);
    s1 := ProcessSetup(s, 1, pages).value;
    OneStep(s, Event.Start(1, pages), s1);
    assert s1.procs[1].Live? && s1.procs[2].FreeSlot?;
  }
}

/**
 `process_setup` (weensyos/kernel.cc:180-249): starting a program keeps the invariant.
 */
module Setup {
  import opened Wrappers
  import opened Paging
  import opened PhysMem
  import opened Kernel
  import opened Invariant
  import opened Mapping
  import opened Copying
  import opened Forking
  import opened Calls
  import opened Allocation

  predicate UserPages(pages: seq<(nat, bool)>) {
    forall i :: 0 <= i < |pages| ==> USER_FIRST <= pages[i].0 < USER_END
  }

  /** A program being set up from `m0`: everyone else's pages and entries are as they were. */
  ghost predicate SetupInv(m0: Phys, m: Phys, roots: map<nat, nat>, role: Roles, pid: nat) {
    && pid in roots && Good(m, roots, role) && m.kend == m0.kend
    && (forall p: nat :: p < NPAGES && m0.rc[p] != 0 ==>
          m.rc[p] != 0 && m.mem[p] == m0.mem[p] && !Uses(role[p], pid))
    && (forall q: nat, v: nat :: q in roots && q != pid && v < USER_END ==>
          Leaf(m.mem, roots[q], v) == Leaf(m0.mem, roots[q], v))
  }

  /** The process pages mapped so far are not shared. */
  ghost predicate AllPrivate(m: Phys, root: nat) {
    forall v: nat :: DataPage(v) ==> Private(m, root, v)
  }

  lemma SetupKernelStep(m0: Phys, m: Phys, roots: map<nat, nat>, role: Roles, pid: nat, vpn: nat, frame: nat, perm: Perm)
    returns (role': Roles)
    requires SetupInv(m0, m, roots, role, pid) && AllPrivate(m, roots[pid])
    requires !DataPage(vpn) && vpn < USER_END && perm.p && LeafOk(role, pid, vpn, EntryWord(frame, perm))
    ensures var r := MapPage(m, roots[pid], vpn, frame, perm);
            && !r.Panic?
            && (r.Ok? ==>
                  && SetupInv(m0, r.m, roots, role', pid) && AllPrivate(r.m, roots[pid])
                  && LeavesAfter(m.mem, r.m.mem, roots, pid, vpn, EntryWord(frame, perm)))
  {
    hide Good, MapPage, Leaf, LeafOk;
    role' := MapKernelPage(m, roots, role, pid, vpn, frame, perm);
    var r := MapPage(m, roots[pid], vpn, frame, perm);
    if r.Ok? {
      forall v: nat | DataPage(v) ensures Private(r.m, roots[pid], v) {
        assert Private(m, roots[pid], v);
        assert Leaf(r.m.mem, roots[pid], v) == Leaf(m.mem, roots[pid], v);
      }
    }
  }

  /** The kernel pages from `from` on are mapped to themselves, every other entry is as before. */
  ghost predicate KernelBuilt(mem: Memory, mem': Memory, root: nat, from: nat) {
    forall v: nat :: v < USER_END ==>
      Leaf(mem', root, v) == if from <= v < KERNEL_TOP then EntryWord(v, KERNEL_ONLY) else Leaf(mem, root, v)
  }

  lemma {:induction false} SetupKernelGood(m0: Phys, m: Phys, roots: map<nat, nat>, role: Roles, pid: nat, vpn: nat)
    returns (role': Roles)
    requires pid in roots
    requires SetupInv(m0, m, roots, role, pid) && AllPrivate(m, roots[pid]) && KERNEL_FIRST <= vpn <= KERNEL_TOP
    ensures var r := SetupKernel(m, roots[pid], vpn);
            && !r.Panic?
            && (r.Ok? ==>
                  && SetupInv(m0, r.m, roots, role', pid) && AllPrivate(r.m, roots[pid])
                  && KernelBuilt(m.mem, r.m.mem, roots[pid], vpn))
    decreases KERNEL_TOP - vpn
  {
    hide SetupInv, AllPrivate, MapPage, Leaf;
    role' := role;
    if vpn < KERNEL_TOP {
      assert SetupInv(m0, m, roots, role, pid);
      role' := SetupKernelStep(m0, m, roots, role, pid, vpn, vpn, KERNEL_ONLY);
      var r := MapPage(m, roots[pid], vpn, vpn, KERNEL_ONLY);
      if r.Ok? {
        role' := SetupKernelGood(m0, r.m, roots, role', pid, vpn + 1);
      }
    }
  }

  /** Taking a page for the image. */
  lemma TakePage(m0: Phys, m: Phys, roots: map<nat, nat>, role: Roles, pid: nat, f: nat)
    requires SetupInv(m0, m, roots, role, pid) && AllPrivate(m, roots[pid]) && FindFree(m, 0) == Some(f)
    ensures var m1 := Kalloc(m).1;
            && Kalloc(m).0 == Some(f) && SetupInv(m0, m1, roots, role, pid) && AllPrivate(m1, roots[pid])
            && m1.rc[f] == 1 && role[f] == Unused && Allocatable(m.kend, f) && m0.rc[f] == 0
            && SameLeaves(m.mem, m1.mem, roots) && m1 == Phys(m.kend, m.mem[f := FillPage()], m.rc[f := 1])
  {
    var m1 := Kalloc(m).1;
    assert m1 == Phys(m.kend, m.mem[f := FillPage()], m.rc[f := 1]);
    assert Free(m, f);
    hide Good, Leaf, Kalloc;
    KallocGood(m, roots, role, f, FillPage());
    forall v: nat | DataPage(v) ensures Private(m1, roots[pid], v) {
      assert Private(m, roots[pid], v);
      assert Leaf(m1.mem, roots[pid], v) == Leaf(m.mem, roots[pid], v);
    }
  }

  lemma SetupImageStep(m0: Phys, m: Phys, roots: map<nat, nat>, role: Roles, pid: nat, vpn: nat, f: nat, w: bool)
    returns (role': Roles)
    requires SetupInv(m0, m, roots, role, pid) && AllPrivate(m, roots[pid]) && DataPage(vpn)
    requires f < NPAGES && m.rc[f] == 1 && role[f] == Unused && Allocatable(m.kend, f) && m0.rc[f] == 0
    ensures var r := MapPage(m, roots[pid], vpn, f, Perm(true, w, true));
            && !r.Panic?
            && (r.Ok? ==>
                  && SetupInv(m0, r.m, roots, role', pid) && AllPrivate(r.m, roots[pid])
                  && LeavesAfter(m.mem, r.m.mem, roots, pid, vpn, EntryWord(f, Perm(true, w, true))))
  {
    hide Good, MapPage, Leaf;
    assert Private(m, roots[pid], vpn);
    role' := MapFreshAt(m, roots, role, pid, vpn, f, w);
    var r := MapPage(m, roots[pid], vpn, f, Perm(true, w, true));
    if r.Ok? {
      forall v: nat | DataPage(v) ensures Private(r.m, roots[pid], v) {
        assert Private(m, roots[pid], v);
        assert Leaf(r.m.mem, roots[pid], v)
            == if v == vpn then EntryWord(f, Perm(true, w, true)) else Leaf(m.mem, roots[pid], v);
      }
    }
  }

  /** Whether the image maps page `v`, and then whether writable: the last entry for it counts. */
  function ImageEntry(pages: seq<(nat, bool)>, v: nat): Option<bool>
    decreases |pages|
  {
    if pages == [] then None
    else if ImageEntry(pages[1..], v).Some? then ImageEntry(pages[1..], v)
    else if pages[0].0 == v then Some(pages[0].1)
    else None
  }

  ghost predicate ImageBuilt(mem: Memory, mem': Memory, root: nat, pages: seq<(nat, bool)>) {
    forall v: nat :: v < USER_END ==>
      match ImageEntry(pages, v)
      case None => Leaf(mem', root, v) == Leaf(mem, root, v)
      case Some(w) => Leaf(mem', root, v).perm == Perm(true, w, true)
  }

  lemma {:induction false} SetupImageGood(m0: Phys, m: Phys, roots: map<nat, nat>, role: Roles, pid: nat, pages: seq<(nat, bool)>)
    returns (role': Roles)
    requires pid in roots
    requires SetupInv(m0, m, roots, role, pid) && AllPrivate(m, roots[pid]) && UserPages(pages)
    ensures var r := SetupImage(m, roots[pid], pages);
            r.Ok? ==>
              && SetupInv(m0, r.m, roots, role', pid) && AllPrivate(r.m, roots[pid])
              && ImageBuilt(m.mem, r.m.mem, roots[pid], pages)
    decreases |pages|
  {
    hide SetupInv, AllPrivate, MapPage, Kalloc, Leaf;
    role' := role;
    if pages != [] {
      var kp := Kalloc(m).0;
      if kp.Some? {
        KallocFinds(m);
        TakePage(m0, m, roots, role, pid, kp.value);
        var m1 := Kalloc(m).1;
        role' := SetupImageStep(m0, m1, roots, role, pid, pages[0].0, kp.value, pages[0].1);
        var r := MapPage(m1, roots[pid], pages[0].0, kp.value, Perm(true, pages[0].1, true));
        if r.Ok? {
          role' := SetupImageGood(m0, r.m, roots, role', pid, pages[1..]);
        }
      }
    }
  }

  lemma KallocFinds(m: Phys)
    ensures Kalloc(m).0 == FindFree(m, 0) && Kalloc(m).1.kend == m.kend
    ensures Kalloc(m).0.Some? ==> Kalloc(m).0.value < NPAGES
  {
  }

  /** The address space of a new process: the kernel's pages for the kernel only, the console, and the
      pages of its image. */
  ghost predicate Loaded(mem: Memory, root: nat, pages: seq<(nat, bool)>) {
    forall v: nat :: v < USER_END ==>
      var e := Leaf(mem, root, v);
      if KernelPage(v) then e == EntryWord(v, KERNEL_ONLY)
      else
        match ImageEntry(pages, v)
        case Some(w) => e.perm == Perm(true, w, true)
        case None => if v == CONSOLE_PAGE then e == EntryWord(CONSOLE_PAGE, ALL_PERM) else e == ZERO
  }

  ghost predicate Blank(mem: Memory, root: nat) {
    forall v: nat :: v < USER_END ==> Leaf(mem, root, v) == ZERO
  }

  lemma ImageAbove(pages: seq<(nat, bool)>, v: nat)
    requires UserPages(pages) && v < USER_FIRST
    ensures ImageEntry(pages, v).None?
  {
  }

  lemma SetupAllGood(m0: Phys, m: Phys, roots: map<nat, nat>, role: Roles, pid: nat, pages: seq<(nat, bool)>)
    returns (role': Roles)
    requires pid in roots
    requires SetupInv(m0, m, roots, role, pid) && AllPrivate(m, roots[pid]) && UserPages(pages)
    requires Blank(m.mem, roots[pid])
    ensures var r := SetupAll(m, roots[pid], pages);
            r.Ok? ==>
              SetupInv(m0, r.m, roots, role', pid) && AllPrivate(r.m, roots[pid]) && Loaded(r.m.mem, roots[pid], pages)
  {
    hide SetupInv, AllPrivate, MapPage, SetupKernel, SetupImage, Leaf;
    role' := SetupKernelGood(m0, m, roots, role, pid, KERNEL_FIRST);
    var r1 := SetupKernel(m, roots[pid], KERNEL_FIRST);
    if r1.Ok? {
      role' := SetupKernelStep(m0, r1.m, roots, role', pid, CONSOLE_PAGE, CONSOLE_PAGE, ALL_PERM);
      var r2 := MapConsole(r1.m, roots[pid]);
      if r2.Ok? {
        role' := SetupImageGood(m0, r2.m, roots, role', pid, pages);
        forall v: nat | v < USER_FIRST ensures ImageEntry(pages, v).None? { ImageAbove(pages, v); }
      }
    }
  }

  lemma SetupStart(s: State, role: Roles, pid: nat, f: nat) returns (role1: Roles)
    requires Safe(s, role) && pid < PID_MAX && s.procs[pid].FreeSlot? && Free(s.m, f)
    ensures var m1 := Phys(s.m.kend, s.m.mem[f := ZeroPage()], s.m.rc[f := 1]);
            && SetupInv(s.m, m1, Roots(s.procs)[pid := f], role1, pid) && AllPrivate(m1, f)
            && Blank(m1.mem, f)
  {
    var m1;
    m1, role1 := ForkStart(s, role, pid, f);
    forall p: nat | p < NPAGES ensures CountOk(role[p], s.m.rc[p]) {}
  }

  /** The call takes a root page and then sets the address space up. */
  lemma SetupIs(s: State, pid: nat, pages: seq<(nat, bool)>)
    requires pid < PID_MAX
    ensures var kp := FindFree(s.m, 0);
            && (kp.None? ==> ProcessSetup(s, pid, pages).None?)
            && (kp.Some? ==>
                  var m1 := Phys(s.m.kend, s.m.mem[kp.value := ZeroPage()], s.m.rc[kp.value := 1]);
                  var r := SetupAll(m1, kp.value, pages + [(USER_END - 1, true)]);
                  ProcessSetup(s, pid, pages)
                  == if r.Ok? then Some(State(r.m, s.procs[pid := Live(kp.value)])) else None)
  {
    hide SetupAll, FindFree, KallocPagetable;
    PagetableTaken(s.m);
  }

  /** Process `pid` is new, with its image, the stack page, the console and the kernel's pages mapped and
      nothing else; everyone else is as before. */
  ghost predicate Started(s: State, s': State, pid: nat, pages: seq<(nat, bool)>)
    requires pid < PID_MAX
  {
    && s'.procs[pid].Live? && s'.procs == s.procs[pid := s'.procs[pid]]
    && Loaded(s'.m.mem, s'.procs[pid].root, pages + [(USER_END - 1, true)])
    && UsedUnchanged(s.m, s'.m)
    && forall q: nat :: Running(s, q) ==> SameEntries(s, s', q)
  }

  /** `process_setup`, when it does not run out of memory, starts a process beside the others. */
  lemma ProcessSetupCorrect(s: State, role: Roles, pid: nat, pages: seq<(nat, bool)>) returns (role': Roles)
    requires Safe(s, role) && pid < PID_MAX && s.procs[pid].FreeSlot? && UserPages(pages)
    ensures var o := ProcessSetup(s, pid, pages);
            o.Some? ==>
              && Safe(o.value, role') && Started(s, o.value, pid, pages)
              && (forall p: nat :: p < NPAGES && s.m.rc[p] != 0 ==> !Uses(role'[p], pid))
              && AllPrivate(o.value.m, o.value.procs[pid].root) && o.value.m.kend == s.m.kend
  {
    hide Good, Leaf, SetupAll, FindFree, SetupInv, AllPrivate, Loaded, ProcessSetup, Blank, SameEntries;
    role' := role;
    SetupIs(s, pid, pages);
    var kp := FindFree(s.m, 0);
    if kp.Some? {
      var f := kp.value;
      var m1 := Phys(s.m.kend, s.m.mem[f := ZeroPage()], s.m.rc[f := 1]);
      var role1 := SetupStart(s, role, pid, f);
      var roots := Roots(s.procs)[pid := f];
      var all := pages + [(USER_END - 1, true)];
      role' := SetupAllGood(s.m, m1, roots, role1, pid, all);
      var r := SetupAll(m1, f, all);
      if r.Ok? {
        SetupKeeps(s, r.m, roots, role', pid, f);
      }
    }
  }

  lemma SetupKeeps(s: State, m: Phys, roots: map<nat, nat>, role: Roles, pid: nat, f: nat)
    requires pid < PID_MAX && s.procs[pid].FreeSlot? && roots == Roots(s.procs)[pid := f]
    requires SetupInv(s.m, m, roots, role, pid)
    ensures var s' := State(m, s.procs[pid := Live(f)]);
            && Safe(s', role) && UsedUnchanged(s.m, m) && m.kend == s.m.kend
            && (forall p: nat :: p < NPAGES && s.m.rc[p] != 0 ==> !Uses(role[p], pid))
            && forall q: nat :: Running(s, q) ==> SameEntries(s, s', q)
  {
    hide Good, Leaf;
    assert Roots(s.procs[pid := Live(f)]) == roots;
    forall q: nat | Running(s, q) ensures SameEntries(s, State(m, s.procs[pid := Live(f)]), q) {
      assert q in roots && q != pid;
    }
  }
}

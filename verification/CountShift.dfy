/**
 Memory in which one page is counted `k` times too often behaves like memory with the right count, as
 long as neither count is zero.  The count has 8 bits, so the difference is taken modulo 256.
 */
module CountShift {
  import opened Wrappers
  import opened Paging
  import opened PhysMem
  import opened PostOrder
  import opened Kernel

  function Shift(m: Phys, p: nat, k: nat): Phys
    requires p < NPAGES
  {
    Phys(m.kend, m.mem, m.rc[p := (m.rc[p] + k) % 256])
  }

  /** Neither the right count nor the shifted one is zero, and no wrap-around lies between them. */
  predicate BothCounted(m: Phys, p: nat, k: nat) {
    p < NPAGES && m.rc[p] >= 1 && m.rc[p] + k < 256
  }

  function ShiftResult(r: Result, p: nat, k: nat): Result
    requires p < NPAGES
  {
    match r
    case Ok(m) => Ok(Shift(m, p, k))
    case NoMemory(m) => NoMemory(Shift(m, p, k))
    case Panic => Panic
  }

  lemma {:induction false} ShiftFind(m: Phys, p: nat, k: nat, q: nat)
    requires BothCounted(m, p, k) && q <= NPAGES
    ensures FindFree(Shift(m, p, k), q) == FindFree(m, q)
    decreases NPAGES - q
  {
    if q < NPAGES { ShiftFind(m, p, k, q + 1); }
  }

  lemma ShiftKalloc(m: Phys, p: nat, k: nat)
    requires BothCounted(m, p, k)
    ensures Kalloc(Shift(m, p, k)) == (Kalloc(m).0, Shift(Kalloc(m).1, p, k))
    ensures Kalloc(m).1.rc[p] == m.rc[p]
  {
    ShiftFind(m, p, k, 0);
    var kp := FindFree(m, 0);
    if kp.Some? {
      assert Kalloc(Shift(m, p, k)).1.rc == Shift(Kalloc(m).1, p, k).rc;
    }
  }

  lemma {:induction false} ShiftGrow(m: Phys, w: Walked, va: nat, p: nat, k: nat)
    requires w.pep.Slot? && w.pep.page < NPAGES && w.pep.idx < ENTRIES && IsLevel(w.lbits)
    requires BothCounted(m, p, k)
    ensures var g := Grow(m, w, va);
            Grow(Shift(m, p, k), w, va) == Grown(g.ok, Shift(g.m, p, k), g.w) && g.m.rc[p] == m.rc[p]
    decreases w.lbits
  {
    hide Kalloc, FindFree;
    if w.lbits > PAGEOFFBITS {
      ShiftKalloc(m, p, k);
      var (kp, m1) := Kalloc(m);
      if kp.Some? {
        KallocInRam(m);
        var link := EntryWord(kp.value, ALL_PERM);
        var mem2 := SetEntry(m1.mem[kp.value := ZeroPage()], w.pep.page, w.pep.idx, link);
        var l := w.lbits - PAGEINDEXBITS;
        ShiftGrow(Phys(m1.kend, mem2, m1.rc), Walked(Slot(kp.value, Index(va, l)), l, Meet(w.perm, ALL_PERM)), va, p, k);
      }
    }
  }

  lemma KallocInRam(m: Phys)
    ensures Kalloc(m).0.Some? ==> Kalloc(m).0.value < NPAGES
  {
  }

  lemma ShiftTryMap(m: Phys, w: Walked, va: nat, frame: nat, perm: Perm, p: nat, k: nat)
    requires CanMap(m, w, va, frame, perm) && BothCounted(m, p, k)
    ensures CanMap(Shift(m, p, k), w, va, frame, perm)
    ensures var g := TryMap(m, w, va, frame, perm);
            TryMap(Shift(m, p, k), w, va, frame, perm) == Grown(g.ok, Shift(g.m, p, k), g.w) && g.m.rc[p] == m.rc[p]
  {
    hide Grow;
    ShiftGrow(m, w, va, p, k);
  }

  lemma ShiftMap(m: Phys, pt: nat, vpn: nat, frame: nat, perm: Perm, p: nat, k: nat)
    requires BothCounted(m, p, k)
    ensures var r := MapPage(m, pt, vpn, frame, perm);
            MapPage(Shift(m, p, k), pt, vpn, frame, perm) == ShiftResult(r, p, k) && (!r.Panic? ==> r.m.rc[p] == m.rc[p])
  {
    hide TryMap, Walk;
    if Mappable(m, pt, vpn, frame, perm) {
      ShiftTryMap(m, WalkPage(m.mem, pt, vpn), vpn * PAGESIZE, frame, perm, p, k);
    }
  }

  // ---- fork ----

  lemma {:induction false} ShiftKernel(m: Phys, cur: nat, pt: nat, vpn: nat, p: nat, k: nat)
    requires BothCounted(m, p, k)
    ensures var r := CopyKernel(m, cur, pt, vpn);
            CopyKernel(Shift(m, p, k), cur, pt, vpn) == ShiftResult(r, p, k) && (!r.Panic? ==> r.m.rc[p] == m.rc[p])
    decreases KERNEL_TOP - vpn
  {
    hide MapPage, ItPerm, ItFrame;
    if vpn < KERNEL_TOP {
      ShiftMap(m, pt, vpn, ItFrame(m.mem, cur, vpn), ItPerm(m.mem, cur, vpn), p, k);
      var r := CopyKernelPage(m, cur, pt, vpn);
      if r.Ok? { ShiftKernel(r.m, cur, pt, vpn + 1, p, k); }
    }
  }

  lemma ShiftCopy(m: Phys, cur: nat, pt: nat, vpn: nat, p: nat, k: nat)
    requires BothCounted(m, p, k)
    ensures CopyPage(Shift(m, p, k), cur, pt, vpn) == ShiftResult(CopyPage(m, cur, pt, vpn), p, k)
  {
    hide MapPage, ItFrame, Kalloc;
    ShiftKalloc(m, p, k);
    KallocInRam(m);
    var (kp, m1) := Kalloc(m);
    if kp.Some? {
      var src := ItFrame(m1.mem, cur, vpn);
      if src < NPAGES {
        ShiftMap(Phys(m1.kend, m1.mem[kp.value := m1.mem[src]], m1.rc), pt, vpn, kp.value, ALL_PERM, p, k);
      }
    }
  }

  lemma ShiftShare(m: Phys, cur: nat, pt: nat, vpn: nat, p: nat, k: nat)
    requires BothCounted(m, p, k)
    ensures SharePage(Shift(m, p, k), cur, pt, vpn) == ShiftResult(SharePage(m, cur, pt, vpn), p, k)
  {
    hide MapPage, ItFrame;
    var frame := ItFrame(m.mem, cur, vpn);
    ShiftMap(m, pt, vpn, frame, READ_ONLY, p, k);
    var r := MapPage(m, pt, vpn, frame, READ_ONLY);
    if r.Ok? {
      var again := ItFrame(r.m.mem, cur, vpn);
      if again < NPAGES {
        assert Shift(r.m, p, k).rc[again := Increment(Shift(r.m, p, k).rc[again])]
            == Shift(Phys(r.m.kend, r.m.mem, r.m.rc[again := Increment(r.m.rc[again])]), p, k).rc;
      }
    }
  }

  /** The share counts on even where it wraps around. */
  lemma ShiftUserPage(m: Phys, cur: nat, pt: nat, vpn: nat, p: nat, k: nat)
    requires BothCounted(m, p, k)
    ensures CopyUserPage(Shift(m, p, k), cur, pt, vpn) == ShiftResult(CopyUserPage(m, cur, pt, vpn), p, k)
  {
    hide CopyPage, SharePage, ItPerm;
    ShiftCopy(m, cur, pt, vpn, p, k);
    ShiftShare(m, cur, pt, vpn, p, k);
  }

  // ---- page_alloc and exit ----

  function ShiftState(s: State, p: nat, k: nat): State
    requires p < NPAGES
  {
    State(Shift(s.m, p, k), s.procs)
  }

  lemma ShiftAlloc(s: State, pid: nat, addr: nat, p: nat, k: nat)
    requires Running(s, pid) && addr < VA_END && BothCounted(s.m, p, k)
    ensures var o := SysPageAlloc(s, pid, addr);
            SysPageAlloc(ShiftState(s, p, k), pid, addr) == if o.Halt? then Halt else Ret(o.value, ShiftState(o.s, p, k))
  {
    hide TryMap, Walk, Kalloc;
    ShiftKalloc(s.m, p, k);
    KallocInRam(s.m);
    var (kp, m1) := Kalloc(s.m);
    if kp.Some? {
      var m2 := Phys(m1.kend, m1.mem[kp.value := ZeroPage()], m1.rc);
      var w := Walk(m2.mem, s.procs[pid].root, addr);
      if CanMap(m2, w, addr, kp.value, ALL_PERM) { ShiftTryMap(m2, w, addr, kp.value, ALL_PERM, p, k); }
    }
  }

  /** Freeing lowers counts and does nothing else. */
  ghost predicate Lowered(m: Phys, m': Phys) {
    m'.mem == m.mem && m'.kend == m.kend && forall p: nat :: p < NPAGES ==> m'.rc[p] <= m.rc[p]
  }

  lemma {:induction false} FreeUserLowers(m: Phys, root: nat, vpn: nat)
    ensures Lowered(m, FreeUser(m, root, vpn))
    decreases USER_END - vpn
  {
    if vpn < USER_END { FreeUserLowers(FreeUserPage(m, root, vpn), root, vpn + 1); }
  }

  lemma {:induction false} FreeTablesLower(m: Phys, root: nat, paths: seq<Path>)
    ensures Lowered(m, FreeTables(m, root, paths))
    decreases |paths|
  {
    if paths != [] { FreeTablesLower(Kfree(m, Node(m.mem, root, paths[0])), root, paths[1..]); }
  }

  lemma ShiftKfree(m: Phys, kptr: Option<nat>, p: nat, k: nat)
    requires BothCounted(m, p, k) && Kfree(m, kptr).rc[p] >= 1
    ensures Kfree(Shift(m, p, k), kptr) == Shift(Kfree(m, kptr), p, k) && BothCounted(Kfree(m, kptr), p, k)
  {
    assert Kfree(Shift(m, p, k), kptr).rc == Shift(Kfree(m, kptr), p, k).rc;
  }

  lemma {:induction false} ShiftFreeUser(m: Phys, root: nat, vpn: nat, p: nat, k: nat)
    requires BothCounted(m, p, k) && FreeUser(m, root, vpn).rc[p] >= 1
    ensures FreeUser(Shift(m, p, k), root, vpn) == Shift(FreeUser(m, root, vpn), p, k)
    ensures BothCounted(FreeUser(m, root, vpn), p, k)
    decreases USER_END - vpn
  {
    hide ItPerm, ItFrame, Kfree;
    if vpn < USER_END {
      FreeUserLowers(FreeUserPage(m, root, vpn), root, vpn + 1);
      ShiftFreeUserPage(m, root, vpn, p, k);
      ShiftFreeUser(FreeUserPage(m, root, vpn), root, vpn + 1, p, k);
    }
  }

  lemma ShiftFreeUserPage(m: Phys, root: nat, vpn: nat, p: nat, k: nat)
    requires BothCounted(m, p, k) && FreeUserPage(m, root, vpn).rc[p] >= 1
    ensures FreeUserPage(Shift(m, p, k), root, vpn) == Shift(FreeUserPage(m, root, vpn), p, k)
    ensures BothCounted(FreeUserPage(m, root, vpn), p, k)
  {
    hide ItPerm, ItFrame, Kfree;
    if IsUserPage(ItPerm(m.mem, root, vpn), vpn) { ShiftKfree(m, Some(ItFrame(m.mem, root, vpn)), p, k); }
  }

  lemma {:induction false} ShiftFreeTables(m: Phys, root: nat, paths: seq<Path>, p: nat, k: nat)
    requires BothCounted(m, p, k) && FreeTables(m, root, paths).rc[p] >= 1
    ensures FreeTables(Shift(m, p, k), root, paths) == Shift(FreeTables(m, root, paths), p, k)
    ensures BothCounted(FreeTables(m, root, paths), p, k)
    decreases |paths|
  {
    hide Node, Kfree;
    if paths != [] {
      var m1 := Kfree(m, Node(m.mem, root, paths[0]));
      FreeTablesLower(m1, root, paths[1..]);
      ShiftKfree(m, Node(m.mem, root, paths[0]), p, k);
      ShiftFreeTables(m1, root, paths[1..], p, k);
    }
  }

  lemma FreeLowers(m: Phys, root: nat)
    ensures Lowered(m, FreePagetable(m, root))
    ensures Lowered(FreeUser(m, root, 0), FreePagetable(m, root))
  {
    hide FreeUser, FreeTables, Tables;
    FreeUserLowers(m, root, 0);
    var m1 := FreeUser(m, root, 0);
    FreeTablesLower(m1, root, Tables(m1.mem, root));
  }

  lemma ShiftFree(m: Phys, root: nat, p: nat, k: nat)
    requires BothCounted(m, p, k) && FreePagetable(m, root).rc[p] >= 1
    ensures FreePagetable(Shift(m, p, k), root) == Shift(FreePagetable(m, root), p, k)
  {
    hide FreeUser, FreeTables, Tables, Kfree;
    FreeLowers(m, root);
    ShiftFreeUser(m, root, 0, p, k);
    var m1 := FreeUser(m, root, 0);
    FreeUserLowers(m, root, 0);
    var m2 := FreeTables(m1, root, Tables(m1.mem, root));
    KfreeLowers(m2, Some(root), p);
    ShiftFreeTables(m1, root, Tables(m1.mem, root), p, k);
    ShiftKfree(m2, Some(root), p, k);
  }

  lemma KfreeLowers(m: Phys, kptr: Option<nat>, p: nat)
    requires p < NPAGES
    ensures Kfree(m, kptr).rc[p] <= m.rc[p]
  {
  }
}

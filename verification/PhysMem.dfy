/**
 The page allocator: `physpages` reference counts and the physical pages they describe
 (weensyos/kernel.cc:104-173), and the growing of a page table by `try_map`
 (weensyos/k-vmiter.cc:52-86).
 */
module PhysMem {
  import opened Wrappers
  import opened Paging

  const CONSOLE_PAGE := 0xB8
  const KERNEL_FIRST := 0x40
  const KERNEL_TOP := 0x80

  /** `kend` is the first page past the kernel image; `rc` holds the 8-bit reference counts. */
  datatype Phys = Phys(kend: nat, mem: Memory, rc: Counts)

  type Count = n: nat | n < 256
  type Counts = s: seq<Count> | |s| == NPAGES witness seq(NPAGES, _ => 0)

  function Increment(count: Count): Count { (count + 1) % 256 }

  predicate Reserved(p: nat) {
    p < 1 || 0xA0 <= p < 0x100
  }

  predicate Allocatable(kend: nat, p: nat) {
    && !Reserved(p)
    && (p < KERNEL_FIRST || p >= kend)
    && (p < KERNEL_TOP - 1 || p >= KERNEL_TOP)
    && p < NPAGES
  }

  predicate Free(m: Phys, p: nat)
  {
    p < NPAGES && Allocatable(m.kend, p) && m.rc[p] == 0
  }

  /** The first free page at or after `p`. */
  function FindFree(m: Phys, p: nat): (r: Option<nat>)
    requires p <= NPAGES
    ensures r.Some? ==> p <= r.value && Free(m, r.value)
    ensures forall q: nat :: p <= q < (if r.Some? then r.value else NPAGES) ==> !Free(m, q)
    decreases NPAGES - p
  {
    if p == NPAGES then None
    else if Free(m, p) then Some(p)
    else FindFree(m, p + 1)
  }

  function Kalloc(m: Phys): (Option<nat>, Phys)
  {
    match FindFree(m, 0)
    case None => (None, m)
    case Some(p) => (Some(p), Phys(m.kend, m.mem[p := FillPage()], m.rc[p := Increment(m.rc[p])]))
  }

  /** `None` is the null pointer; a frame number stands for a page-aligned pointer. */
  function Kfree(m: Phys, kptr: Option<nat>): (m': Phys)
    ensures m'.mem == m.mem && m'.kend == m.kend
  {
    if kptr.None? || kptr.value == 0 || kptr.value >= NPAGES || !Allocatable(m.kend, kptr.value) then m
    else if m.rc[kptr.value] == 0 then m
    else Phys(m.kend, m.mem, m.rc[kptr.value := m.rc[kptr.value] - 1])
  }

  // ---- Which pages the allocator hands out ----

  /** The kernel's image ends before page `kend`, and its stack is page 0x7F. */
  predicate KernelOwned(kend: nat, p: nat) {
    p == 0 || 0x40 <= p < kend || p == 0x7F || 0xA0 <= p < 0x100
  }

  lemma AllocatableExact(kend: nat, p: nat)
    ensures Allocatable(kend, p) <==> p < 512 && !KernelOwned(kend, p)
  {
  }

  /** `kalloc` hands out the lowest page that is neither the kernel's nor counted, filled and counted once; it
      fails exactly if there is none. */
  lemma KallocExact(m: Phys)
    ensures var (kp, m') := Kalloc(m);
            && (kp.None? <==> forall p: nat :: p < 512 && !KernelOwned(m.kend, p) ==> m.rc[p] != 0)
            && (kp.None? ==> m' == m)
            && (kp.Some? ==>
                  && kp.value < 512 && !KernelOwned(m.kend, kp.value) && m.rc[kp.value] == 0
                  && (forall p: nat :: p < kp.value && !KernelOwned(m.kend, p) ==> m.rc[p] != 0)
                  && m' == Phys(m.kend, m.mem[kp.value := FillPage()], m.rc[kp.value := 1]))
  {
    forall p: nat ensures Free(m, p) <==> p < 512 && !KernelOwned(m.kend, p) && m.rc[p] == 0 {
      AllocatableExact(m.kend, p);
    }
    hide Free;
  }

  /** `kfree` takes one count from a counted page that is not the kernel's, and does nothing else. */
  lemma KfreeExact(m: Phys, p: nat)
    ensures Kfree(m, None) == m
    ensures Kfree(m, Some(p)) ==
            if p < 512 && !KernelOwned(m.kend, p) && m.rc[p] > 0 then Phys(m.kend, m.mem, m.rc[p := m.rc[p] - 1]) else m
  {
    AllocatableExact(m.kend, p);
  }

  function SetEntry(mem: Memory, f: nat, i: nat, e: Word): Memory
    requires f < NPAGES && i < ENTRIES
  {
    mem[f := mem[f][i := e]]
  }

  // ---- try_map ----

  datatype Grown = Grown(ok: bool, m: Phys, w: Walked)

  /** The loop of `try_map`: one new zeroed table per missing level, or failure midway. */
  function Grow(m: Phys, w: Walked, va: nat): (r: Grown)
    requires w.pep.Slot? && w.pep.page < NPAGES && w.pep.idx < ENTRIES && IsLevel(w.lbits)
    ensures r.m.kend == m.kend
    ensures r.w.pep.Slot? && r.w.pep.page < NPAGES && r.w.pep.idx < ENTRIES && IsLevel(r.w.lbits)
    ensures r.ok ==> r.w.lbits == PAGEOFFBITS
    decreases w.lbits
  {
    if w.lbits > PAGEOFFBITS then
      var (kp, m1) := Kalloc(m);
      if kp.None? then Grown(false, m1, w)
      else
        var link := EntryWord(kp.value, ALL_PERM);
        var mem2 := SetEntry(m1.mem[kp.value := ZeroPage()], w.pep.page, w.pep.idx, link);
        var l := w.lbits - PAGEINDEXBITS;
        Grow(Phys(m1.kend, mem2, m1.rc), Walked(Slot(kp.value, Index(va, l)), l, Meet(w.perm, ALL_PERM)), va)
    else
      Grown(true, m, w)
  }

  /** What the assertions of `try_map` demand of the iterator and the new mapping; those on the physical
      address hold of every page-aligned one. */
  predicate CanMap(m: Phys, w: Walked, va: nat, frame: nat, perm: Perm) {
    && va % PAGESIZE == 0
    && Meet(perm, w.perm) == perm
    && w.pep.Slot? && w.pep.page < NPAGES && w.pep.idx < ENTRIES && IsLevel(w.lbits)
    && (w.lbits > PAGEOFFBITS && perm != NO_PERM ==> !Entry(m.mem, w.pep).perm.p)
  }

  /** `try_map(pa, perm)` on an iterator that has walked to `w`. */
  function TryMap(m: Phys, w: Walked, va: nat, frame: nat, perm: Perm): (r: Grown)
    requires CanMap(m, w, va, frame, perm)
    ensures r.m.kend == m.kend
  {
    var g := if perm != NO_PERM then Grow(m, w, va) else Grown(true, m, w);
    if g.ok && g.w.lbits == PAGEOFFBITS then
      Grown(true, Phys(g.m.kend, SetEntry(g.m.mem, g.w.pep.page, g.w.pep.idx, EntryWord(frame, perm)), g.m.rc), g.w)
    else
      g
  }
}

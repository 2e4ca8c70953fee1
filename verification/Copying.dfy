/**
 The copying loops of `syscall_fork` (weensyos/kernel.cc:450-504) keep the invariant, leave every
 page in use untouched, and give the child the parent's memory.
 */
module Copying {
  import opened Wrappers
  import opened Paging
  import opened PhysMem
  import opened Kernel
  import opened Invariant
  import opened Mapping

  /** Where memory stands while a child is being built from the state `m0`: only the child's own
      tables and pages are new.  `leak` is a page taken but not (yet) mapped. */
  ghost predicate ForkInv(m0: Phys, m: Phys, roots: map<nat, nat>, role: Roles, child: nat, leak: Option<nat>) {
    && child in roots && Good(m, roots, role) && m.kend == m0.kend
    && (forall p: nat :: p < NPAGES ==>
          m.rc[p] as int == m0.rc[p] as int + (if Uses(role[p], child) then 1 else 0) + (if leak == Some(p) then 1 else 0))
    && (forall p: nat :: p < NPAGES && m0.rc[p] != 0 ==>
          m.mem[p] == m0.mem[p] && !(role[p].Table? && role[p].pid == child))
    && (forall q, v: nat :: q in roots && q != child && v < USER_END ==>
          Leaf(m.mem, roots[q], v) == Leaf(m0.mem, roots[q], v))
  }

  lemma ForkInvExtended(m0: Phys, m: Phys, roots: map<nat, nat>, role: Roles, child: nat, leak: Option<nat>,
                        m': Phys, role': Roles)
    requires ForkInv(m0, m, roots, role, child, leak)
    requires Good(m', roots, role') && Extended(m, role, m', role', child)
    requires forall q, v: nat :: q in roots && q != child && v < USER_END ==>
               Leaf(m'.mem, roots[q], v) == Leaf(m.mem, roots[q], v)
    ensures ForkInv(m0, m', roots, role', child, leak)
  {
    forall p: nat | p < NPAGES
      ensures m'.rc[p] as int == m0.rc[p] as int + (if Uses(role'[p], child) then 1 else 0) + (if leak == Some(p) then 1 else 0)
    {
      assert CountOk(role[p], m.rc[p]);
      assert m.rc[p] == 0 ==> role[p] == Unused;
    }
  }

  lemma MapPageResult(m: Phys, root: nat, vpn: nat, frame: nat, perm: Perm)
    requires perm.p
    requires var w := WalkPage(m.mem, root, vpn);
             && w.perm == ALL_PERM && (w.lbits > PAGEOFFBITS ==> !Entry(m.mem, w.pep).perm.p)
             && IsLevel(w.lbits) && w.pep.Slot? && w.pep.page < NPAGES && w.pep.idx < ENTRIES
    ensures var g := Grow(m, WalkPage(m.mem, root, vpn), vpn * PAGESIZE);
            MapPage(m, root, vpn, frame, perm)
            == if g.ok then Ok(Phys(g.m.kend, SetEntry(g.m.mem, g.w.pep.page, g.w.pep.idx, EntryWord(frame, perm)), g.m.rc))
               else NoMemory(g.m)
  {
    assert vpn * PAGESIZE % PAGESIZE == 0;
  }

  /** `try_map` up to the leaf: never refused, and on failure nothing is mapped. */
  lemma MapUpTo(m: Phys, roots: map<nat, nat>, role: Roles, pid: nat, vpn: nat, frame: nat, perm: Perm)
    returns (m1: Phys, role1: Roles, g: nat)
    requires Good(m, roots, role) && pid in roots && vpn < USER_END && perm.p
    ensures Good(m1, roots, role1) && Extended(m, role, m1, role1, pid) && SameLeaves(m.mem, m1.mem, roots)
    ensures var r := MapPage(m, roots[pid], vpn, frame, perm);
            && !r.Panic?
            && (r.NoMemory? ==> r.m == m1)
            && (r.Ok? ==>
                  && SlotAt(m1, roots, role1, pid, vpn, g)
                  && r.m == Phys(m1.kend, SetEntry(m1.mem, g, vpn % ENTRIES, EntryWord(frame, perm)), m1.rc))
  {
    ItLeaf(m, roots, role, pid, vpn);
    PagePathTo(vpn);
    role1 := GrowGood(m, roots, role, pid, vpn * PAGESIZE);
    MapPageResult(m, roots[pid], vpn, frame, perm);
    var grown := Grow(m, WalkPage(m.mem, roots[pid], vpn), vpn * PAGESIZE);
    m1 := grown.m;
    g := grown.w.pep.page;
  }

  /** Mapping a kernel page or the console extends memory by tables of `pid` only. */
  lemma MapKernelPage(m: Phys, roots: map<nat, nat>, role: Roles, pid: nat, vpn: nat, frame: nat, perm: Perm)
    returns (role': Roles)
    requires Good(m, roots, role) && pid in roots && !DataPage(vpn) && vpn < USER_END && perm.p
    requires LeafOk(role, pid, vpn, EntryWord(frame, perm))
    ensures var r := MapPage(m, roots[pid], vpn, frame, perm);
            && !r.Panic? && Good(r.m, roots, role') && Extended(m, role, r.m, role', pid)
            && (r.NoMemory? ==> SameLeaves(m.mem, r.m.mem, roots))
            && (r.Ok? ==> LeavesAfter(m.mem, r.m.mem, roots, pid, vpn, EntryWord(frame, perm)))
  {
    var m1, role1, g := MapUpTo(m, roots, role, pid, vpn, frame, perm);
    var r := MapPage(m, roots[pid], vpn, frame, perm);
    role' := role1;
    if r.Ok? {
      var e := EntryWord(frame, perm);
      assert LeafOk(role1, pid, vpn, e);
      KernelLeafGood(m1, roots, role1, pid, vpn, g, e);
      LeafWritten(m1, roots, role1, pid, vpn, g, e);
    }
  }

  // ---- Kernel mappings ----

  ghost predicate NoData(mem: Memory, root: nat, from: nat) {
    forall v: nat :: from <= v && DataPage(v) ==> !Leaf(mem, root, v).perm.p
  }

  ghost predicate KernelMatches(mem0: Memory, mem: Memory, cur: nat, pt: nat, to: nat) {
    forall v: nat :: KERNEL_FIRST <= v < to && KernelPage(v) ==>
      && Leaf(mem, pt, v).perm == Leaf(mem0, cur, v).perm
      && (Leaf(mem, pt, v).perm.p ==> Leaf(mem, pt, v).frame == Leaf(mem0, cur, v).frame)
  }

  /** The child's tree has room for kernel pages from `vpn` on, and agrees before. */
  ghost predicate KernelInv(m0: Phys, m: Phys, roots: map<nat, nat>, cur: nat, child: nat, vpn: nat)
    requires cur in roots && child in roots
  {
    && NoData(m.mem, roots[child], 0)
    && KernelMatches(m0.mem, m.mem, roots[cur], roots[child], vpn)
    && (forall v: nat :: vpn <= v < KERNEL_TOP ==> !Leaf(m.mem, roots[child], v).perm.p)
  }

  lemma CopyKernelStep(m0: Phys, m: Phys, roots: map<nat, nat>, role: Roles, cur: nat, child: nat, vpn: nat)
    returns (role': Roles)
    requires ForkInv(m0, m, roots, role, child, None) && cur in roots && cur != child
    requires KernelPage(vpn) && KernelInv(m0, m, roots, cur, child, vpn)
    ensures var r := CopyKernelPage(m, roots[cur], roots[child], vpn);
            && !r.Panic? && ForkInv(m0, r.m, roots, role', child, None)
            && (r.Ok? ==> KernelInv(m0, r.m, roots, cur, child, vpn + 1))
  {
    hide ForkInv, Good, Leaf, MapPage, ItPerm, ItFrame, KernelInv, Extended;
    role' := role;
    KernelEntry(m0, m, roots, role, cur, child, vpn);
    var e := Leaf(m.mem, roots[cur], vpn);
    if e.perm.p {
      role' := MapKernelPage(m, roots, role, child, vpn, e.frame, e.perm);
      var r := MapPage(m, roots[child], vpn, e.frame, e.perm);
      ForkInvExtended(m0, m, roots, role, child, None, r.m, role');
      if r.Ok? { KernelCopied(m0, m, roots, cur, child, vpn, r.m.mem, r.m); }
    } else {
      NotYetMapped(m0, m, roots, cur, child, vpn);
      KernelCopied(m0, m, roots, cur, child, vpn, m.mem, m);
    }
  }

  lemma NotYetMapped(m0: Phys, m: Phys, roots: map<nat, nat>, cur: nat, child: nat, vpn: nat)
    requires cur in roots && child in roots && KernelPage(vpn) && KernelInv(m0, m, roots, cur, child, vpn)
    ensures !Leaf(m.mem, roots[child], vpn).perm.p
  {
    hide Leaf;
  }

  /** What there is to copy at a kernel page of the parent. */
  lemma KernelEntry(m0: Phys, m: Phys, roots: map<nat, nat>, role: Roles, cur: nat, child: nat, vpn: nat)
    requires ForkInv(m0, m, roots, role, child, None) && cur in roots && cur != child && KernelPage(vpn)
    ensures var e := Leaf(m.mem, roots[cur], vpn);
            && Good(m, roots, role) && child in roots && e == Leaf(m0.mem, roots[cur], vpn)
            && ItPerm(m.mem, roots[cur], vpn) == (if e.perm.p then e.perm else NO_PERM)
            && (e.perm.p ==> ItFrame(m.mem, roots[cur], vpn) == e.frame && LeafOk(role, child, vpn, EntryWord(e.frame, e.perm)))
            && (!e.perm.p ==> e == ZERO)
            && (!Leaf(m.mem, roots[child], vpn).perm.p ==> Leaf(m.mem, roots[child], vpn) == ZERO)
  {
    ItLeaf(m, roots, role, cur, vpn);
    ItLeaf(m, roots, role, child, vpn);
  }

  /** One more kernel page agrees. */
  lemma KernelCopied(m0: Phys, m: Phys, roots: map<nat, nat>, cur: nat, child: nat, vpn: nat, mem': Memory, m': Phys)
    requires cur in roots && child in roots && KernelPage(vpn) && KernelInv(m0, m, roots, cur, child, vpn) && m'.mem == mem'
    requires var e := Leaf(m0.mem, roots[cur], vpn);
             if e.perm.p then LeavesAfter(m.mem, mem', roots, child, vpn, EntryWord(e.frame, e.perm))
             else mem' == m.mem && e == ZERO && Leaf(m.mem, roots[child], vpn) == ZERO
    ensures KernelInv(m0, m', roots, cur, child, vpn + 1)
  {
    hide Leaf;
  }

  lemma {:induction false} CopyKernelGood(m0: Phys, m: Phys, roots: map<nat, nat>, role: Roles, cur: nat, child: nat, vpn: nat)
    returns (role': Roles)
    requires ForkInv(m0, m, roots, role, child, None) && cur in roots && child in roots && cur != child
    requires KERNEL_FIRST <= vpn <= KERNEL_TOP && KernelInv(m0, m, roots, cur, child, vpn)
    ensures var r := CopyKernel(m, roots[cur], roots[child], vpn);
            && !r.Panic? && ForkInv(m0, r.m, roots, role', child, None)
            && (r.Ok? ==> KernelInv(m0, r.m, roots, cur, child, KERNEL_TOP))
    decreases KERNEL_TOP - vpn
  {
    hide ForkInv, KernelInv, CopyKernelPage;
    role' := role;
    if vpn < KERNEL_TOP {
      role' := CopyKernelStep(m0, m, roots, role, cur, child, vpn);
      var r := CopyKernelPage(m, roots[cur], roots[child], vpn);
      if r.Ok? {
        role' := CopyKernelGood(m0, r.m, roots, role', cur, child, vpn + 1);
      }
    }
  }

  lemma ItLeafFork(m0: Phys, m: Phys, roots: map<nat, nat>, role: Roles, cur: nat, child: nat, vpn: nat)
    requires ForkInv(m0, m, roots, role, child, None) && cur in roots && cur != child && vpn < USER_END
    ensures var e := Leaf(m.mem, roots[cur], vpn);
            && e == Leaf(m0.mem, roots[cur], vpn)
            && ItPerm(m.mem, roots[cur], vpn) == (if e.perm.p then e.perm else NO_PERM)
            && (e.perm.p ==> ItFrame(m.mem, roots[cur], vpn) == e.frame)
  {
    ItLeaf(m, roots, role, cur, vpn);
  }

  // ---- Process memory ----

  /** The child's entry for data page `v` is a faithful copy of the parent's in `m0`. */
  ghost predicate Copied(m0: Phys, m: Phys, cur: nat, pt: nat, v: nat) {
    var e := Leaf(m0.mem, cur, v);
    var c := Leaf(m.mem, pt, v);
    && (c.perm == if e.perm.p then e.perm else NO_PERM)
    && (e.perm.p ==>
          && e.frame < NPAGES && c.frame < NPAGES && m0.rc[e.frame] != 0
          && m.mem[c.frame] == m0.mem[e.frame]
          && (if e.perm.w then m0.rc[c.frame] == 0 else c.frame == e.frame))
  }

  ghost predicate CopiedTo(m0: Phys, m: Phys, cur: nat, pt: nat, to: nat) {
    forall v: nat :: v < to && DataPage(v) ==> Copied(m0, m, cur, pt, v)
  }

  /** Copies made so far survive changes that spare the data pages in use. */
  lemma CopiedKept(m0: Phys, m: Phys, roots: map<nat, nat>, role: Roles, curRoot: nat, child: nat, to: nat, m': Phys)
    requires Good(m, roots, role) && child in roots && to <= USER_END
    requires CopiedTo(m0, m, curRoot, roots[child], to)
    requires forall p: nat :: p < NPAGES && m.rc[p] != 0 && role[p].Data? ==> m'.mem[p] == m.mem[p]
    requires forall v: nat :: v < to && DataPage(v) ==> Leaf(m'.mem, roots[child], v) == Leaf(m.mem, roots[child], v)
    ensures CopiedTo(m0, m', curRoot, roots[child], to)
  {
    forall v: nat | v < to && DataPage(v) ensures Copied(m0, m', curRoot, roots[child], v) {
      assert Copied(m0, m, curRoot, roots[child], v);
      ItLeaf(m, roots, role, child, v);
      var c := Leaf(m.mem, roots[child], v);
      if c.perm.p {
        assert CountOk(role[c.frame], m.rc[c.frame]);
      }
    }
  }

  /** Writing a page that is not a table changes no tree. */
  lemma PageWriteGood(m: Phys, roots: map<nat, nat>, role: Roles, f: nat, page: Page)
    requires Good(m, roots, role) && f < NPAGES && !role[f].Table?
    ensures Good(Phys(m.kend, m.mem[f := page], m.rc), roots, role)
    ensures SameLeaves(m.mem, m.mem[f := page], roots)
  {
    var mem' := m.mem[f := page];
    forall q, x | q in roots ensures Node(mem', roots[q], x) == Node(m.mem, roots[q], x) {
      NodeFrame(m.mem, mem', roots[q], x);
    }
    forall q, v: nat | q in roots && v < USER_END ensures Leaf(mem', roots[q], v) == Leaf(m.mem, roots[q], v) {
      var n := Node(m.mem, roots[q], PagePath(v));
      assert n.Some? ==> role[n.value] == Table(q, PagePath(v));
    }
    forall p: nat, i: nat | p < NPAGES && i < ENTRIES && role[p].Table?
      ensures EntryOk(role, role[p].pid, role[p].path, i, mem'[p][i])
    {
      assert EntryOk(role, role[p].pid, role[p].path, i, m.mem[p][i]);
    }
  }

  /** Taking a free page without giving it a role. */
  lemma KallocGood(m: Phys, roots: map<nat, nat>, role: Roles, f: nat, page: Page)
    requires Good(m, roots, role) && Free(m, f)
    ensures Good(Phys(m.kend, m.mem[f := page], m.rc[f := 1]), roots, role)
    ensures SameLeaves(m.mem, m.mem[f := page], roots)
    ensures role[f] == Unused
  {
    assert CountOk(role[f], m.rc[f]);
    PageWriteGood(m, roots, role, f, page);
  }

  /** The outcome of mapping one data page into the child. */
  ghost predicate PageStep(m0: Phys, m: Phys, r: Result, roots: map<nat, nat>, role': Roles, cur: nat, child: nat,
                           vpn: nat, leak: Option<nat>)
    requires cur in roots && child in roots
  {
    && !r.Panic?
    && ForkInv(m0, r.m, roots, role', child, leak)
    && (r.Ok? ==>
          && leak == None && Copied(m0, r.m, roots[cur], roots[child], vpn)
          && (forall v: nat :: v < USER_END && v != vpn ==> Leaf(r.m.mem, roots[child], v) == Leaf(m.mem, roots[child], v)))
  }

  /** Mapping page `f` of the child, with `f` counted as leaked until it is mapped. */
  lemma MapFresh(m0: Phys, m: Phys, roots: map<nat, nat>, role: Roles, child: nat, vpn: nat, f: nat)
    returns (role': Roles)
    requires ForkInv(m0, m, roots, role, child, Some(f)) && DataPage(vpn)
    requires f < NPAGES && Allocatable(m.kend, f) && role[f] == Unused && m0.rc[f] == 0 && m.rc[f] == 1
    requires child in roots && !Leaf(m.mem, roots[child], vpn).perm.p && Good(m, roots, role)
    ensures var r := MapPage(m, roots[child], vpn, f, ALL_PERM);
            && !r.Panic?
            && (r.NoMemory? ==> ForkInv(m0, r.m, roots, role', child, Some(f)))
            && (r.Ok? ==>
                  && ForkInv(m0, r.m, roots, role', child, None)
                  && LeavesAfter(m.mem, r.m.mem, roots, child, vpn, EntryWord(f, ALL_PERM))
                  && r.m.mem[f] == m.mem[f]
                  && (forall p: nat :: p < NPAGES && m.rc[p] != 0 && role[p].Data? ==> r.m.mem[p] == m.mem[p]))
  {
    hide Good, ForkInv, Leaf, MapPage, Mapped;
    var m1, role1, g := MapUpTo(m, roots, role, child, vpn, f, ALL_PERM);
    ForkInvExtended(m0, m, roots, role, child, Some(f), m1, role1);
    role' := role1;
    if MapPage(m, roots[child], vpn, f, ALL_PERM).Ok? {
      assert Leaf(m1.mem, roots[child], vpn) == Leaf(m.mem, roots[child], vpn);
      FreshLeaf(m0, m1, roots, role1, child, vpn, g, f);
      role' := Mapped(role1, child, vpn, f, true);
    }
  }

  lemma FreshLeaf(m0: Phys, m: Phys, roots: map<nat, nat>, role: Roles, child: nat, vpn: nat, g: nat, f: nat)
    requires ForkInv(m0, m, roots, role, child, Some(f)) && SlotAt(m, roots, role, child, vpn, g) && DataPage(vpn)
    requires f < NPAGES && Allocatable(m.kend, f) && role[f] == Unused && m.rc[f] == 1 && m0.rc[f] == 0
    requires !Leaf(m.mem, roots[child], vpn).perm.p
    ensures var mem' := SetEntry(m.mem, g, vpn % ENTRIES, EntryWord(f, ALL_PERM));
            && ForkInv(m0, Phys(m.kend, mem', m.rc), roots, Mapped(role, child, vpn, f, true), child, None)
            && LeavesAfter(m.mem, mem', roots, child, vpn, EntryWord(f, ALL_PERM))
    ensures role[g] == Table(child, PagePath(vpn))
  {
    DataLeafGood(m, roots, role, child, vpn, g, f, true, 1);
    LeafWritten(m, roots, role, child, vpn, g, EntryWord(f, ALL_PERM));
    assert m.rc[f := 1] == m.rc;
  }

  /** Taking a fresh page for the child and copying the parent's page into it. */
  lemma TakeCopy(m0: Phys, m: Phys, roots: map<nat, nat>, role: Roles, cur: nat, child: nat, vpn: nat, f: nat)
    returns (m2: Phys)
    requires ForkInv(m0, m, roots, role, child, None) && cur in roots && cur != child && DataPage(vpn)
    requires Leaf(m.mem, roots[cur], vpn).perm == ALL_PERM && FindFree(m, 0) == Some(f)
    ensures var e := Leaf(m.mem, roots[cur], vpn);
            && e.frame < NPAGES && f < NPAGES && e == Leaf(m0.mem, roots[cur], vpn)
            && m0.rc[e.frame] != 0 && m0.rc[f] == 0 && m.mem[e.frame] == m0.mem[e.frame]
            && m2 == Phys(m.kend, m.mem[f := m.mem[e.frame]], m.rc[f := 1])
            && role[f] == Unused && Allocatable(m.kend, f)
            && CopyPage(m, roots[cur], roots[child], vpn) == MapPage(m2, roots[child], vpn, f, ALL_PERM)
    ensures ForkInv(m0, m2, roots, role, child, Some(f)) && SameLeaves(m.mem, m2.mem, roots)
  {
    hide CopyPage, MapPage, Leaf, Good, FindFree;
    var e := Leaf(m.mem, roots[cur], vpn);
    TakeFacts(m0, m, roots, role, cur, child, vpn);
    CopySource(m, roots, role, cur, child, vpn, f);
    KallocGood(m, roots, role, f, m.mem[e.frame]);
    m2 := Phys(m.kend, m.mem[f := m.mem[e.frame]], m.rc[f := 1]);
  }

  /** The page to copy is the parent's alone, and was in use before the fork. */
  lemma TakeFacts(m0: Phys, m: Phys, roots: map<nat, nat>, role: Roles, cur: nat, child: nat, vpn: nat)
    requires ForkInv(m0, m, roots, role, child, None) && cur in roots && cur != child && DataPage(vpn)
    requires Leaf(m.mem, roots[cur], vpn).perm == ALL_PERM
    ensures var e := Leaf(m.mem, roots[cur], vpn);
            && Good(m, roots, role) && child in roots
            && e.frame < NPAGES && e == Leaf(m0.mem, roots[cur], vpn) && m0.rc[e.frame] != 0
            && m.mem[e.frame] == m0.mem[e.frame]
  {
    OneMapping(m, roots, role, cur, child, vpn);
    ItLeaf(m, roots, role, cur, vpn);
    PageCount(m, roots, role, Leaf(m.mem, roots[cur], vpn).frame);
  }

  lemma PageCount(m: Phys, roots: map<nat, nat>, role: Roles, p: nat)
    requires Good(m, roots, role) && p < NPAGES
    ensures CountOk(role[p], m.rc[p])
  {
  }

  /** Taking the page does not disturb what is copied into it. */
  lemma CopySource(m: Phys, roots: map<nat, nat>, role: Roles, cur: nat, child: nat, vpn: nat, f: nat)
    requires Good(m, roots, role) && cur in roots && child in roots && DataPage(vpn)
    requires Leaf(m.mem, roots[cur], vpn).perm == ALL_PERM && FindFree(m, 0) == Some(f)
    ensures var e := Leaf(m.mem, roots[cur], vpn);
            && e.frame < NPAGES && m.rc[e.frame] == 1 && role[f] == Unused
            && CopyPage(m, roots[cur], roots[child], vpn)
               == MapPage(Phys(m.kend, m.mem[f := m.mem[e.frame]], m.rc[f := 1]), roots[child], vpn, f, ALL_PERM)
  {
    hide Good, MapPage, ItPerm, ItFrame, Leaf, FindFree;
    var e := Leaf(m.mem, roots[cur], vpn);
    var (kp, m1) := Kalloc(m);
    assert m1 == Phys(m.kend, m.mem[f := FillPage()], m.rc[f := 1]);
    ItLeaf(m, roots, role, cur, vpn);
    KallocGood(m, roots, role, f, FillPage());
    ItLeaf(m1, roots, role, cur, vpn);
    PageCount(m, roots, role, e.frame);
    assert m1.mem[f := m1.mem[e.frame]] == m.mem[f := m.mem[e.frame]];
  }

  lemma CopyPageGood(m0: Phys, m: Phys, roots: map<nat, nat>, role: Roles, cur: nat, child: nat, vpn: nat)
    returns (role': Roles, leak: Option<nat>)
    requires ForkInv(m0, m, roots, role, child, None) && cur in roots && cur != child && DataPage(vpn)
    requires Leaf(m.mem, roots[cur], vpn).perm == ALL_PERM && !Leaf(m.mem, roots[child], vpn).perm.p
    ensures PageStep(m0, m, CopyPage(m, roots[cur], roots[child], vpn), roots, role', cur, child, vpn, leak)
    ensures var r := CopyPage(m, roots[cur], roots[child], vpn);
            r.Ok? ==> forall p: nat :: p < NPAGES && m.rc[p] != 0 && role[p].Data? ==> r.m.mem[p] == m.mem[p]
    ensures leak.Some? ==> leak.value < NPAGES && m0.rc[leak.value] == 0
    ensures leak == if CopyPage(m, roots[cur], roots[child], vpn).Ok? then None else FindFree(m, 0)
  {
    hide Good, Leaf, MapPage, CopyPage, LeafOk, Copied;
    role', leak := role, None;
    if FindFree(m, 0).Some? {
      role', leak := CopyPageTaken(m0, m, roots, role, cur, child, vpn);
    } else {
      NothingTaken(m, roots[cur], roots[child], vpn);
    }
  }

  lemma NothingTaken(m: Phys, cur: nat, pt: nat, vpn: nat)
    requires FindFree(m, 0).None?
    ensures CopyPage(m, cur, pt, vpn) == NoMemory(m)
  {
  }

  lemma CopyPageTaken(m0: Phys, m: Phys, roots: map<nat, nat>, role: Roles, cur: nat, child: nat, vpn: nat)
    returns (role': Roles, leak: Option<nat>)
    requires ForkInv(m0, m, roots, role, child, None) && cur in roots && cur != child && DataPage(vpn)
    requires Leaf(m.mem, roots[cur], vpn).perm == ALL_PERM && !Leaf(m.mem, roots[child], vpn).perm.p
    requires FindFree(m, 0).Some? && child in roots
    ensures PageStep(m0, m, CopyPage(m, roots[cur], roots[child], vpn), roots, role', cur, child, vpn, leak)
    ensures var r := CopyPage(m, roots[cur], roots[child], vpn);
            r.Ok? ==> forall p: nat :: p < NPAGES && m.rc[p] != 0 && role[p].Data? ==> r.m.mem[p] == m.mem[p]
    ensures leak.Some? ==> leak.value < NPAGES && m0.rc[leak.value] == 0
    ensures leak == if CopyPage(m, roots[cur], roots[child], vpn).Ok? then None else FindFree(m, 0)
  {
    hide Good, Leaf, MapPage, CopyPage, LeafOk, PageStep, Copied, FindFree;
    var f := FindFree(m, 0).value;
    var m2 := TakeCopy(m0, m, roots, role, cur, child, vpn, f);
    role' := MapFresh(m0, m2, roots, role, child, vpn, f);
    var r := MapPage(m2, roots[child], vpn, f, ALL_PERM);
    leak := if r.Ok? then None else Some(f);
    FreshCopied(m0, m, m2, roots, role, role', cur, child, vpn, f, r, leak);
  }

  lemma FreshCopied(m0: Phys, m: Phys, m2: Phys, roots: map<nat, nat>, role: Roles, role': Roles, cur: nat, child: nat,
                    vpn: nat, f: nat, r: Result, leak: Option<nat>)
    requires cur in roots && child in roots && f < NPAGES && vpn < USER_END && !r.Panic? && m0.rc[f] == 0 && role[f] == Unused
    requires var e := Leaf(m.mem, roots[cur], vpn);
             && e.frame < NPAGES && e == Leaf(m0.mem, roots[cur], vpn) && e.perm == ALL_PERM
             && m0.rc[e.frame] != 0 && m.mem[e.frame] == m0.mem[e.frame]
             && m2 == Phys(m.kend, m.mem[f := m.mem[e.frame]], m.rc[f := 1]) && SameLeaves(m.mem, m2.mem, roots)
    requires ForkInv(m0, r.m, roots, role', child, leak)
    requires r.Ok? ==>
               && leak == None && LeavesAfter(m2.mem, r.m.mem, roots, child, vpn, EntryWord(f, ALL_PERM))
               && r.m.mem[f] == m2.mem[f]
               && (forall p: nat :: p < NPAGES && m2.rc[p] != 0 && role[p].Data? ==> r.m.mem[p] == m2.mem[p])
    ensures PageStep(m0, m, r, roots, role', cur, child, vpn, leak)
    ensures r.Ok? ==> forall p: nat :: p < NPAGES && m.rc[p] != 0 && role[p].Data? ==> r.m.mem[p] == m.mem[p]
  {
    hide ForkInv, Leaf;
    if r.Ok? {
      assert Leaf(r.m.mem, roots[child], vpn) == EntryWord(f, ALL_PERM);
    }
  }

  /** A writable page has one user. */
  lemma OneMapping(m: Phys, roots: map<nat, nat>, role: Roles, pid: nat, q: nat, vpn: nat)
    requires Good(m, roots, role) && pid in roots && q != pid && DataPage(vpn)
    requires Leaf(m.mem, roots[pid], vpn).perm == ALL_PERM
    ensures Leaf(m.mem, roots[pid], vpn).frame < NPAGES && !Uses(role[Leaf(m.mem, roots[pid], vpn).frame], q)
  {
    ItLeaf(m, roots, role, pid, vpn);
    var r := role[Leaf(m.mem, roots[pid], vpn).frame];
    assert CountOk(r, m.rc[Leaf(m.mem, roots[pid], vpn).frame]);
    if q in r.users { SoleUser(r.users, pid, q); }
  }
}

/**
 How many free pages there are, and how many of them mapping a page takes
 (weensyos/k-vmiter.cc:52-86, weensyos/kernel.cc:122-150).
 */
module Budget {
  import opened Wrappers
  import opened Paging
  import opened PhysMem
  import opened TryMapTheory
  import opened Kernel
  import opened Invariant
  import opened Mapping
  import opened Copying

  function FreePages(m: Phys): set<nat> {
    set p: nat | p < NPAGES && Free(m, p)
  }

  function FreeCount(m: Phys): nat { |FreePages(m)| }

  function Range(lo: nat, n: nat): (r: set<nat>)
    ensures |r| == n && forall v: nat :: v in r <==> lo <= v < lo + n
  {
    if n == 0 then {} else Range(lo, n - 1) + {lo + n - 1}
  }

  lemma FindFreeCount(m: Phys)
    ensures FindFree(m, 0).Some? <==> FreeCount(m) > 0
  {
    if FindFree(m, 0).Some? {
      assert FindFree(m, 0).value in FreePages(m);
    } else {
      assert FreePages(m) == {};
    }
  }

  /** Taking a free page leaves one less. */
  lemma TakenCount(m: Phys, f: nat, mem: Memory)
    requires Free(m, f)
    ensures FreeCount(Phys(m.kend, mem, m.rc[f := 1])) == FreeCount(m) - 1
  {
    assert FreePages(Phys(m.kend, mem, m.rc[f := 1])) == FreePages(m) - {f};
  }

  /** Only which counts are zero matters. */
  lemma SameCount(m: Phys, m': Phys)
    requires m'.kend == m.kend
    requires forall p: nat :: p < NPAGES ==> (m'.rc[p] == 0 <==> m.rc[p] == 0)
    ensures FreeCount(m') == FreeCount(m)
  {
    assert FreePages(m') == FreePages(m);
  }

  /** The tables missing below the place where a walk ended. */
  function Levels(w: Walked): nat
    requires IsLevel(w.lbits)
  {
    (w.lbits - PAGEOFFBITS) / PAGEINDEXBITS
  }

  /** `try_map` succeeds exactly if there is a free page for every missing table. */
  lemma {:induction false} GrowCount(m: Phys, w: Walked, va: nat)
    requires w.pep.Slot? && w.pep.page < NPAGES && w.pep.idx < ENTRIES && IsLevel(w.lbits)
    ensures Grow(m, w, va).ok <==> FreeCount(m) >= Levels(w)
    ensures Grow(m, w, va).ok ==> FreeCount(Grow(m, w, va).m) == FreeCount(m) - Levels(w)
    decreases w.lbits
  {
    hide FreeCount, FindFree;
    FindFreeCount(m);
    if w.lbits > PAGEOFFBITS {
      var (kp, m1) := Kalloc(m);
      if kp.Some? {
        var f := kp.value;
        var l := w.lbits - PAGEINDEXBITS;
        var m2 := Phys(m1.kend, SetEntry(m1.mem[f := ZeroPage()], w.pep.page, w.pep.idx, EntryWord(f, ALL_PERM)), m1.rc);
        TakenCount(m, f, m2.mem);
        GrowCount(m2, Walked(Slot(f, Index(va, l)), l, Meet(w.perm, ALL_PERM)), va);
      }
    }
  }

  /** Growing towards `va` adds tables on the way to `va` only. */
  lemma {:induction false} GrowNodes(m: Phys, root: nat, va: nat, q: Path)
    requires TreeCounted(m, root) && Canonical(va)
    requires var w := Walk(m.mem, root, va); w.lbits > PAGEOFFBITS ==> !Entry(m.mem, w.pep).perm.p
    ensures var w := Walk(m.mem, root, va);
            && IsLevel(w.lbits) && w.pep.Slot? && w.pep.page < NPAGES && w.pep.idx < ENTRIES
            && var g := Grow(m, w, va);
            && (Node(m.mem, root, q).Some? ==> Node(g.m.mem, root, q) == Node(m.mem, root, q))
            && ((forall l :: IsLevel(l) ==> q != PathTo(va, l)) ==> Node(g.m.mem, root, q) == Node(m.mem, root, q))
    decreases Walk(m.mem, root, va).lbits
  {
    hide Walk, TreeCounted, SameTranslations, UsedKept, Canonical;
    WalkEnd(m.mem, root, va);
    var w := Walk(m.mem, root, va);
    TreePage(m, root, PathTo(va, w.lbits));
    if w.lbits > PAGEOFFBITS {
      var (kp, m1) := Kalloc(m);
      if kp.Some? {
        var f := kp.value;
        var m2 := LinkRound(m, root, va, f);
        assert m1.mem[f := ZeroPage()] == m.mem[f := ZeroPage()];
        LinkedNode(m, root, va, f, q);
        GrowNodes(m2, root, va, q);
      }
    }
  }

  lemma LinkedNode(m: Phys, root: nat, va: nat, f: nat, q: Path)
    requires TreeCounted(m, root) && Canonical(va) && FindFree(m, 0) == Some(f)
    requires var w := Walk(m.mem, root, va);
             && w.lbits > PAGEOFFBITS && !Entry(m.mem, w.pep).perm.p
             && w.pep.Slot? && w.pep.page < NPAGES && w.pep.idx < ENTRIES
    ensures var w := Walk(m.mem, root, va);
            var mem' := LinkTable(m.mem, w.pep.page, w.pep.idx, f);
            && IsLevel(w.lbits)
            && (Node(m.mem, root, q).Some? ==> Node(mem', root, q) == Node(m.mem, root, q))
            && (q != PathTo(va, w.lbits - 9) ==> Node(mem', root, q) == Node(m.mem, root, q))
  {
    WalkEnd(m.mem, root, va);
    var w := Walk(m.mem, root, va);
    DepthPathTo(va, w.lbits);
    assert PathTo(va, w.lbits - 9) == Sub(PathTo(va, w.lbits), Index(va, w.lbits));
    hide Walk, PathTo;
    assert CanLink(m.mem, root, PathTo(va, w.lbits), w.pep.page, w.pep.idx, f);
    NodeAfterLink(m.mem, root, PathTo(va, w.lbits), w.pep.page, w.pep.idx, f, q);
  }

  // ---- The tables of one process ----

  /** The lowest-level table for pages `i * ENTRIES` and up. */
  predicate HasLow(mem: Memory, root: nat, i: nat) {
    Node(mem, root, Sub(LOW, i)).Some?
  }

  function Missing(mem: Memory, root: nat, vpn: nat): nat {
    var w := WalkPage(mem, root, vpn);
    if IsLevel(w.lbits) then Levels(w) else 0
  }

  /** How many tables are missing on the way to a page. */
  lemma MissingTables(mem: Memory, root: nat, vpn: nat)
    requires vpn < USER_END
    ensures HasLow(mem, root, vpn / ENTRIES) ==> Missing(mem, root, vpn) == 0
    ensures !HasLow(mem, root, vpn / ENTRIES) && Node(mem, root, LOW).Some? ==> Missing(mem, root, vpn) == 1
    ensures Node(mem, root, Sub(Root, 0)).None? ==> Missing(mem, root, vpn) == 3
  {
    var va := vpn * PAGESIZE;
    PagePathTo(vpn);
    WalkEnd(mem, root, va);
    var w := Walk(mem, root, va);
    assert PathTo(va, 39) == Root;
    assert PathTo(va, 30) == Sub(PathTo(va, 39), Index(va, 39));
    assert PathTo(va, 21) == Sub(PathTo(va, 30), Index(va, 30));
    assert PathTo(va, 12) == Sub(PathTo(va, 21), Index(va, 21));
    assert PathTo(va, 21) == LOW;
    if w.lbits > PAGEOFFBITS { MissingBelow(mem, root, va, w.lbits); }
    if w.lbits == 39 { assert Node(mem, root, PathTo(va, 30)) == None; }
    if w.lbits >= 30 { assert Node(mem, root, PathTo(va, 21)) == None; }
  }

  /** The tables of a process after one more page was mapped at `vpn`. */
  ghost predicate LowAfter(mem: Memory, mem': Memory, root: nat, vpn: nat) {
    forall i: nat :: HasLow(mem', root, i) <==> HasLow(mem, root, i) || i == vpn / ENTRIES
  }

  lemma OffPath(vpn: nat, i: nat, l: int)
    requires vpn < USER_END && i != vpn / ENTRIES && IsLevel(l)
    ensures Sub(LOW, i) != PathTo(vpn * PAGESIZE, l)
  {
    PagePathTo(vpn);
    DepthPathTo(vpn * PAGESIZE, l);
    assert Depth(Sub(LOW, i)) == 3;
  }

  /** Mapping a page takes one free page for each missing table, and fails exactly if there are fewer. */
  lemma MapCount(m: Phys, roots: map<nat, nat>, role: Roles, pid: nat, vpn: nat, frame: nat, perm: Perm)
    requires Good(m, roots, role) && pid in roots && vpn < USER_END && perm.p
    ensures var r := MapPage(m, roots[pid], vpn, frame, perm);
            var k := Missing(m.mem, roots[pid], vpn);
            && (r.Ok? <==> FreeCount(m) >= k)
            && (r.Ok? ==> FreeCount(r.m) == FreeCount(m) - k && LowAfter(m.mem, r.m.mem, roots[pid], vpn))
  {
    hide MapPage, Good, FreeCount, Walk, Grow, Leaf;
    var root := roots[pid];
    var va := vpn * PAGESIZE;
    ItLeaf(m, roots, role, pid, vpn);
    PagePathTo(vpn);
    var w := WalkPage(m.mem, root, vpn);
    GrowCount(m, w, va);
    MapPageResult(m, root, vpn, frame, perm);
    var g := Grow(m, w, va);
    if g.ok {
      var r := MapPage(m, root, vpn, frame, perm).m;
      var role1 := GrowGood(m, roots, role, pid, va);
      SameCount(g.m, r);
      MappedLows(m, roots, role, pid, vpn, g.m, role1, g.w.pep.page, EntryWord(frame, perm));
    }
  }

  lemma MappedLows(m: Phys, roots: map<nat, nat>, role: Roles, pid: nat, vpn: nat, m1: Phys, role1: Roles, g: nat, e: Word)
    requires Good(m, roots, role) && SlotAt(m1, roots, role1, pid, vpn, g)
    requires var w := WalkPage(m.mem, roots[pid], vpn);
             && IsLevel(w.lbits) && w.pep.Slot? && w.pep.page < NPAGES && w.pep.idx < ENTRIES
             && m1 == Grow(m, w, vpn * PAGESIZE).m
    ensures LowAfter(m.mem, SetEntry(m1.mem, g, vpn % ENTRIES, e), roots[pid], vpn)
  {
    hide Grow, Leaf, Walk;
    var root := roots[pid];
    GoodTree(m, roots, role, pid);
    ItLeaf(m, roots, role, pid, vpn);
    PagePathTo(vpn);
    hide Good;
    forall i: nat
      ensures HasLow(SetEntry(m1.mem, g, vpn % ENTRIES, e), root, i) <==> HasLow(m.mem, root, i) || i == vpn / ENTRIES
    {
      LeafTrees(m1, roots, role1, pid, vpn, g, e, pid, Sub(LOW, i));
      GrowNodes(m, root, vpn * PAGESIZE, Sub(LOW, i));
      if i != vpn / ENTRIES {
        forall l | IsLevel(l) ensures Sub(LOW, i) != PathTo(vpn * PAGESIZE, l) { OffPath(vpn, i, l); }
      }
    }
  }

  /** Writing a page that is not a table leaves the tables alone. */
  lemma WrittenTables(m: Phys, roots: map<nat, nat>, role: Roles, pid: nat, f: nat, page: Page, vpn: nat)
    requires Good(m, roots, role) && pid in roots && f < NPAGES && !role[f].Table?
    ensures Missing(m.mem[f := page], roots[pid], vpn) == Missing(m.mem, roots[pid], vpn)
    ensures forall i: nat :: HasLow(m.mem[f := page], roots[pid], i) <==> HasLow(m.mem, roots[pid], i)
  {
    var mem' := m.mem[f := page];
    GoodTree(m, roots, role, pid);
    assert SameOnTree(m.mem, mem', roots[pid]);
    WalkFrame(m.mem, mem', roots[pid], vpn * PAGESIZE);
    forall i: nat ensures HasLow(mem', roots[pid], i) <==> HasLow(m.mem, roots[pid], i) {
      NodeFrame(m.mem, mem', roots[pid], Sub(LOW, i));
    }
  }

  // ---- A tree being built ----

  /** The tree of a new process before its first page at or above 0x200. */
  ghost predicate LowOnly(mem: Memory, root: nat) {
    (HasLow(mem, root, 0) || Node(mem, root, Sub(Root, 0)).None?) && !HasLow(mem, root, 1)
  }

  /** Tables still needed for the pages below 0x200. */
  function LowNeed(mem: Memory, root: nat): nat {
    if HasLow(mem, root, 0) then 0 else 3
  }

  lemma LowMapCount(m: Phys, roots: map<nat, nat>, role: Roles, pid: nat, vpn: nat, frame: nat, perm: Perm)
    requires Good(m, roots, role) && pid in roots && vpn < ENTRIES && perm.p && LowOnly(m.mem, roots[pid])
    ensures var r := MapPage(m, roots[pid], vpn, frame, perm);
            var k := LowNeed(m.mem, roots[pid]);
            && (r.Ok? <==> FreeCount(m) >= k)
            && (r.Ok? ==> FreeCount(r.m) == FreeCount(m) - k && LowOnly(r.m.mem, roots[pid]) && HasLow(r.m.mem, roots[pid], 0))
  {
    hide MapPage, Good, FreeCount, HasLow;
    MapCount(m, roots, role, pid, vpn, frame, perm);
    MissingTables(m.mem, roots[pid], vpn);
    var r := MapPage(m, roots[pid], vpn, frame, perm);
    if r.Ok? {
      assert HasLow(r.m.mem, roots[pid], 0) && !HasLow(r.m.mem, roots[pid], 1);
    }
  }

  lemma BareTree(mem: Memory, root: nat)
    requires Node(mem, root, Sub(Root, 0)).None?
    ensures LowOnly(mem, root) && LowNeed(mem, root) == 3
  {
    assert Node(mem, root, LOW).None?;
    assert Node(mem, root, Sub(LOW, 0)).None? && Node(mem, root, Sub(LOW, 1)).None?;
  }

  lemma LowsUp(mem: Memory, root: nat)
    requires HasLow(mem, root, 0)
    ensures Node(mem, root, LOW).Some?
  {
  }
}

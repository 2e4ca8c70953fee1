/**
 `vmiter::try_map` (weensyos/k-vmiter.cc:52-86) on any page-table tree: a successful call makes
 its own page translate to the new mapping and changes no other translation, and a call that runs
 out of pages midway changes no translation at all.
 */
module TryMapTheory {
  import opened Wrappers
  import opened Paging
  import opened PhysMem

  /** A walk may be resumed at any table page on the way. */
  lemma {:induction false} Resume(mem: Memory, root: nat, va: nat, lbits: nat)
    requires Canonical(va) && IsLevel(lbits)
    requires Node(mem, root, PathTo(va, lbits)).Some?
    ensures Walk(mem, root, va)
         == Descend(mem, Walked(Slot(Node(mem, root, PathTo(va, lbits)).value, Index(va, lbits)), lbits,
                                PathPerm(mem, root, PathTo(va, lbits))), va)
    decreases INITIAL_LBITS - lbits
  {
    if lbits < INITIAL_LBITS {
      assert PathTo(va, lbits) == Sub(PathTo(va, lbits + 9), Index(va, lbits + 9));
      Resume(mem, root, va, lbits + 9);
    }
  }

  function LinkTable(mem: Memory, g: nat, i: nat, f: nat): Memory
    requires g < NPAGES && i < ENTRIES && f < NPAGES
  {
    SetEntry(mem[f := ZeroPage()], g, i, EntryWord(f, ALL_PERM))
  }

  /** The slot (g, i) of the tree is empty and `f` is not yet a page of the tree. */
  ghost predicate CanLink(mem: Memory, root: nat, path: Path, g: nat, i: nat, f: nat) {
    && TreeOk(mem, root)
    && g < NPAGES && i < ENTRIES && f < NPAGES
    && Depth(path) < 3 && Node(mem, root, path) == Some(g)
    && !Entry(mem, Slot(g, i)).perm.p
    && !InTree(mem, root, f)
  }

  lemma {:induction false} NodeAfterLink(mem: Memory, root: nat, path: Path, g: nat, i: nat, f: nat, q: Path)
    requires CanLink(mem, root, path, g, i, f)
    ensures Node(LinkTable(mem, g, i, f), root, q)
         == if q == Sub(path, i) then Some(f) else Node(mem, root, q)
    ensures Node(mem, root, q).Some? ==> q != Sub(path, i)
    ensures Node(mem, root, q).Some? ==> PathPerm(LinkTable(mem, g, i, f), root, q) == PathPerm(mem, root, q)
  {
    match q
    case Root =>
    case Sub(up, j) =>
      NodeAfterLink(mem, root, path, g, i, f, up);
      var n := Node(mem, root, up);
      if n.Some? {
        assert InTree(mem, root, n.value);
        assert n.value == g ==> up == path;
      }
  }

  lemma TreeAfterLink(mem: Memory, root: nat, path: Path, g: nat, i: nat, f: nat)
    requires CanLink(mem, root, path, g, i, f)
    ensures TreeOk(LinkTable(mem, g, i, f), root)
    ensures forall p: nat :: InTree(LinkTable(mem, g, i, f), root, p) <==> p == f || InTree(mem, root, p)
  {
    var mem' := LinkTable(mem, g, i, f);
    forall q ensures Node(mem', root, q) == if q == Sub(path, i) then Some(f) else Node(mem, root, q) {
      NodeAfterLink(mem, root, path, g, i, f, q);
    }
    NodeAfterLink(mem, root, path, g, i, f, Sub(path, i));
    forall q | Node(mem, root, q) == Some(f) ensures false { assert InTree(mem, root, f); }
    forall p: nat ensures InTree(mem', root, p) <==> p == f || InTree(mem, root, p) {
      if InTree(mem, root, p) {
        var q :| Node(mem, root, q) == Some(p);
        NodeAfterLink(mem, root, path, g, i, f, q);
        assert Node(mem', root, q) == Some(p);
      }
      if InTree(mem', root, p) && p != f {
        var q :| Node(mem', root, q) == Some(p);
        assert Node(mem, root, q) == Some(p);
      }
      if p == f { assert Node(mem', root, Sub(path, i)) == Some(p); }
    }
  }

  /** After the link, the walk to an address below the slot ends one level deeper. */
  lemma WalkAfterLink(mem: Memory, root: nat, va: nat, f: nat)
    requires Canonical(va)
    requires var r := Walk(mem, root, va);
             r.lbits > PAGEOFFBITS && r.pep.Slot? && CanLink(mem, root, PathTo(va, r.lbits), r.pep.page, r.pep.idx, f)
    ensures var r := Walk(mem, root, va);
            (Walk(LinkTable(mem, r.pep.page, r.pep.idx, f), root, va)
             == Walked(Slot(f, Index(va, r.lbits - 9)), r.lbits - 9, Meet(r.perm, ALL_PERM)))
  {
    WalkEnd(mem, root, va);
    var r := Walk(mem, root, va);
    var mem' := LinkTable(mem, r.pep.page, r.pep.idx, f);
    NodeAfterLink(mem, root, PathTo(va, r.lbits), r.pep.page, r.pep.idx, f, PathTo(va, r.lbits));
    Resume(mem', root, va, r.lbits);
    assert InTree(mem, root, r.pep.page);
    assert Entry(mem', r.pep) == EntryWord(f, ALL_PERM);
    var r' := Walked(Slot(f, Index(va, r.lbits - 9)), r.lbits - 9, Meet(r.perm, ALL_PERM));
    assert Entry(mem', r'.pep) == ZERO;
  }

  /** A walk that ends at another slot ends there still. */
  lemma WalkElsewhere(mem: Memory, root: nat, path: Path, g: nat, i: nat, f: nat, va: nat)
    requires Canonical(va) && CanLink(mem, root, path, g, i, f) && Walk(mem, root, va).pep != Slot(g, i)
    ensures var r := Walk(mem, root, va);
            Walk(LinkTable(mem, g, i, f), root, va) == r && Entry(LinkTable(mem, g, i, f), r.pep) == Entry(mem, r.pep)
  {
    WalkEnd(mem, root, va);
    var r := Walk(mem, root, va);
    NodeAfterLink(mem, root, path, g, i, f, PathTo(va, r.lbits));
    Resume(LinkTable(mem, g, i, f), root, va, r.lbits);
    assert InTree(mem, root, r.pep.page);
  }

  /** Linking an empty table changes no translation. */
  lemma TranslateAfterLink(mem: Memory, root: nat, path: Path, g: nat, i: nat, f: nat, va: nat)
    requires CanLink(mem, root, path, g, i, f)
    ensures Translate(LinkTable(mem, g, i, f), root, va) == Translate(mem, root, va)
  {
    if Canonical(va) {
      if Walk(mem, root, va).pep == Slot(g, i) {
        LinkedSlot(mem, root, path, g, i, f, va);
      } else {
        WalkElsewhere(mem, root, path, g, i, f, va);
      }
    }
  }

  lemma LinkedSlot(mem: Memory, root: nat, path: Path, g: nat, i: nat, f: nat, va: nat)
    requires Canonical(va) && CanLink(mem, root, path, g, i, f) && Walk(mem, root, va).pep == Slot(g, i)
    ensures Entry(LinkTable(mem, g, i, f), Walk(LinkTable(mem, g, i, f), root, va).pep) == ZERO
  {
    WalkEnd(mem, root, va);
    DepthPathTo(va, Walk(mem, root, va).lbits);
    WalkAfterLink(mem, root, va, f);
  }

  // ---- The leaf entry ----

  /** Writing an entry of a lowest-level table changes no table of the tree. */
  lemma {:induction false} NodeAfterLeaf(mem: Memory, root: nat, path: Path, g: nat, i: nat, e: Word, q: Path)
    requires TreeOk(mem, root) && g < NPAGES && i < ENTRIES
    requires Depth(path) == 3 && Node(mem, root, path) == Some(g)
    ensures Node(SetEntry(mem, g, i, e), root, q) == Node(mem, root, q)
    ensures Node(mem, root, q).Some? ==> PathPerm(SetEntry(mem, g, i, e), root, q) == PathPerm(mem, root, q)
  {
    match q
    case Root =>
    case Sub(up, j) =>
      NodeAfterLeaf(mem, root, path, g, i, e, up);
      var n := Node(mem, root, up);
      if n.Some? && n.value == g {
        assert up == path;
      }
  }

  lemma DivSteps(a: nat)
    ensures a / 0x20_0000 == a / 0x1000 / 512
    ensures a / 0x4000_0000 == a / 0x20_0000 / 512
    ensures a / 0x80_0000_0000 == a / 0x4000_0000 / 512
  {
  }

  lemma PathIndices(a: nat)
    ensures PathTo(a, PAGEOFFBITS)
         == Sub(Sub(Sub(Root, a / 0x80_0000_0000 % ENTRIES), a / 0x4000_0000 % ENTRIES), a / 0x20_0000 % ENTRIES)
    ensures Index(a, PAGEOFFBITS) == a / PAGESIZE % ENTRIES
  {
    assert PathTo(a, 39) == Root;
    assert PathTo(a, 30) == Sub(PathTo(a, 39), Index(a, 39));
    assert PathTo(a, 21) == Sub(PathTo(a, 30), Index(a, 30));
    assert PathTo(a, 12) == Sub(PathTo(a, 21), Index(a, 21));
  }

  /** The top index and canonicity decide all higher bits. */
  lemma TopIndex(a: nat)
    requires a < VA_END && Canonical(a)
    ensures var t := a / 0x80_0000_0000; t == if t % 512 < 256 then t % 512 else 0x1FF_FE00 + t % 512
  {
  }

  /** Two canonical addresses with the same four indices lie in the same page. */
  lemma SamePage(a: nat, b: nat)
    requires a < VA_END && b < VA_END && Canonical(a) && Canonical(b)
    requires PathTo(a, PAGEOFFBITS) == PathTo(b, PAGEOFFBITS) && Index(a, PAGEOFFBITS) == Index(b, PAGEOFFBITS)
    ensures a / PAGESIZE == b / PAGESIZE
  {
    PathIndices(a);
    PathIndices(b);
    TopIndex(a);
    TopIndex(b);
    DivSteps(a);
    DivSteps(b);
    SameQuotient(a / 0x4000_0000, b / 0x4000_0000);
    SameQuotient(a / 0x20_0000, b / 0x20_0000);
    SameQuotient(a / 0x1000, b / 0x1000);
  }

  lemma SameQuotient(x: nat, y: nat)
    requires x / 512 == y / 512 && x % 512 == y % 512
    ensures x == y
  {
  }

  lemma SamePagePath(a: nat, b: nat)
    requires a / PAGESIZE == b / PAGESIZE
    ensures PathTo(a, PAGEOFFBITS) == PathTo(b, PAGEOFFBITS) && Index(a, PAGEOFFBITS) == Index(b, PAGEOFFBITS)
    ensures Canonical(a) <==> Canonical(b)
  {
    PathIndices(a);
    PathIndices(b);
    DivSteps(a);
    DivSteps(b);
    CanonicalPage(a);
    CanonicalPage(b);
  }

  lemma CanonicalPage(a: nat)
    ensures Canonical(a) <==> a / 0x1000 < 0x8_0000_0000 || a / 0x1000 >= 0xF_FFF8_0000_0000
  {
  }

  /** Writing the entry for `va` decides the translation of its page and no other. */
  lemma TranslateAfterLeaf(mem: Memory, root: nat, va: nat, frame: nat, perm: Perm, b: nat)
    requires TreeOk(mem, root) && Canonical(va) && va < VA_END && b < VA_END
    requires var w := Walk(mem, root, va); w.lbits == PAGEOFFBITS && Meet(perm, w.perm) == perm
    ensures var w := Walk(mem, root, va);
            && w.pep.Slot? && w.pep.page < NPAGES && w.pep.idx < ENTRIES
            && Translate(SetEntry(mem, w.pep.page, w.pep.idx, EntryWord(frame, perm)), root, b)
            == if b / PAGESIZE == va / PAGESIZE then
                 (if perm.p then (Some(frame * PAGESIZE + b % PAGESIZE), perm) else (None, NO_PERM))
               else Translate(mem, root, b)
  {
    WalkEnd(mem, root, va);
    DepthPathTo(va, PAGEOFFBITS);
    var w := Walk(mem, root, va);
    var mem' := SetEntry(mem, w.pep.page, w.pep.idx, EntryWord(frame, perm));
    if b / PAGESIZE == va / PAGESIZE {
      SamePagePath(b, va);
      NodeAfterLeaf(mem, root, PathTo(va, PAGEOFFBITS), w.pep.page, w.pep.idx, EntryWord(frame, perm), PathTo(va, PAGEOFFBITS));
      Resume(mem', root, b, PAGEOFFBITS);
      assert Walk(mem', root, b) == w;
      assert Entry(mem', w.pep) == EntryWord(frame, perm);
    } else if Canonical(b) {
      OtherLeaf(mem, root, va, EntryWord(frame, perm), b);
    }
  }

  lemma OtherLeaf(mem: Memory, root: nat, va: nat, e: Word, b: nat)
    requires TreeOk(mem, root) && Canonical(va) && va < VA_END && b < VA_END && Canonical(b)
    requires b / PAGESIZE != va / PAGESIZE
    requires var w := Walk(mem, root, va); w.lbits == PAGEOFFBITS && w.pep.Slot? && w.pep.page < NPAGES && w.pep.idx < ENTRIES
    ensures var w := Walk(mem, root, va);
            var r := Walk(mem, root, b);
            && Walk(SetEntry(mem, w.pep.page, w.pep.idx, e), root, b) == r
            && Entry(SetEntry(mem, w.pep.page, w.pep.idx, e), r.pep) == Entry(mem, r.pep)
  {
    WalkEnd(mem, root, va);
    DepthPathTo(va, PAGEOFFBITS);
    var w := Walk(mem, root, va);
    var mem' := SetEntry(mem, w.pep.page, w.pep.idx, e);
    WalkEnd(mem, root, b);
    var r := Walk(mem, root, b);
    NodeAfterLeaf(mem, root, PathTo(va, PAGEOFFBITS), w.pep.page, w.pep.idx, e, PathTo(b, r.lbits));
    Resume(mem', root, b, r.lbits);
    if r.pep == w.pep {
      DepthPathTo(b, r.lbits);
      SamePage(b, va);
    }
  }

  // ---- The whole call ----

  /** Every page of the tree is counted, so the allocator never returns it. */
  ghost predicate TreeCounted(m: Phys, root: nat) {
    && TreeOk(m.mem, root)
    && forall f: nat :: f < NPAGES && InTree(m.mem, root, f) ==> m.rc[f] != 0
  }

  ghost predicate SameTranslations(mem: Memory, mem': Memory, root: nat) {
    forall b: nat :: b < VA_END ==> Translate(mem', root, b) == Translate(mem, root, b)
  }

  /** Pages in use that are not tables of `root` keep their contents, and no count is lowered. */
  ghost predicate UsedKept(m: Phys, m': Phys, root: nat) {
    && m'.kend == m.kend
    && (forall p: nat :: p < NPAGES && m.rc[p] != 0 ==> m'.rc[p] == m.rc[p])
    && (forall p: nat :: p < NPAGES && m.rc[p] != 0 && !InTree(m.mem, root, p) ==>
          m'.mem[p] == m.mem[p] && !InTree(m'.mem, root, p))
  }

  /** The loop of `try_map`, one round at a time. */
  lemma GrowRound(m: Phys, w: Walked, va: nat)
    requires w.pep.Slot? && w.pep.page < NPAGES && w.pep.idx < ENTRIES && IsLevel(w.lbits)
    ensures w.lbits == PAGEOFFBITS ==> Grow(m, w, va) == Grown(true, m, w)
    ensures var kp := FindFree(m, 0);
            w.lbits > PAGEOFFBITS ==>
              Grow(m, w, va)
              == if kp.None? then Grown(false, m, w)
                 else
                   Grow(Phys(m.kend, LinkTable(m.mem, w.pep.page, w.pep.idx, kp.value), m.rc[kp.value := 1]),
                        Walked(Slot(kp.value, Index(va, w.lbits - 9)), w.lbits - 9, Meet(w.perm, ALL_PERM)), va)
  {
    hide FindFree, Index, Meet;
    var kp := FindFree(m, 0);
    if kp.Some? {
      assert m.mem[kp.value := FillPage()][kp.value := ZeroPage()] == m.mem[kp.value := ZeroPage()];
    }
  }

  lemma {:induction false} GrowTranslations(m: Phys, root: nat, va: nat)
    requires TreeCounted(m, root) && Canonical(va)
    requires var w := Walk(m.mem, root, va); w.lbits > PAGEOFFBITS ==> !Entry(m.mem, w.pep).perm.p
    ensures var w := Walk(m.mem, root, va);
            && IsLevel(w.lbits) && w.pep.Slot? && w.pep.page < NPAGES && w.pep.idx < ENTRIES
            && var g := Grow(m, w, va);
            && TreeCounted(g.m, root)
            && SameTranslations(m.mem, g.m.mem, root)
            && UsedKept(m, g.m, root)
            && g.w == Walk(g.m.mem, root, va)
            && (w.perm == ALL_PERM ==> g.w.perm == ALL_PERM)
            && (forall perm :: Meet(perm, w.perm) == perm ==> Meet(perm, g.w.perm) == perm)
    decreases Walk(m.mem, root, va).lbits
  {
    hide Walk, TreeCounted, SameTranslations, UsedKept, Canonical;
    WalkEnd(m.mem, root, va);
    var w := Walk(m.mem, root, va);
    TreePage(m, root, PathTo(va, w.lbits));
    KeptRefl(m, root);
    if w.lbits > PAGEOFFBITS {
      var (kp, m1) := Kalloc(m);
      if kp.Some? {
        var f := kp.value;
        var m2 := LinkRound(m, root, va, f);
        assert m1.mem[f := ZeroPage()] == m.mem[f := ZeroPage()];
        GrowTranslations(m2, root, va);
        KeptTrans(m, m2, Grow(m, w, va).m, root);
      }
    }
  }

  lemma TreePage(m: Phys, root: nat, path: Path)
    requires TreeCounted(m, root) && Node(m.mem, root, path).Some?
    ensures Node(m.mem, root, path).value < NPAGES
  {
  }

  lemma KeptRefl(m: Phys, root: nat)
    ensures SameTranslations(m.mem, m.mem, root) && UsedKept(m, m, root)
  {
    hide Translate;
  }

  lemma KeptTrans(a: Phys, b: Phys, c: Phys, root: nat)
    requires SameTranslations(a.mem, b.mem, root) && UsedKept(a, b, root)
    requires SameTranslations(b.mem, c.mem, root) && UsedKept(b, c, root)
    ensures SameTranslations(a.mem, c.mem, root) && UsedKept(a, c, root)
  {
    hide Translate, InTree;
    forall p: nat | p < NPAGES && a.rc[p] != 0 ensures c.rc[p] == a.rc[p] {
      assert b.rc[p] == a.rc[p];
    }
    forall v: nat | v < VA_END ensures Translate(c.mem, root, v) == Translate(a.mem, root, v) {
      assert Translate(b.mem, root, v) == Translate(a.mem, root, v);
    }
  }

  /** Where the walk ends once the new table is linked where it stopped before. */
  lemma Linked(m: Phys, root: nat, va: nat, f: nat)
    requires TreeCounted(m, root) && Canonical(va) && FindFree(m, 0) == Some(f)
    requires var w := Walk(m.mem, root, va); w.lbits > PAGEOFFBITS && !Entry(m.mem, w.pep).perm.p
    ensures var w := Walk(m.mem, root, va);
            && IsLevel(w.lbits) && w.pep.Slot? && CanLink(m.mem, root, PathTo(va, w.lbits), w.pep.page, w.pep.idx, f)
            && w.pep.page != f
            && var m2 := Phys(m.kend, LinkTable(m.mem, w.pep.page, w.pep.idx, f), m.rc[f := 1]);
            && var w2 := Walked(Slot(f, Index(va, w.lbits - 9)), w.lbits - 9, Meet(w.perm, ALL_PERM));
            && Walk(m2.mem, root, va) == w2 && Entry(m2.mem, w2.pep) == ZERO
            && TreeCounted(m2, root) && UsedKept(m, m2, root)
  {
    hide Walk, PathTo;
    WalkEnd(m.mem, root, va);
    var w := Walk(m.mem, root, va);
    DepthPathTo(va, w.lbits);
    assert InTree(m.mem, root, w.pep.page);
    assert CanLink(m.mem, root, PathTo(va, w.lbits), w.pep.page, w.pep.idx, f);
    WalkAfterLink(m.mem, root, va, f);
    TreeAfterLink(m.mem, root, PathTo(va, w.lbits), w.pep.page, w.pep.idx, f);
  }

  /** One round of the loop: the new table is linked, and nothing is translated differently. */
  lemma LinkRound(m: Phys, root: nat, va: nat, f: nat) returns (m2: Phys)
    requires TreeCounted(m, root) && Canonical(va) && FindFree(m, 0) == Some(f)
    requires var w := Walk(m.mem, root, va); w.lbits > PAGEOFFBITS && !Entry(m.mem, w.pep).perm.p
    ensures var w := Walk(m.mem, root, va);
            && IsLevel(w.lbits) && w.pep.Slot? && w.pep.page < NPAGES && w.pep.idx < ENTRIES
            && m2 == Phys(m.kend, LinkTable(m.mem, w.pep.page, w.pep.idx, f), m.rc[f := 1])
            && var w2 := Walk(m2.mem, root, va);
            && w2 == Walked(Slot(f, Index(va, w.lbits - 9)), w.lbits - 9, Meet(w.perm, ALL_PERM))
            && Entry(m2.mem, w2.pep) == ZERO
    ensures TreeCounted(m2, root) && SameTranslations(m.mem, m2.mem, root) && UsedKept(m, m2, root)
  {
    hide Walk, PathTo, UsedKept, TreeCounted, Translate;
    Linked(m, root, va, f);
    var w := Walk(m.mem, root, va);
    m2 := Phys(m.kend, LinkTable(m.mem, w.pep.page, w.pep.idx, f), m.rc[f := 1]);
    forall b: nat | b < VA_END ensures Translate(m2.mem, root, b) == Translate(m.mem, root, b) {
      TranslateAfterLink(m.mem, root, PathTo(va, w.lbits), w.pep.page, w.pep.idx, f, b);
    }
  }

  /** What `b` translates to after a successful call for the page at `va`, whose walk ended at `w`.  A call
      that takes the rights away does nothing above the lowest level. */
  function Remapped(mem: Memory, root: nat, w: Walked, va: nat, frame: nat, perm: Perm, b: nat): (Option<nat>, Perm) {
    if b / PAGESIZE != va / PAGESIZE || (w.lbits > PAGEOFFBITS && perm == NO_PERM) then Translate(mem, root, b)
    else if perm.p then (Some(frame * PAGESIZE + b % PAGESIZE), perm)
    else (None, NO_PERM)
  }

  /** The promise made for `try_map` in weensyos/k-vmiter.hh:91-97, for every permission. */
  lemma TryMapCorrect(m: Phys, root: nat, va: nat, frame: nat, perm: Perm)
    requires TreeCounted(m, root) && Canonical(va) && va < VA_END
    requires CanMap(m, Walk(m.mem, root, va), va, frame, perm)
    ensures var w := Walk(m.mem, root, va);
            var r := TryMap(m, w, va, frame, perm);
            && TreeCounted(r.m, root) && UsedKept(m, r.m, root)
            && (!r.ok ==> SameTranslations(m.mem, r.m.mem, root))
            && (r.ok ==> forall b: nat :: b < VA_END ==>
                  Translate(r.m.mem, root, b) == Remapped(m.mem, root, w, va, frame, perm, b))
            && (perm == NO_PERM ==> r.ok && r.m.rc == m.rc)
  {
    hide Walk, Translate, TreeCounted, UsedKept, SameTranslations, Canonical;
    var w := Walk(m.mem, root, va);
    if perm == NO_PERM {
      KeptRefl(m, root);
      if w.lbits == PAGEOFFBITS { LeafWrite(m, m, root, va, frame, perm); }
    } else {
      GrowTranslations(m, root, va);
      var g := Grow(m, w, va);
      if g.ok { LeafWrite(m, g.m, root, va, frame, perm); }
    }
  }

  /** Writing the lowest-level entry after the table has grown. */
  lemma LeafWrite(m: Phys, m1: Phys, root: nat, va: nat, frame: nat, perm: Perm)
    requires TreeCounted(m1, root) && Canonical(va) && va < VA_END && UsedKept(m, m1, root)
    requires SameTranslations(m.mem, m1.mem, root)
    requires var w := Walk(m1.mem, root, va); w.lbits == PAGEOFFBITS && Meet(perm, w.perm) == perm
    ensures var w := Walk(m1.mem, root, va);
            && w.pep.Slot? && w.pep.page < NPAGES && w.pep.idx < ENTRIES
            && var m2 := Phys(m1.kend, SetEntry(m1.mem, w.pep.page, w.pep.idx, EntryWord(frame, perm)), m1.rc);
            && TreeCounted(m2, root) && UsedKept(m, m2, root)
            && forall b: nat :: b < VA_END ==>
                 Translate(m2.mem, root, b)
                 == if b / PAGESIZE != va / PAGESIZE then Translate(m.mem, root, b)
                    else if perm.p then (Some(frame * PAGESIZE + b % PAGESIZE), perm) else (None, NO_PERM)
  {
    hide Walk, Translate, InTree, Canonical;
    var w := Walk(m1.mem, root, va);
    WalkEnd(m1.mem, root, va);
    DepthPathTo(va, PAGEOFFBITS);
    TranslateAfterLeaf(m1.mem, root, va, frame, perm, va);
    TreeAfterLeaf(m1, root, PathTo(va, PAGEOFFBITS), w.pep.page, w.pep.idx, EntryWord(frame, perm));
    var m2 := Phys(m1.kend, SetEntry(m1.mem, w.pep.page, w.pep.idx, EntryWord(frame, perm)), m1.rc);
    forall b: nat | b < VA_END
      ensures Translate(m2.mem, root, b)
           == if b / PAGESIZE != va / PAGESIZE then Translate(m.mem, root, b)
              else if perm.p then (Some(frame * PAGESIZE + b % PAGESIZE), perm) else (None, NO_PERM)
    {
      TranslateAfterLeaf(m1.mem, root, va, frame, perm, b);
    }
    UsedKeptTrans(m, m1, m2, root);
  }

  lemma UsedKeptTrans(a: Phys, b: Phys, c: Phys, root: nat)
    requires UsedKept(a, b, root) && UsedKept(b, c, root)
    ensures UsedKept(a, c, root)
  {
    hide InTree;
    forall p: nat | p < NPAGES && a.rc[p] != 0 ensures c.rc[p] == a.rc[p] {
      assert b.rc[p] == a.rc[p];
    }
  }

  lemma TreeAfterLeaf(m: Phys, root: nat, path: Path, g: nat, i: nat, e: Word)
    requires TreeCounted(m, root) && g < NPAGES && i < ENTRIES
    requires Depth(path) == 3 && Node(m.mem, root, path) == Some(g)
    ensures var m' := Phys(m.kend, SetEntry(m.mem, g, i, e), m.rc);
            TreeCounted(m', root) && UsedKept(m, m', root)
  {
    var mem' := SetEntry(m.mem, g, i, e);
    forall q ensures Node(mem', root, q) == Node(m.mem, root, q) {
      NodeAfterLeaf(m.mem, root, path, g, i, e, q);
    }
    forall p: nat ensures InTree(mem', root, p) <==> InTree(m.mem, root, p) {
      if InTree(m.mem, root, p) {
        var q :| Node(m.mem, root, q) == Some(p);
        assert Node(mem', root, q) == Some(p);
      }
    }
    assert InTree(m.mem, root, g);
  }
}

/**
 Page-table words, page-table trees and the walk from a root, as the x86-64 hardware does it
 (Intel 64 SDM, Volume 3A, section 4.5) and as `vmiter` repeats it in software.

 A 64-bit word is kept as its fields.  A page is 512 words; every page of physical memory, data
 or page table alike, is such a page.
 */
module Paging {
  import opened Wrappers

  const NPAGES := 512
  const ENTRIES := 512
  const PAGESIZE := 0x1000

  const PAGEOFFBITS := 12
  const PAGEINDEXBITS := 9
  const INITIAL_LBITS := 39
  const NONCANONICAL_LBITS := 47
  const DONE_LBITS := 64

  const VA_LOWMAX := 0x0000_7FFF_FFFF_FFFF
  const VA_HIGHMIN := 0xFFFF_8000_0000_0000
  const VA_END := 0x1_0000_0000_0000_0000

  /** The three access bits of an entry: present, writable, user-accessible. */
  datatype Perm = Perm(p: bool, w: bool, u: bool)

  const NO_PERM := Perm(false, false, false)
  const ALL_PERM := Perm(true, true, true)

  function Meet(a: Perm, b: Perm): Perm {
    Perm(a.p && b.p, a.w && b.w, a.u && b.u)
  }

  /** `frame` is bits 51:12, `ps` is bit 7, `misc` stands for every bit not named. */
  datatype Word = Word(perm: Perm, ps: bool, frame: nat, misc: nat)

  const ZERO := Word(NO_PERM, false, 0, 0)

  function EntryWord(frame: nat, perm: Perm): Word {
    Word(perm, false, frame, 0)
  }

  type Page = s: seq<Word> | |s| == ENTRIES witness seq(ENTRIES, _ => ZERO)
  type Memory = m: seq<Page> | |m| == NPAGES witness seq(NPAGES, _ => seq(ENTRIES, _ => ZERO))

  function ZeroPage(): Page { seq(ENTRIES, _ => ZERO) }

  /** What `memset(pa, 0xCC, PAGESIZE)` leaves: P clear, W clear, U set, PS set. */
  const FILL := Word(Perm(false, false, true), true, 0xCC_CCCC_CCCC, 1)
  function FillPage(): Page { seq(ENTRIES, _ => FILL) }

  /** Eight bytes 0xCC are that word: bits 0, 1, 2 and 7, and bits 51:12. */
  lemma FillExact(i: nat)
    requires i < 512
    ensures var v, e := 0xCCCC_CCCC_CCCC_CCCC, FillPage()[i];
            && (e.perm.p <==> v % 2 == 1) && (e.perm.w <==> v / 2 % 2 == 1) && (e.perm.u <==> v / 4 % 2 == 1)
            && (e.ps <==> v / 0x80 % 2 == 1) && e.frame == v / 0x1000 % 0x100_0000_0000 && e.misc != 0
            && |FillPage()| == 512
  {
  }

  predicate Canonical(va: nat) {
    va <= VA_LOWMAX || va >= VA_HIGHMIN
  }

  /** Two to the power `lbits`, for the values `lbits` takes during a walk. */
  function Span(lbits: int): int {
    if lbits == 12 then 0x1000
    else if lbits == 21 then 0x20_0000
    else if lbits == 30 then 0x4000_0000
    else if lbits == 39 then 0x80_0000_0000
    else if lbits == 47 then 0x8000_0000_0000
    else 0x1_0000_0000_0000
  }

  predicate IsLevel(lbits: int) {
    lbits == 12 || lbits == 21 || lbits == 30 || lbits == 39
  }

  function Index(va: nat, lbits: int): nat {
    va / Span(lbits) % ENTRIES
  }

  // ---- Entries and walks ----

  /** Where an entry pointer points: at the shared zero entry, or at a slot of a page. */
  datatype Pep = ZeroPe | Slot(page: nat, idx: nat)

  function Entry(mem: Memory, pep: Pep): Word {
    if pep.Slot? && pep.page < NPAGES && pep.idx < ENTRIES then mem[pep.page][pep.idx] else ZERO
  }

  predicate PointsDown(e: Word) {
    e.perm.p && !e.ps
  }

  datatype Walked = Walked(pep: Pep, lbits: nat, perm: Perm)

  function Descend(mem: Memory, w: Walked, va: nat): Walked
    decreases w.lbits
  {
    var e := Entry(mem, w.pep);
    if w.lbits > PAGEOFFBITS && PointsDown(e) then
      var lbits := if w.lbits < PAGEINDEXBITS then 0 else w.lbits - PAGEINDEXBITS;
      Descend(mem, Walked(Slot(e.frame, Index(va, lbits)), lbits, Meet(w.perm, e.perm)), va)
    else
      w
  }

  function Start(root: nat, va: nat): Walked {
    Walked(Slot(root, Index(va, INITIAL_LBITS)), INITIAL_LBITS, ALL_PERM)
  }

  /** The walk from the root that defines what `va` means. */
  function Walk(mem: Memory, root: nat, va: nat): Walked {
    if Canonical(va) then Descend(mem, Start(root, va), va)
    else Walked(ZeroPe, NONCANONICAL_LBITS, NO_PERM)
  }

  function PermAt(mem: Memory, w: Walked): Perm {
    var ph := Meet(Entry(mem, w.pep).perm, w.perm);
    if ph.p then ph else NO_PERM
  }

  function PaAt(mem: Memory, w: Walked, va: nat): Option<nat> {
    var e := Entry(mem, w.pep);
    if !e.perm.p then None
    else
      var frame := if w.lbits > PAGEOFFBITS then e.frame - e.frame % 2 else e.frame;
      Some(frame * PAGESIZE + va % Span(w.lbits))
  }

  /** The translation of `va`: physical address (if any) and access rights. */
  function Translate(mem: Memory, root: nat, va: nat): (Option<nat>, Perm) {
    var w := Walk(mem, root, va);
    (PaAt(mem, w, va), PermAt(mem, w))
  }

  // ---- The same, level by level ----

  function EntryAt(mem: Memory, table: nat, i: nat): Word {
    if table < 512 && i < 512 then mem[table][i] else Word(Perm(false, false, false), false, 0, 0)
  }

  /** An entry that ends the walk, for an address `offset` bytes into what it maps. */
  function Ends(e: Word, w: bool, u: bool, large: bool, offset: nat): (Option<nat>, Perm) {
    if e.perm.p then
      (Some((if large then e.frame / 2 * 2 else e.frame) * 4096 + offset), Perm(true, w && e.perm.w, u && e.perm.u))
    else (None, Perm(false, false, false))
  }

  /** Four tables, each read at nine bits of the address; an entry with PS set maps a large page, whose
      address has bit 12 clear.  Intel 64 SDM, Volume 3A, section 4.5, but for PS at the highest level, which
      `vmiter` takes for a large page too. */
  function PageWalk(mem: Memory, root: nat, va: nat): (Option<nat>, Perm) {
    var e4 := EntryAt(mem, root, va / 0x80_0000_0000 % 512);
    if !e4.perm.p || e4.ps then Ends(e4, true, true, true, va % 0x80_0000_0000)
    else
      var e3 := EntryAt(mem, e4.frame, va / 0x4000_0000 % 512);
      if !e3.perm.p || e3.ps then Ends(e3, e4.perm.w, e4.perm.u, true, va % 0x4000_0000)
      else
        var e2 := EntryAt(mem, e3.frame, va / 0x20_0000 % 512);
        var w, u := e4.perm.w && e3.perm.w, e4.perm.u && e3.perm.u;
        if !e2.perm.p || e2.ps then Ends(e2, w, u, true, va % 0x20_0000)
        else
          var e1 := EntryAt(mem, e2.frame, va / 0x1000 % 512);
          Ends(e1, w && e2.perm.w, u && e2.perm.u, false, va % 0x1000)
  }

  /** The loop of `vmiter` is the walk of the hardware; an address outside both halves is not mapped. */
  lemma TranslateExact(mem: Memory, root: nat, va: nat)
    ensures Translate(mem, root, va) ==
            if va < 0x8000_0000_0000 || va >= 0xFFFF_8000_0000_0000 then PageWalk(mem, root, va)
            else (None, Perm(false, false, false))
  {
    if Canonical(va) {
      hide Descend, Index;
      var w4 := Start(root, va);
      DescendStep(mem, w4, va);
      DescendStep(mem, Under(mem, w4, va), va);
      DescendStep(mem, Under(mem, Under(mem, w4, va), va), va);
      DescendStep(mem, Under(mem, Under(mem, Under(mem, w4, va), va), va), va);
      IndexExact(va);
    }
  }

  /** One level down. */
  function Under(mem: Memory, w: Walked, va: nat): Walked {
    var e, lbits := Entry(mem, w.pep), if w.lbits < 9 then 0 else w.lbits - 9;
    Walked(Slot(e.frame, Index(va, lbits)), lbits, Meet(w.perm, e.perm))
  }

  lemma DescendStep(mem: Memory, w: Walked, va: nat)
    ensures Descend(mem, w, va) ==
            if w.lbits > 12 && PointsDown(Entry(mem, w.pep)) then Descend(mem, Under(mem, w, va), va) else w
  {
  }

  lemma IndexExact(va: nat)
    ensures Index(va, 39) == va / 0x80_0000_0000 % 512 && Index(va, 30) == va / 0x4000_0000 % 512
    ensures Index(va, 21) == va / 0x20_0000 % 512 && Index(va, 12) == va / 0x1000 % 512
  {
  }

  // ---- Trees ----

  /** A table page is named by the indices that lead to it, innermost last. */
  datatype Path = Root | Sub(up: Path, i: nat)

  function Depth(path: Path): nat {
    match path case Root => 0 case Sub(up, _) => 1 + Depth(up)
  }

  /** The table page at `path` below `root`; tables have depth at most 3. */
  function Node(mem: Memory, root: nat, path: Path): Option<nat> {
    match path
    case Root => Some(root)
    case Sub(up, i) =>
      match Node(mem, root, up)
      case None => None
      case Some(f) =>
        var e := Entry(mem, Slot(f, i));
        if Depth(up) < 3 && PointsDown(e) then Some(e.frame) else None
  }

  function PathPerm(mem: Memory, root: nat, path: Path): Perm {
    match path
    case Root => ALL_PERM
    case Sub(up, i) =>
      match Node(mem, root, up)
      case None => NO_PERM
      case Some(f) => Meet(PathPerm(mem, root, up), Entry(mem, Slot(f, i)).perm)
  }

  /** The path of the table whose entries have size 2^lbits on the way to `va`. */
  function PathTo(va: nat, lbits: int): Path
    decreases INITIAL_LBITS - lbits
  {
    if lbits >= INITIAL_LBITS then Root
    else Sub(PathTo(va, lbits + PAGEINDEXBITS), Index(va, lbits + PAGEINDEXBITS))
  }

  /** The tree below `root` is a tree: no page is met on two paths, and all pages are in RAM. */
  ghost predicate TreeOk(mem: Memory, root: nat) {
    && (forall path :: Node(mem, root, path).Some? ==> Node(mem, root, path).value < NPAGES)
    && (forall p, q :: Node(mem, root, p).Some? && Node(mem, root, p) == Node(mem, root, q) ==> p == q)
  }

  ghost predicate InTree(mem: Memory, root: nat, f: nat) {
    exists path :: Node(mem, root, path) == Some(f)
  }

  ghost predicate SameOnTree(mem: Memory, mem': Memory, root: nat) {
    forall f: nat :: f < NPAGES && InTree(mem, root, f) ==> mem'[f] == mem[f]
  }

  /** Node depends only on the pages of the tree. */
  lemma {:induction false} NodeFrame(mem: Memory, mem': Memory, root: nat, path: Path)
    requires SameOnTree(mem, mem', root)
    ensures Node(mem', root, path) == Node(mem, root, path)
  {
    match path
    case Root =>
    case Sub(up, i) =>
      NodeFrame(mem, mem', root, up);
      var n := Node(mem, root, up);
      if n.Some? && n.value < NPAGES {
        assert InTree(mem, root, n.value);
      }
  }

  lemma {:induction false} DescendFrame(mem: Memory, mem': Memory, root: nat, path: Path, w: Walked, va: nat)
    requires SameOnTree(mem, mem', root)
    requires IsLevel(w.lbits) && Depth(path) * 9 == INITIAL_LBITS - w.lbits
    requires w.pep.Slot? && Node(mem, root, path) == Some(w.pep.page)
    ensures Descend(mem', w, va) == Descend(mem, w, va)
    decreases w.lbits
  {
    if w.pep.page < NPAGES {
      assert InTree(mem, root, w.pep.page);
    }
    var e := Entry(mem, w.pep);
    if w.lbits > PAGEOFFBITS && PointsDown(e) {
      var w' := Walked(Slot(e.frame, Index(va, w.lbits - 9)), w.lbits - 9, Meet(w.perm, e.perm));
      DescendFrame(mem, mem', root, Sub(path, w.pep.idx), w', va);
    }
  }

  /** Where a walk that passes through `w` ends, in terms of the tree. */
  lemma {:induction false} DescendEnd(mem: Memory, root: nat, w: Walked, va: nat)
    requires IsLevel(w.lbits)
    requires w.pep.Slot? && w.pep.idx == Index(va, w.lbits)
    requires Node(mem, root, PathTo(va, w.lbits)) == Some(w.pep.page)
    requires w.perm == PathPerm(mem, root, PathTo(va, w.lbits))
    ensures var r := Descend(mem, w, va);
            && IsLevel(r.lbits) && r.lbits <= w.lbits
            && r.pep.Slot? && r.pep.idx == Index(va, r.lbits)
            && Node(mem, root, PathTo(va, r.lbits)) == Some(r.pep.page)
            && r.perm == PathPerm(mem, root, PathTo(va, r.lbits))
            && (r.lbits == PAGEOFFBITS || !PointsDown(Entry(mem, r.pep)))
    decreases w.lbits
  {
    var e := Entry(mem, w.pep);
    if w.lbits > PAGEOFFBITS && PointsDown(e) {
      var l := w.lbits - 9;
      assert PathTo(va, l) == Sub(PathTo(va, w.lbits), Index(va, w.lbits));
      DepthPathTo(va, w.lbits);
      DescendEnd(mem, root, Walked(Slot(e.frame, Index(va, l)), l, Meet(w.perm, e.perm)), va);
    }
  }

  lemma {:induction false} DepthPathTo(va: nat, lbits: int)
    requires IsLevel(lbits)
    ensures Depth(PathTo(va, lbits)) * 9 == INITIAL_LBITS - lbits
    decreases INITIAL_LBITS - lbits
  {
    if lbits < INITIAL_LBITS { DepthPathTo(va, lbits + 9); }
  }

  lemma WalkEnd(mem: Memory, root: nat, va: nat)
    requires Canonical(va)
    ensures var r := Walk(mem, root, va);
            && IsLevel(r.lbits)
            && r.pep.Slot? && r.pep.idx == Index(va, r.lbits)
            && Node(mem, root, PathTo(va, r.lbits)) == Some(r.pep.page)
            && r.perm == PathPerm(mem, root, PathTo(va, r.lbits))
            && (r.lbits == PAGEOFFBITS || !PointsDown(Entry(mem, r.pep)))
  {
    DescendEnd(mem, root, Start(root, va), va);
  }

  /** A walk depends only on the pages of its tree. */
  lemma WalkFrame(mem: Memory, mem': Memory, root: nat, va: nat)
    requires SameOnTree(mem, mem', root)
    ensures Walk(mem', root, va) == Walk(mem, root, va)
    ensures Translate(mem', root, va) == Translate(mem, root, va)
  {
    if Canonical(va) {
      DescendFrame(mem, mem', root, Root, Start(root, va), va);
      WalkEnd(mem, root, va);
      var r := Walk(mem, root, va);
      if r.pep.page < NPAGES {
        assert InTree(mem, root, r.pep.page);
      }
    }
  }
}

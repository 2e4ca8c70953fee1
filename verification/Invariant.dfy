/**
 The invariant that ties page contents, reference counts and the process table together, and what
 each change to physical memory does to it.

 Every page has a role: not in use, a table page at one place of one process's tree, or a data page
 mapped at one address in each of a set of processes.  The circular safety argument is split here:
 the trees fix the roles, and the roles fix the counts.
 */
module Invariant {
  import opened Wrappers
  import opened Paging
  import opened PhysMem
  import opened TryMapTheory
  import opened Kernel

  /** `users` gives, for each process that maps the page, the virtual page it is mapped at. */
  datatype Role =
    | Unused
    | Table(pid: nat, path: Path)
    | Data(w: bool, users: map<nat, nat>)

  type Roles = s: seq<Role> | |s| == NPAGES witness seq(NPAGES, _ => Unused)

  predicate Uses(r: Role, pid: nat) {
    (r.Table? && r.pid == pid) || (r.Data? && pid in r.users)
  }

  /** The count a role demands; a page without a role may have leaked one count. */
  predicate CountOk(r: Role, count: nat) {
    match r
    case Unused => count <= 1
    case Table(_, _) => count == 1
    case Data(w, users) => count == |users| && count >= 1 && (w ==> count == 1)
  }

  /** The table that holds the entries of all process memory. */
  const LOW := Sub(Sub(Root, 0), 0)

  function PagePath(vpn: nat): Path { Sub(LOW, vpn / ENTRIES) }

  predicate KernelPage(vpn: nat) { KERNEL_FIRST <= vpn < KERNEL_TOP }

  predicate DataPage(vpn: nat) { vpn < USER_END && !KernelPage(vpn) && vpn != CONSOLE_PAGE }

  ghost predicate LeafOk(role: Roles, pid: nat, vpn: nat, e: Word) {
    && vpn < USER_END && e.frame < NPAGES
    && (KernelPage(vpn) ==> !e.perm.u)
    && (vpn == CONSOLE_PAGE ==> e.frame == CONSOLE_PAGE && e.perm == ALL_PERM)
    && (DataPage(vpn) ==>
          && e.perm.u && role[e.frame].Data? && role[e.frame].w == e.perm.w
          && pid in role[e.frame].users && role[e.frame].users[pid] == vpn)
  }

  ghost predicate EntryOk(role: Roles, pid: nat, path: Path, i: nat, e: Word) {
    if !e.perm.p then e == ZERO
    else if Depth(path) < 3 then !e.ps && e.perm == ALL_PERM
    else path.Sub? && path.up == LOW && LeafOk(role, pid, path.i * ENTRIES + i, e)
  }

  function Leaf(mem: Memory, root: nat, vpn: nat): Word {
    match Node(mem, root, PagePath(vpn))
    case None => ZERO
    case Some(f) => Entry(mem, Slot(f, vpn % ENTRIES))
  }

  ghost predicate CountsOk(m: Phys, role: Roles) {
    forall p: nat :: p < NPAGES ==>
      CountOk(role[p], m.rc[p]) && (role[p] != Unused ==> Allocatable(m.kend, p))
  }

  ghost predicate PidsOk(roots: map<nat, nat>) {
    forall pid :: pid in roots ==> pid < PID_MAX
  }

  ghost predicate TreesOk(mem: Memory, roots: map<nat, nat>, role: Roles) {
    && (forall pid, path :: pid in roots && Node(mem, roots[pid], path).Some? ==>
          Node(mem, roots[pid], path).value < NPAGES
          && role[Node(mem, roots[pid], path).value] == Table(pid, path))
    && (forall p: nat :: p < NPAGES && role[p].Table? ==>
          role[p].pid in roots && Node(mem, roots[role[p].pid], role[p].path) == Some(p))
  }

  ghost predicate EntriesOk(mem: Memory, role: Roles) {
    forall p: nat, i: nat :: p < NPAGES && i < ENTRIES && role[p].Table? ==>
      EntryOk(role, role[p].pid, role[p].path, i, mem[p][i])
  }

  ghost predicate MapsTo(mem: Memory, root: nat, vpn: nat, p: nat) {
    DataPage(vpn) && Leaf(mem, root, vpn).perm.p && Leaf(mem, root, vpn).frame == p
  }

  ghost predicate UsersOk(mem: Memory, roots: map<nat, nat>, role: Roles) {
    forall p: nat, pid :: p < NPAGES && role[p].Data? && pid in role[p].users ==>
      pid in roots && MapsTo(mem, roots[pid], role[p].users[pid], p)
  }

  ghost predicate Good(m: Phys, roots: map<nat, nat>, role: Roles) {
    && CountsOk(m, role)
    && PidsOk(roots)
    && TreesOk(m.mem, roots, role)
    && EntriesOk(m.mem, role)
    && UsersOk(m.mem, roots, role)
  }

  // ---- First consequences ----

  lemma GoodTree(m: Phys, roots: map<nat, nat>, role: Roles, pid: nat)
    requires Good(m, roots, role) && pid in roots
    ensures TreeCounted(m, roots[pid])
    ensures forall f: nat :: InTree(m.mem, roots[pid], f) ==> f < NPAGES && Uses(role[f], pid) && role[f].Table?
  {
  }

  lemma {:induction false} AllAccess(m: Phys, roots: map<nat, nat>, role: Roles, pid: nat, path: Path)
    requires Good(m, roots, role) && pid in roots && Node(m.mem, roots[pid], path).Some?
    ensures PathPerm(m.mem, roots[pid], path) == ALL_PERM
  {
    if path.Sub? {
      var f := Node(m.mem, roots[pid], path.up).value;
      AllAccess(m, roots, role, pid, path.up);
      assert EntryOk(role, pid, path.up, path.i, m.mem[f][path.i]);
    }
  }

  lemma PagePathTo(vpn: nat)
    requires vpn < USER_END
    ensures PagePath(vpn) == PathTo(vpn * PAGESIZE, PAGEOFFBITS)
    ensures Index(vpn * PAGESIZE, PAGEOFFBITS) == vpn % ENTRIES
    ensures Canonical(vpn * PAGESIZE) && vpn * PAGESIZE < VA_END
    ensures vpn / ENTRIES * ENTRIES + vpn % ENTRIES == vpn
  {
    PathIndices(vpn * PAGESIZE);
  }

  /** In a good state every walk has full access on the way and stops at an absent entry or a leaf. */
  lemma WalkFacts(m: Phys, roots: map<nat, nat>, role: Roles, pid: nat, va: nat)
    requires Good(m, roots, role) && pid in roots && Canonical(va)
    ensures var w := Walk(m.mem, roots[pid], va);
            && w.perm == ALL_PERM && (w.lbits > PAGEOFFBITS ==> !Entry(m.mem, w.pep).perm.p)
            && IsLevel(w.lbits) && w.pep.Slot? && w.pep.page < NPAGES && w.pep.idx < ENTRIES
            && EntryOk(role, pid, PathTo(va, w.lbits), w.pep.idx, Entry(m.mem, w.pep))
  {
    WalkEnd(m.mem, roots[pid], va);
    var w := Walk(m.mem, roots[pid], va);
    DepthPathTo(va, w.lbits);
    AllAccess(m, roots, role, pid, PathTo(va, w.lbits));
    assert EntryOk(role, pid, PathTo(va, w.lbits), w.pep.idx, m.mem[w.pep.page][w.pep.idx]);
  }

  /** The check at the end of `vmiter::down` (weensyos/k-vmiter.cc:14-18) never stops the kernel. */
  lemma NoStrayEntry(m: Phys, roots: map<nat, nat>, role: Roles, pid: nat, va: nat)
    requires Good(m, roots, role) && pid in roots
    ensures var w := Walk(m.mem, roots[pid], va);
            !(Entry(m.mem, w.pep).frame >= 0x10_0000 && w.lbits < PAGEOFFBITS + 2 * PAGEINDEXBITS)
  {
    if Canonical(va) {
      WalkFacts(m, roots, role, pid, va);
      WalkEnd(m.mem, roots[pid], va);
      DepthPathTo(va, Walk(m.mem, roots[pid], va).lbits);
    }
  }

  /** What the iterator reports at a page is what the leaf entry says. */
  lemma ItLeaf(m: Phys, roots: map<nat, nat>, role: Roles, pid: nat, vpn: nat)
    requires Good(m, roots, role) && pid in roots && vpn < USER_END
    ensures var e := Leaf(m.mem, roots[pid], vpn);
            && ItPerm(m.mem, roots[pid], vpn) == (if e.perm.p then e.perm else NO_PERM)
            && (e.perm.p ==> ItFrame(m.mem, roots[pid], vpn) == e.frame && LeafOk(role, pid, vpn, e))
            && (!e.perm.p ==> e == ZERO)
    ensures var w := WalkPage(m.mem, roots[pid], vpn);
            && w.perm == ALL_PERM && (w.lbits > PAGEOFFBITS ==> !Entry(m.mem, w.pep).perm.p)
            && IsLevel(w.lbits) && w.pep.Slot? && w.pep.page < NPAGES && w.pep.idx < ENTRIES
  {
    var root := roots[pid];
    var va := vpn * PAGESIZE;
    PagePathTo(vpn);
    WalkFacts(m, roots, role, pid, va);
    WalkEnd(m.mem, root, va);
    var w := Walk(m.mem, root, va);
    if w.lbits == PAGEOFFBITS {
      assert Leaf(m.mem, root, vpn) == Entry(m.mem, w.pep);
    } else {
      MissingBelow(m.mem, root, va, w.lbits);
    }
  }

  /** If a walk stops above the lowest level there is no lowest-level table. */
  lemma MissingBelow(mem: Memory, root: nat, va: nat, lbits: nat)
    requires IsLevel(lbits) && lbits > PAGEOFFBITS
    requires Node(mem, root, PathTo(va, lbits)).Some?
    requires !PointsDown(Entry(mem, Slot(Node(mem, root, PathTo(va, lbits)).value, Index(va, lbits))))
    ensures Node(mem, root, PathTo(va, PAGEOFFBITS)) == None
  {
    assert PathTo(va, 39) == Root;
    assert PathTo(va, 30) == Sub(PathTo(va, 39), Index(va, 39));
    assert PathTo(va, 21) == Sub(PathTo(va, 30), Index(va, 30));
    assert PathTo(va, 12) == Sub(PathTo(va, 21), Index(va, 21));
    if lbits == 39 { assert Node(mem, root, PathTo(va, 30)) == None; }
    if lbits >= 30 { assert Node(mem, root, PathTo(va, 21)) == None; }
  }

  // ---- New table pages ----

  /** Pages in use keep their count and, unless they are tables of `pid`, their contents; new pages
      in use are tables of `pid`. */
  ghost predicate Extended(m: Phys, role: Roles, m': Phys, role': Roles, pid: nat) {
    && m'.kend == m.kend
    && (forall p: nat :: p < NPAGES && m.rc[p] != 0 ==>
          && m'.rc[p] == m.rc[p] && role'[p] == role[p]
          && (!(role[p].Table? && role[p].pid == pid) ==> m'.mem[p] == m.mem[p]))
    && (forall p: nat :: p < NPAGES && m.rc[p] == 0 ==>
          || (m'.rc[p] == 0 && role'[p] == role[p])
          || (m'.rc[p] == 1 && role'[p].Table? && role'[p].pid == pid))
  }

  ghost predicate SameLeaves(mem: Memory, mem': Memory, roots: map<nat, nat>) {
    forall pid, vpn: nat :: pid in roots && vpn < USER_END ==> Leaf(mem', roots[pid], vpn) == Leaf(mem, roots[pid], vpn)
  }

  lemma LinkTrees(m: Phys, roots: map<nat, nat>, role: Roles, pid: nat, path: Path, g: nat, i: nat, f: nat, q: nat, x: Path)
    requires Good(m, roots, role) && pid in roots && CanLink(m.mem, roots[pid], path, g, i, f)
    requires role[f] == Unused && q in roots
    ensures Node(LinkTable(m.mem, g, i, f), roots[q], x)
         == if q == pid && x == Sub(path, i) then Some(f) else Node(m.mem, roots[q], x)
    ensures q == pid && x == Sub(path, i) ==> Node(m.mem, roots[q], x) == None
  {
    if q == pid {
      NodeAfterLink(m.mem, roots[pid], path, g, i, f, x);
    } else {
      NodeFrame(m.mem, LinkTable(m.mem, g, i, f), roots[q], x);
    }
  }

  ghost predicate CanLinkGood(m: Phys, roots: map<nat, nat>, role: Roles, pid: nat, path: Path, g: nat, i: nat, f: nat) {
    Good(m, roots, role) && pid in roots && CanLink(m.mem, roots[pid], path, g, i, f) && Free(m, f)
    && role[f] == Unused
  }

  lemma LinkTreesOk(m: Phys, roots: map<nat, nat>, role: Roles, pid: nat, path: Path, g: nat, i: nat, f: nat)
    requires CanLinkGood(m, roots, role, pid, path, g, i, f)
    ensures TreesOk(LinkTable(m.mem, g, i, f), roots, role[f := Table(pid, Sub(path, i))])
  {
    forall q, x | q in roots
      ensures Node(LinkTable(m.mem, g, i, f), roots[q], x)
           == if q == pid && x == Sub(path, i) then Some(f) else Node(m.mem, roots[q], x)
    {
      LinkTrees(m, roots, role, pid, path, g, i, f, q, x);
    }
    LinkTrees(m, roots, role, pid, path, g, i, f, pid, Sub(path, i));
  }

  lemma LinkEntriesOk(m: Phys, roots: map<nat, nat>, role: Roles, pid: nat, path: Path, g: nat, i: nat, f: nat)
    requires CanLinkGood(m, roots, role, pid, path, g, i, f)
    ensures EntriesOk(LinkTable(m.mem, g, i, f), role[f := Table(pid, Sub(path, i))])
  {
    var mem', role' := LinkTable(m.mem, g, i, f), role[f := Table(pid, Sub(path, i))];
    assert role[g] == Table(pid, path);
    forall p: nat, j: nat | p < NPAGES && j < ENTRIES && role'[p].Table?
      ensures EntryOk(role', role'[p].pid, role'[p].path, j, mem'[p][j])
    {
      if p != f {
        assert EntryOk(role, role[p].pid, role[p].path, j, m.mem[p][j]);
      }
    }
  }

  lemma LinkLeaf(m: Phys, roots: map<nat, nat>, role: Roles, pid: nat, path: Path, g: nat, i: nat, f: nat, q: nat, vpn: nat)
    requires CanLinkGood(m, roots, role, pid, path, g, i, f) && q in roots && vpn < USER_END
    ensures Leaf(LinkTable(m.mem, g, i, f), roots[q], vpn) == Leaf(m.mem, roots[q], vpn)
  {
    LinkTrees(m, roots, role, pid, path, g, i, f, q, PagePath(vpn));
    var n := Node(m.mem, roots[q], PagePath(vpn));
    if n.Some? {
      assert role[n.value] == Table(q, PagePath(vpn));
      assert role[g] == Table(pid, path);
    }
  }

  lemma LinkGood(m: Phys, roots: map<nat, nat>, role: Roles, pid: nat, path: Path, g: nat, i: nat, f: nat)
    requires CanLinkGood(m, roots, role, pid, path, g, i, f)
    ensures var m' := Phys(m.kend, LinkTable(m.mem, g, i, f), m.rc[f := 1]);
            var role' := role[f := Table(pid, Sub(path, i))];
            Good(m', roots, role') && Extended(m, role, m', role', pid) && SameLeaves(m.mem, m'.mem, roots)
  {
    var mem', role' := LinkTable(m.mem, g, i, f), role[f := Table(pid, Sub(path, i))];
    LinkTreesOk(m, roots, role, pid, path, g, i, f);
    LinkEntriesOk(m, roots, role, pid, path, g, i, f);
    forall q, vpn: nat | q in roots && vpn < USER_END
      ensures Leaf(mem', roots[q], vpn) == Leaf(m.mem, roots[q], vpn)
    {
      LinkLeaf(m, roots, role, pid, path, g, i, f, q, vpn);
    }
    LinkCounts(m, roots, role, pid, path, g, i, f);
    hide Leaf, TreesOk, EntriesOk;
  }

  lemma LinkCounts(m: Phys, roots: map<nat, nat>, role: Roles, pid: nat, path: Path, g: nat, i: nat, f: nat)
    requires CanLinkGood(m, roots, role, pid, path, g, i, f)
    ensures var m' := Phys(m.kend, LinkTable(m.mem, g, i, f), m.rc[f := 1]);
            var role' := role[f := Table(pid, Sub(path, i))];
            CountsOk(m', role') && Extended(m, role, m', role', pid)
  {
    hide Leaf, EntriesOk, UsersOk;
    assert role[g] == Table(pid, path);
  }

  /** One round of the loop of `try_map`. */
  lemma GrowStep(m: Phys, roots: map<nat, nat>, role: Roles, pid: nat, va: nat, f: nat)
    returns (m2: Phys, role2: Roles)
    requires Good(m, roots, role) && pid in roots && Canonical(va) && Free(m, f)
    requires Walk(m.mem, roots[pid], va).lbits > PAGEOFFBITS
    ensures var w := Walk(m.mem, roots[pid], va);
            && w.pep.Slot? && w.pep.page < NPAGES && w.pep.idx < ENTRIES && IsLevel(w.lbits)
            && m2 == Phys(m.kend, LinkTable(m.mem, w.pep.page, w.pep.idx, f), m.rc[f := 1])
            && Walk(m2.mem, roots[pid], va) == Walked(Slot(f, Index(va, w.lbits - 9)), w.lbits - 9, ALL_PERM)
    ensures Good(m2, roots, role2) && Extended(m, role, m2, role2, pid) && SameLeaves(m.mem, m2.mem, roots)
  {
    var root := roots[pid];
    WalkFacts(m, roots, role, pid, va);
    WalkEnd(m.mem, root, va);
    GoodTree(m, roots, role, pid);
    var w := Walk(m.mem, root, va);
    DepthPathTo(va, w.lbits);
    assert CountOk(role[f], m.rc[f]);
    assert CanLink(m.mem, root, PathTo(va, w.lbits), w.pep.page, w.pep.idx, f);
    LinkGood(m, roots, role, pid, PathTo(va, w.lbits), w.pep.page, w.pep.idx, f);
    WalkAfterLink(m.mem, root, va, f);
    m2 := Phys(m.kend, LinkTable(m.mem, w.pep.page, w.pep.idx, f), m.rc[f := 1]);
    role2 := role[f := Table(pid, Sub(PathTo(va, w.lbits), w.pep.idx))];
  }

  ghost predicate GrowEnd(m: Phys, roots: map<nat, nat>, role: Roles, pid: nat, va: nat, g: Grown, role': Roles)
    requires pid in roots
  {
    && Good(g.m, roots, role') && Extended(m, role, g.m, role', pid) && SameLeaves(m.mem, g.m.mem, roots)
    && (g.ok ==>
          && g.w.perm == ALL_PERM && g.w.lbits == PAGEOFFBITS && g.w.pep.Slot?
          && g.w.pep.idx == Index(va, PAGEOFFBITS)
          && Node(g.m.mem, roots[pid], PathTo(va, PAGEOFFBITS)) == Some(g.w.pep.page))
  }

  /** `Grow` keeps the invariant and every leaf, whether or not it runs out of pages. */
  lemma {:induction false} GrowGood(m: Phys, roots: map<nat, nat>, role: Roles, pid: nat, va: nat)
    returns (role': Roles)
    requires Good(m, roots, role) && pid in roots && Canonical(va)
    ensures var w := Walk(m.mem, roots[pid], va);
            && IsLevel(w.lbits) && w.pep.Slot? && w.pep.page < NPAGES && w.pep.idx < ENTRIES
            && GrowEnd(m, roots, role, pid, va, Grow(m, w, va), role')
    decreases Walk(m.mem, roots[pid], va).lbits
  {
    hide Good, Leaf, Walk, Extended, SameLeaves, EntryOk, Grow, FindFree, LinkTable, PathTo, Index, Node;
    WalkFacts(m, roots, role, pid, va);
    var w := Walk(m.mem, roots[pid], va);
    role' := role;
    ExtendedRefl(m, roots, role, pid);
    GrowRound(m, w, va);
    if w.lbits > PAGEOFFBITS {
      var kp := FindFree(m, 0);
      if kp.Some? {
        var m2, role2 := GrowStep(m, roots, role, pid, va, kp.value);
        role' := GrowGood(m2, roots, role2, pid, va);
        var g := Grow(m, w, va);
        ExtendedTrans(m, role, m2, role2, g.m, role', pid);
        SameLeavesTrans(m.mem, m2.mem, g.m.mem, roots);
      }
    } else {
      WalkEnd(m.mem, roots[pid], va);
    }
  }

  lemma ExtendedRefl(m: Phys, roots: map<nat, nat>, role: Roles, pid: nat)
    ensures Extended(m, role, m, role, pid) && SameLeaves(m.mem, m.mem, roots)
  {
  }

  lemma SameLeavesTrans(a: Memory, b: Memory, c: Memory, roots: map<nat, nat>)
    requires SameLeaves(a, b, roots) && SameLeaves(b, c, roots)
    ensures SameLeaves(a, c, roots)
  {
    hide Leaf;
  }

  lemma ExtendedTrans(a: Phys, ra: Roles, b: Phys, rb: Roles, c: Phys, rc: Roles, pid: nat)
    requires Extended(a, ra, b, rb, pid) && Extended(b, rb, c, rc, pid)
    ensures Extended(a, ra, c, rc, pid)
  {
    forall p: nat | p < NPAGES && a.rc[p] == 0
      ensures (c.rc[p] == 0 && rc[p] == ra[p]) || (c.rc[p] == 1 && rc[p].Table? && rc[p].pid == pid)
    {
      if b.rc[p] == 0 {
      } else {
      }
    }
  }
}

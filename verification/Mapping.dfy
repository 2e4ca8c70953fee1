/**
 What writing a leaf entry, starting a tree and dropping a tree do to the invariant.
 */
module Mapping {
  import opened Wrappers
  import opened Paging
  import opened PhysMem
  import opened TryMapTheory
  import opened Kernel
  import opened Invariant

  /** The slot for `vpn` in the tree of `pid` is slot `vpn % ENTRIES` of page `g`. */
  ghost predicate SlotAt(m: Phys, roots: map<nat, nat>, role: Roles, pid: nat, vpn: nat, g: nat) {
    && Good(m, roots, role) && pid in roots && vpn < USER_END && g < NPAGES
    && Node(m.mem, roots[pid], PagePath(vpn)) == Some(g)
  }

  lemma LeafTrees(m: Phys, roots: map<nat, nat>, role: Roles, pid: nat, vpn: nat, g: nat, e: Word, q: nat, x: Path)
    requires SlotAt(m, roots, role, pid, vpn, g) && q in roots
    ensures Node(SetEntry(m.mem, g, vpn % ENTRIES, e), roots[q], x) == Node(m.mem, roots[q], x)
  {
    if q == pid {
      NodeAfterLeaf(m.mem, roots[pid], PagePath(vpn), g, vpn % ENTRIES, e, x);
    } else {
      assert role[g] == Table(pid, PagePath(vpn));
      NodeFrame(m.mem, SetEntry(m.mem, g, vpn % ENTRIES, e), roots[q], x);
    }
  }

  lemma LeafLeaves(m: Phys, roots: map<nat, nat>, role: Roles, pid: nat, vpn: nat, g: nat, e: Word, q: nat, v: nat)
    requires SlotAt(m, roots, role, pid, vpn, g) && q in roots && v < USER_END
    ensures Leaf(SetEntry(m.mem, g, vpn % ENTRIES, e), roots[q], v)
         == if q == pid && v == vpn then e else Leaf(m.mem, roots[q], v)
  {
    LeafTrees(m, roots, role, pid, vpn, g, e, q, PagePath(v));
    var n := Node(m.mem, roots[q], PagePath(v));
    assert role[g] == Table(pid, PagePath(vpn));
    if n.Some? {
      assert role[n.value] == Table(q, PagePath(v));
      SameVpn(v, vpn);
    }
  }

  lemma SameVpn(v: nat, vpn: nat)
    ensures v / ENTRIES == vpn / ENTRIES && v % ENTRIES == vpn % ENTRIES <==> v == vpn
  {
  }

  ghost predicate LeavesAfter(mem: Memory, mem': Memory, roots: map<nat, nat>, pid: nat, vpn: nat, e: Word) {
    forall q, v: nat :: q in roots && v < USER_END ==>
      Leaf(mem', roots[q], v) == if q == pid && v == vpn then e else Leaf(mem, roots[q], v)
  }

  lemma LeafWritten(m: Phys, roots: map<nat, nat>, role: Roles, pid: nat, vpn: nat, g: nat, e: Word)
    requires SlotAt(m, roots, role, pid, vpn, g)
    ensures var mem' := SetEntry(m.mem, g, vpn % ENTRIES, e);
            TreesOk(mem', roots, role) && LeavesAfter(m.mem, mem', roots, pid, vpn, e)
    ensures role[g] == Table(pid, PagePath(vpn))
  {
    var mem' := SetEntry(m.mem, g, vpn % ENTRIES, e);
    forall q, x | q in roots ensures Node(mem', roots[q], x) == Node(m.mem, roots[q], x) {
      LeafTrees(m, roots, role, pid, vpn, g, e, q, x);
    }
    forall q, v: nat | q in roots && v < USER_END
      ensures Leaf(mem', roots[q], v) == if q == pid && v == vpn then e else Leaf(m.mem, roots[q], v)
    {
      LeafLeaves(m, roots, role, pid, vpn, g, e, q, v);
    }
  }

  /** Mapping a kernel page or the console. */
  lemma KernelLeafGood(m: Phys, roots: map<nat, nat>, role: Roles, pid: nat, vpn: nat, g: nat, e: Word)
    requires SlotAt(m, roots, role, pid, vpn, g)
    requires !DataPage(vpn) && e.perm.p && LeafOk(role, pid, vpn, e)
    ensures Good(Phys(m.kend, SetEntry(m.mem, g, vpn % ENTRIES, e), m.rc), roots, role)
  {
    var mem' := SetEntry(m.mem, g, vpn % ENTRIES, e);
    LeafWritten(m, roots, role, pid, vpn, g, e);
    PagePathTo(vpn);
    forall p: nat, i: nat | p < NPAGES && i < ENTRIES && role[p].Table?
      ensures EntryOk(role, role[p].pid, role[p].path, i, mem'[p][i])
    {
      assert EntryOk(role, role[p].pid, role[p].path, i, m.mem[p][i]);
    }
  }

  // ---- Data pages ----

  /** The page that was mapped at `vpn` loses its role; it may have had no other user. */
  function Unmapped(m: Phys, role: Roles, root: nat, vpn: nat): Roles {
    var prev := Leaf(m.mem, root, vpn);
    if prev.perm.p && prev.frame < NPAGES then role[prev.frame := Unused] else role
  }

  function Mapped(role: Roles, pid: nat, vpn: nat, f: nat, w: bool): Roles
    requires f < NPAGES
  {
    role[f := Data(w, if role[f].Data? then role[f].users[pid := vpn] else map[pid := vpn])]
  }

  /** No one else uses the page now at `vpn`. */
  ghost predicate Private(m: Phys, root: nat, vpn: nat) {
    var prev := Leaf(m.mem, root, vpn);
    prev.perm.p ==> prev.frame < NPAGES && m.rc[prev.frame] == 1
  }

  /** Page `f` may take the new mapping: fresh, or already shared read-only. */
  ghost predicate Joinable(m: Phys, role: Roles, pid: nat, f: nat, w: bool, count: nat) {
    && f < NPAGES && Allocatable(m.kend, f)
    && (|| (role[f] == Unused && m.rc[f] == 1 && count == 1)
        || (role[f].Data? && !role[f].w && !w && pid !in role[f].users && count == m.rc[f] as int + 1))
  }

  lemma SoleUser(users: map<nat, nat>, pid: nat, q: nat)
    requires |users| == 1 && pid in users && q in users
    ensures q == pid
  {
    var ks := users.Keys;
    assert |ks| == 1;
    assert |ks - {pid}| == 0;
    assert q in ks;
    assert q != pid ==> q in ks - {pid};
  }

  lemma OldPage(m: Phys, roots: map<nat, nat>, role: Roles, pid: nat, vpn: nat, g: nat)
    requires SlotAt(m, roots, role, pid, vpn, g) && DataPage(vpn)
    ensures var prev := Leaf(m.mem, roots[pid], vpn);
            prev.perm.p ==> LeafOk(role, pid, vpn, prev)
  {
    PagePathTo(vpn);
    assert role[g] == Table(pid, PagePath(vpn));
    assert EntryOk(role, pid, PagePath(vpn), vpn % ENTRIES, m.mem[g][vpn % ENTRIES]);
  }

  /** An entry other than the one written satisfies its condition under the new roles. */
  lemma OtherEntry(m: Phys, roots: map<nat, nat>, role: Roles, pid: nat, vpn: nat, g: nat, f: nat, w: bool, count: nat,
                   q: nat, path: Path, i: nat, e: Word)
    requires SlotAt(m, roots, role, pid, vpn, g) && DataPage(vpn) && Private(m, roots[pid], vpn)
    requires Joinable(m, role, pid, f, w, count)
    requires EntryOk(role, q, path, i, e) && i < ENTRIES
    requires !(q == pid && path == PagePath(vpn) && i == vpn % ENTRIES)
    ensures EntryOk(Mapped(Unmapped(m, role, roots[pid], vpn), pid, vpn, f, w), q, path, i, e)
  {
    OldPage(m, roots, role, pid, vpn, g);
    if e.perm.p && Depth(path) >= 3 {
      var v := path.i * ENTRIES + i;
      var prev := Leaf(m.mem, roots[pid], vpn);
      assert v / ENTRIES == path.i && v % ENTRIES == i;
      if DataPage(v) && prev.perm.p && e.frame == prev.frame {
        assert CountOk(role[prev.frame], m.rc[prev.frame]);
        SoleUser(role[prev.frame].users, pid, q);
      }
    }
  }

  lemma DataLeafCounts(m: Phys, roots: map<nat, nat>, role: Roles, pid: nat, vpn: nat, g: nat, f: nat, w: bool, count: Count)
    requires SlotAt(m, roots, role, pid, vpn, g) && DataPage(vpn) && Private(m, roots[pid], vpn)
    requires Joinable(m, role, pid, f, w, count)
    ensures CountsOk(Phys(m.kend, m.mem, m.rc[f := count]), Mapped(Unmapped(m, role, roots[pid], vpn), pid, vpn, f, w))
    ensures var prev := Leaf(m.mem, roots[pid], vpn); prev.perm.p ==> prev.frame != f
  {
    OldPage(m, roots, role, pid, vpn, g);
    var role' := Mapped(Unmapped(m, role, roots[pid], vpn), pid, vpn, f, w);
    forall p: nat | p < NPAGES
      ensures CountOk(role'[p], m.rc[f := count][p]) && (role'[p] != Unused ==> Allocatable(m.kend, p))
    {
      assert CountOk(role[p], m.rc[p]);
    }
  }

  lemma DataLeafEntries(m: Phys, roots: map<nat, nat>, role: Roles, pid: nat, vpn: nat, g: nat, f: nat, w: bool, count: Count)
    requires SlotAt(m, roots, role, pid, vpn, g) && DataPage(vpn) && Private(m, roots[pid], vpn)
    requires Joinable(m, role, pid, f, w, count)
    ensures EntriesOk(SetEntry(m.mem, g, vpn % ENTRIES, EntryWord(f, Perm(true, w, true))),
                      Mapped(Unmapped(m, role, roots[pid], vpn), pid, vpn, f, w))
  {
    var e := EntryWord(f, Perm(true, w, true));
    var mem' := SetEntry(m.mem, g, vpn % ENTRIES, e);
    var role' := Mapped(Unmapped(m, role, roots[pid], vpn), pid, vpn, f, w);
    assert role[g] == Table(pid, PagePath(vpn));
    OldPage(m, roots, role, pid, vpn, g);
    PagePathTo(vpn);
    forall p: nat, i: nat | p < NPAGES && i < ENTRIES && role'[p].Table?
      ensures EntryOk(role', role'[p].pid, role'[p].path, i, mem'[p][i])
    {
      assert role'[p] == role[p];
      assert EntryOk(role, role[p].pid, role[p].path, i, m.mem[p][i]);
      if p == g && i == vpn % ENTRIES {
        assert mem'[p][i] == e;
      } else {
        assert mem'[p][i] == m.mem[p][i];
        OtherEntry(m, roots, role, pid, vpn, g, f, w, count, role[p].pid, role[p].path, i, m.mem[p][i]);
      }
    }
  }

  lemma UserMapped(m: Phys, roots: map<nat, nat>, role: Roles, p: nat, q: nat)
    requires Good(m, roots, role) && p < NPAGES && role[p].Data? && q in role[p].users
    ensures q in roots && MapsTo(m.mem, roots[q], role[p].users[q], p)
  {
    hide Leaf;
  }

  lemma DataLeafUsers(m: Phys, roots: map<nat, nat>, role: Roles, pid: nat, vpn: nat, g: nat, f: nat, w: bool, count: Count)
    requires SlotAt(m, roots, role, pid, vpn, g) && DataPage(vpn) && Private(m, roots[pid], vpn)
    requires Joinable(m, role, pid, f, w, count)
    ensures UsersOk(SetEntry(m.mem, g, vpn % ENTRIES, EntryWord(f, Perm(true, w, true))), roots,
                    Mapped(Unmapped(m, role, roots[pid], vpn), pid, vpn, f, w))
  {
    hide Good, Leaf;
    var e := EntryWord(f, Perm(true, w, true));
    var mem' := SetEntry(m.mem, g, vpn % ENTRIES, e);
    var role' := Mapped(Unmapped(m, role, roots[pid], vpn), pid, vpn, f, w);
    LeafWritten(m, roots, role, pid, vpn, g, e);
    forall p: nat, q | p < NPAGES && role'[p].Data? && q in role'[p].users
      ensures q in roots && MapsTo(mem', roots[q], role'[p].users[q], p)
    {
      if p == f && q == pid {
        assert role'[p].users[q] == vpn;
        assert Leaf(mem', roots[q], vpn) == e;
      } else {
        assert role[p].Data? && q in role[p].users && role'[p].users[q] == role[p].users[q];
        UserMapped(m, roots, role, p, q);
      }
    }
  }

  /** Mapping page `f` at `vpn`, its count brought to `count`. */
  lemma DataLeafGood(m: Phys, roots: map<nat, nat>, role: Roles, pid: nat, vpn: nat, g: nat, f: nat, w: bool, count: Count)
    requires SlotAt(m, roots, role, pid, vpn, g) && DataPage(vpn) && Private(m, roots[pid], vpn)
    requires Joinable(m, role, pid, f, w, count)
    ensures var e := EntryWord(f, Perm(true, w, true));
            Good(Phys(m.kend, SetEntry(m.mem, g, vpn % ENTRIES, e), m.rc[f := count]), roots,
                 Mapped(Unmapped(m, role, roots[pid], vpn), pid, vpn, f, w))
  {
    LeafWritten(m, roots, role, pid, vpn, g, EntryWord(f, Perm(true, w, true)));
    OldPage(m, roots, role, pid, vpn, g);
    DataLeafCounts(m, roots, role, pid, vpn, g, f, w, count);
    DataLeafEntries(m, roots, role, pid, vpn, g, f, w, count);
    DataLeafUsers(m, roots, role, pid, vpn, g, f, w, count);
    SameTables(SetEntry(m.mem, g, vpn % ENTRIES, EntryWord(f, Perm(true, w, true))), roots, role,
               Mapped(Unmapped(m, role, roots[pid], vpn), pid, vpn, f, w));
  }

  lemma SameTables(mem: Memory, roots: map<nat, nat>, role: Roles, role': Roles)
    requires TreesOk(mem, roots, role)
    requires forall p: nat :: p < NPAGES && (role[p].Table? || role'[p].Table?) ==> role'[p] == role[p]
    ensures TreesOk(mem, roots, role')
  {
  }

  /** A shared page loses one of its users. */
  function Unshared(role: Roles, pid: nat, p: nat): Roles
    requires p < NPAGES && role[p].Data?
  {
    role[p := Data(role[p].w, role[p].users - {pid})]
  }

  lemma FewerByOne(users: map<nat, nat>, pid: nat)
    requires pid in users
    ensures |users - {pid}| == |users| - 1
  {
    assert (users - {pid}).Keys == users.Keys - {pid};
    assert |users.Keys - {pid}| == |users.Keys| - 1;
  }

  lemma UnsharedEntries(m: Phys, roots: map<nat, nat>, role: Roles, pid: nat, vpn: nat, g: nat)
    requires SlotAt(m, roots, role, pid, vpn, g) && DataPage(vpn) && Leaf(m.mem, roots[pid], vpn).perm.p
    ensures var p := Leaf(m.mem, roots[pid], vpn).frame;
            && p < NPAGES && role[p].Data?
            && EntriesOk(SetEntry(m.mem, g, vpn % ENTRIES, ZERO), Unshared(role, pid, p))
  {
    hide Good, Leaf, Node;
    OldPage(m, roots, role, pid, vpn, g);
    PagePathTo(vpn);
    var p := Leaf(m.mem, roots[pid], vpn).frame;
    var mem', role' := SetEntry(m.mem, g, vpn % ENTRIES, ZERO), Unshared(role, pid, p);
    SlotRole(m, roots, role, pid, vpn, g);
    forall q: nat, i: nat | q < NPAGES && i < ENTRIES && role'[q].Table?
      ensures EntryOk(role', role'[q].pid, role'[q].path, i, mem'[q][i])
    {
      TableEntry(m, roots, role, q, i);
      if q == g && i == vpn % ENTRIES {
      } else {
        UnsharedEntry(m, roots, role, pid, vpn, g, q, i);
      }
    }
  }

  lemma SlotRole(m: Phys, roots: map<nat, nat>, role: Roles, pid: nat, vpn: nat, g: nat)
    requires SlotAt(m, roots, role, pid, vpn, g)
    ensures role[g] == Table(pid, PagePath(vpn))
  {
  }

  lemma TableEntry(m: Phys, roots: map<nat, nat>, role: Roles, q: nat, i: nat)
    requires Good(m, roots, role) && q < NPAGES && i < ENTRIES && role[q].Table?
    ensures EntryOk(role, role[q].pid, role[q].path, i, m.mem[q][i])
    ensures role[q].pid in roots && Node(m.mem, roots[role[q].pid], role[q].path) == Some(q)
  {
  }

  /** An entry other than the one taken away stays right under the new roles. */
  lemma UnsharedEntry(m: Phys, roots: map<nat, nat>, role: Roles, pid: nat, vpn: nat, g: nat, q: nat, i: nat)
    requires SlotAt(m, roots, role, pid, vpn, g) && DataPage(vpn) && Leaf(m.mem, roots[pid], vpn).perm.p
    requires Leaf(m.mem, roots[pid], vpn).frame < NPAGES && role[Leaf(m.mem, roots[pid], vpn).frame].Data?
    requires role[Leaf(m.mem, roots[pid], vpn).frame].users.Keys >= {pid}
    requires role[Leaf(m.mem, roots[pid], vpn).frame].users[pid] == vpn
    requires q < NPAGES && i < ENTRIES && role[q].Table? && !(q == g && i == vpn % ENTRIES)
    ensures EntryOk(Unshared(role, pid, Leaf(m.mem, roots[pid], vpn).frame), role[q].pid, role[q].path, i, m.mem[q][i])
  {
    hide Good, Leaf, Node;
    TableEntry(m, roots, role, q, i);
    SlotRole(m, roots, role, pid, vpn, g);
    var e, path := m.mem[q][i], role[q].path;
    if role[q].pid == pid && e.perm.p && Depth(path) >= 3 {
      var v := path.i * ENTRIES + i;
      assert v / ENTRIES == path.i && v % ENTRIES == i;
      assert v == vpn ==> path == PagePath(vpn);
    }
  }

  /** Taking a mapping of a shared page away, and its count with it. */
  lemma UnsharedGood(m: Phys, roots: map<nat, nat>, role: Roles, pid: nat, vpn: nat, g: nat)
    requires SlotAt(m, roots, role, pid, vpn, g) && DataPage(vpn) && Leaf(m.mem, roots[pid], vpn).perm.p
    requires Leaf(m.mem, roots[pid], vpn).frame < NPAGES && m.rc[Leaf(m.mem, roots[pid], vpn).frame] >= 2
    ensures var p := Leaf(m.mem, roots[pid], vpn).frame;
            && role[p].Data?
            && Good(Phys(m.kend, SetEntry(m.mem, g, vpn % ENTRIES, ZERO), m.rc[p := m.rc[p] - 1]), roots, Unshared(role, pid, p))
  {
    OldPage(m, roots, role, pid, vpn, g);
    LeafWritten(m, roots, role, pid, vpn, g, ZERO);
    UnsharedEntries(m, roots, role, pid, vpn, g);
    var p := Leaf(m.mem, roots[pid], vpn).frame;
    var mem', role' := SetEntry(m.mem, g, vpn % ENTRIES, ZERO), Unshared(role, pid, p);
    SameTables(mem', roots, role, role');
    UnsharedUsers(m, roots, role, pid, vpn, g, p);
    FewerByOne(role[p].users, pid);
    hide Leaf, Node, LeafOk;
    forall q: nat | q < NPAGES
      ensures CountOk(role'[q], m.rc[p := m.rc[p] - 1][q]) && (role'[q] != Unused ==> Allocatable(m.kend, q))
    {
      assert CountOk(role[q], m.rc[q]);
    }
  }

  lemma UnsharedUsers(m: Phys, roots: map<nat, nat>, role: Roles, pid: nat, vpn: nat, g: nat, p: nat)
    requires SlotAt(m, roots, role, pid, vpn, g) && p < NPAGES && role[p].Data? && pid in role[p].users
    requires role[p].users[pid] == vpn
    requires LeavesAfter(m.mem, SetEntry(m.mem, g, vpn % ENTRIES, ZERO), roots, pid, vpn, ZERO)
    requires Leaf(m.mem, roots[pid], vpn).frame == p
    ensures UsersOk(SetEntry(m.mem, g, vpn % ENTRIES, ZERO), roots, Unshared(role, pid, p))
  {
    hide Leaf, Good;
    var mem', role' := SetEntry(m.mem, g, vpn % ENTRIES, ZERO), Unshared(role, pid, p);
    forall q: nat, x | q < NPAGES && role'[q].Data? && x in role'[q].users
      ensures x in roots && MapsTo(mem', roots[x], role'[q].users[x], q)
    {
      assert role[q].Data? && x in role[q].users && role'[q].users[x] == role[q].users[x];
      UserMapped(m, roots, role, q, x);
    }
  }

  // ---- Whole trees ----

  /** A zeroed fresh page becomes the root of a new, empty tree. */
  lemma AddRootGood(m: Phys, roots: map<nat, nat>, role: Roles, pid: nat, f: nat)
    requires Good(m, roots, role) && pid !in roots && pid < PID_MAX && Free(m, f)
    ensures Good(Phys(m.kend, m.mem[f := ZeroPage()], m.rc[f := 1]), roots[pid := f], role[f := Table(pid, Root)])
    ensures forall q, v: nat :: q in roots && v < USER_END ==>
              Leaf(m.mem[f := ZeroPage()], roots[q], v) == Leaf(m.mem, roots[q], v)
    ensures role[f] == Unused
  {
    var mem', roots', role' := m.mem[f := ZeroPage()], roots[pid := f], role[f := Table(pid, Root)];
    assert CountOk(role[f], m.rc[f]);
    forall q, x | q in roots ensures Node(mem', roots[q], x) == Node(m.mem, roots[q], x) {
      NodeFrame(m.mem, mem', roots[q], x);
    }
    forall x ensures Node(mem', f, x) == if x == Root then Some(f) else None {
      EmptyTree(mem', f, x);
    }
    forall p: nat, i: nat | p < NPAGES && i < ENTRIES && role'[p].Table?
      ensures EntryOk(role', role'[p].pid, role'[p].path, i, mem'[p][i])
    {
      if p != f { assert EntryOk(role, role[p].pid, role[p].path, i, m.mem[p][i]); }
    }
    forall q, v: nat | q in roots && v < USER_END ensures Leaf(mem', roots[q], v) == Leaf(m.mem, roots[q], v) {
      var n := Node(m.mem, roots[q], PagePath(v));
      assert n.Some? ==> role[n.value] == Table(q, PagePath(v));
    }
  }

  lemma {:induction false} EmptyTree(mem: Memory, f: nat, x: Path)
    requires f < NPAGES && mem[f] == ZeroPage()
    ensures Node(mem, f, x) == if x == Root then Some(f) else None
  {
    if x.Sub? { EmptyTree(mem, f, x.up); }
  }

  function Dropped(r: Role, pid: nat): Role {
    if r.Table? && r.pid == pid then Unused
    else if r.Data? && pid in r.users then
      if r.users.Keys == {pid} then Unused else Data(r.w, r.users - {pid})
    else r
  }

  /** The roles that are left when `pid` lets go of everything. */
  function DropRoles(role: Roles, pid: nat): (r: Roles)
    ensures forall p: nat :: p < NPAGES ==> r[p] == Dropped(role[p], pid)
  {
    seq(NPAGES, p requires 0 <= p < NPAGES => Dropped(role[p], pid))
  }

  /** Each page that `pid` uses is counted once less, every other page as before. */
  ghost predicate Released(rc: Counts, rc': Counts, role: Roles, pid: nat) {
    forall p: nat :: p < NPAGES ==> rc'[p] as int == rc[p] as int - (if Uses(role[p], pid) then 1 else 0)
  }

  lemma DropCounts(m: Phys, roots: map<nat, nat>, role: Roles, pid: nat, rc': Counts)
    requires Good(m, roots, role) && Released(m.rc, rc', role, pid)
    ensures CountsOk(Phys(m.kend, m.mem, rc'), DropRoles(role, pid))
  {
    var role' := DropRoles(role, pid);
    forall p: nat | p < NPAGES
      ensures CountOk(role'[p], rc'[p]) && (role'[p] != Unused ==> Allocatable(m.kend, p))
    {
      assert CountOk(role[p], m.rc[p]);
      if role[p].Data? && pid in role[p].users {
        var users := role[p].users;
        assert |users.Keys| == |users|;
        assert users.Keys - {pid} == (users - {pid}).Keys;
        assert |users.Keys - {pid}| == |users.Keys| - 1;
        assert |users.Keys| == 1 ==> users.Keys - {pid} == {};
        if users.Keys == {pid} { assert |users.Keys| == 1; }
        if role[p].w { SoleKey(users, pid); }
      }
    }
  }

  lemma SoleKey(users: map<nat, nat>, pid: nat)
    requires |users| == 1 && pid in users
    ensures users.Keys == {pid}
  {
    forall q | q in users.Keys ensures q == pid { SoleUser(users, pid, q); }
  }

  /** Dropping a tree and its counts keeps the invariant. */
  lemma DropRootGood(m: Phys, roots: map<nat, nat>, role: Roles, pid: nat, rc': Counts)
    requires Good(m, roots, role) && pid in roots && Released(m.rc, rc', role, pid)
    ensures Good(Phys(m.kend, m.mem, rc'), roots - {pid}, DropRoles(role, pid))
  {
    DropCounts(m, roots, role, pid, rc');
    DropTrees(m, roots, role, pid);
    DropEntries(m, roots, role, pid);
    DropUsers(m, roots, role, pid);
  }

  lemma DropTrees(m: Phys, roots: map<nat, nat>, role: Roles, pid: nat)
    requires Good(m, roots, role) && pid in roots
    ensures TreesOk(m.mem, roots - {pid}, DropRoles(role, pid))
  {
    hide Node;
  }

  lemma DropEntries(m: Phys, roots: map<nat, nat>, role: Roles, pid: nat)
    requires Good(m, roots, role) && pid in roots
    ensures EntriesOk(m.mem, DropRoles(role, pid))
  {
    var role' := DropRoles(role, pid);
    forall p: nat, i: nat | p < NPAGES && i < ENTRIES && role'[p].Table?
      ensures EntryOk(role', role'[p].pid, role'[p].path, i, m.mem[p][i])
    {
      assert EntryOk(role, role[p].pid, role[p].path, i, m.mem[p][i]);
    }
  }

  lemma DropUsers(m: Phys, roots: map<nat, nat>, role: Roles, pid: nat)
    requires Good(m, roots, role) && pid in roots
    ensures UsersOk(m.mem, roots - {pid}, DropRoles(role, pid))
  {
    hide Leaf;
    var role' := DropRoles(role, pid);
    forall p: nat, q | p < NPAGES && role'[p].Data? && q in role'[p].users
      ensures q in roots - {pid} && MapsTo(m.mem, (roots - {pid})[q], role'[p].users[q], p)
    {
      assert role[p].Data? && q in role[p].users;
    }
  }
}

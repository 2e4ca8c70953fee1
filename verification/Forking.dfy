/**
 `syscall_fork` as a whole (weensyos/kernel.cc:436-514), and the counts that `free_pagetable`
 gives back (weensyos/kernel.cc:538-554).
 */
module Forking {
  import opened Wrappers
  import opened Paging
  import opened PhysMem
  import opened PostOrder
  import opened Kernel
  import opened Invariant
  import opened Mapping
  import opened Copying

  // ---- How far a count can go ----

  lemma {:induction false} PidSet(s: set<nat>, n: nat)
    requires forall pid :: pid in s ==> pid < n
    ensures |s| <= n
  {
    if n > 0 {
      PidSet(s - {n - 1}, n - 1);
      assert s <= s - {n - 1} + {n - 1};
      assert |s| <= |s - {n - 1}| + 1;
    } else {
      assert s == {};
    }
  }

  lemma SubsetCard<T>(a: set<T>, b: set<T>)
    requires a <= b
    ensures |a| <= |b|
  {
    assert |b - a| == |b| - |a| by { assert b == a + (b - a); }
  }

  lemma UserBound(m: Phys, roots: map<nat, nat>, role: Roles, p: nat, absent: nat)
    requires Good(m, roots, role) && p < NPAGES && role[p].Data? && absent < PID_MAX && absent !in role[p].users
    ensures m.rc[p] < PID_MAX
  {
    assert CountOk(role[p], m.rc[p]);
    var s := role[p].users.Keys + {absent};
    forall pid | pid in s ensures pid < PID_MAX {
      if pid != absent {
        assert pid in role[p].users;
        assert pid in roots;
      }
    }
    PidSet(s, PID_MAX);
    assert |s| == |role[p].users.Keys| + 1;
  }

  // ---- The page that a failed fork loses ----

  /** A page taken by `kalloc` for a copy whose `try_map` then failed. */
  function PageLeak(m: Phys, cur: nat, pt: nat, vpn: nat): Option<nat> {
    var p := ItPerm(m.mem, cur, vpn);
    if IsUserPage(p, vpn) && p.w && !CopyPage(m, cur, pt, vpn).Ok? then FindFree(m, 0) else None
  }

  function UserLeak(m: Phys, cur: nat, pt: nat, vpn: nat): Option<nat>
    decreases USER_END - vpn
  {
    if vpn >= USER_END then None
    else
      var r := CopyUserPage(m, cur, pt, vpn);
      if r.Ok? then UserLeak(r.m, cur, pt, vpn + 1) else PageLeak(m, cur, pt, vpn)
  }

  function CopyLeak(m: Phys, cur: nat, pt: nat): Option<nat> {
    var r1 := CopyKernel(m, cur, pt, KERNEL_FIRST);
    if !r1.Ok? then None
    else
      var r2 := MapConsole(r1.m, pt);
      if !r2.Ok? then None else UserLeak(r2.m, cur, pt, 0)
  }

  // ---- Copying process memory ----

  ghost predicate UserInv(m0: Phys, m: Phys, roots: map<nat, nat>, cur: nat, child: nat, vpn: nat)
    requires cur in roots && child in roots
  {
    && CopiedTo(m0, m, roots[cur], roots[child], vpn)
    && NoData(m.mem, roots[child], vpn)
    && KernelMatches(m0.mem, m.mem, roots[cur], roots[child], KERNEL_TOP)
    && Leaf(m.mem, roots[child], CONSOLE_PAGE) == EntryWord(CONSOLE_PAGE, ALL_PERM)
  }

  /** The page the parent shares at `vpn` is not mapped by the child before that page is reached. */
  lemma NotYetShared(m0: Phys, m: Phys, roots: map<nat, nat>, role: Roles, cur: nat, child: nat, to: nat, vpn: nat)
    requires ForkInv(m0, m, roots, role, child, None) && cur in roots && cur != child && DataPage(vpn)
    requires UserInv(m0, m, roots, cur, child, to) && to <= vpn
    requires Leaf(m.mem, roots[cur], vpn).perm == READ_ONLY
    ensures var e := Leaf(m.mem, roots[cur], vpn);
            && e == Leaf(m0.mem, roots[cur], vpn)
            && LeafOk(role, cur, vpn, e) && child !in role[e.frame].users
            && m0.rc[e.frame] != 0 && m.rc[e.frame] == m0.rc[e.frame] && m.mem[e.frame] == m0.mem[e.frame]
            && Allocatable(m.kend, e.frame) && child in roots && !Leaf(m.mem, roots[child], vpn).perm.p
  {
    ItLeaf(m, roots, role, cur, vpn);
    var e := Leaf(m.mem, roots[cur], vpn);
    var f := e.frame;
    assert CountOk(role[f], m.rc[f]);
    if child in role[f].users {
      var v := role[f].users[child];
      assert MapsTo(m.mem, roots[child], v, f);
      assert v < to;
      assert Copied(m0, m, roots[cur], roots[child], v);
      assert Leaf(m.mem, roots[cur], v) == Leaf(m0.mem, roots[cur], v);
      ItLeaf(m, roots, role, cur, v);
      TwoUsers(role[f].users, cur, child);
    }
  }

  lemma TwoUsers(users: map<nat, nat>, a: nat, b: nat)
    requires a in users && b in users && a != b
    ensures |users| >= 2
  {
    assert {a, b} <= users.Keys;
    assert |users.Keys - {a, b}| == |users.Keys| - 2;
  }

  lemma SharedLeaf(m0: Phys, m: Phys, roots: map<nat, nat>, role: Roles, child: nat, vpn: nat, g: nat, f: nat)
    requires ForkInv(m0, m, roots, role, child, None) && SlotAt(m, roots, role, child, vpn, g) && DataPage(vpn)
    requires f < NPAGES && Allocatable(m.kend, f) && role[f].Data? && !role[f].w && child !in role[f].users
    requires m.rc[f] < PID_MAX && m0.rc[f] != 0 && !Leaf(m.mem, roots[child], vpn).perm.p
    ensures ForkInv(m0, Phys(m.kend, SetEntry(m.mem, g, vpn % ENTRIES, EntryWord(f, READ_ONLY)), m.rc[f := m.rc[f] + 1]),
                    roots, Mapped(role, child, vpn, f, false), child, None)
    ensures LeavesAfter(m.mem, SetEntry(m.mem, g, vpn % ENTRIES, EntryWord(f, READ_ONLY)), roots, child, vpn, EntryWord(f, READ_ONLY))
    ensures role[g] == Table(child, PagePath(vpn))
  {
    hide Good, Leaf, Node;
    DataLeafGood(m, roots, role, child, vpn, g, f, false, m.rc[f] + 1);
    LeafWritten(m, roots, role, child, vpn, g, EntryWord(f, READ_ONLY));
  }

  lemma SharedBound(m0: Phys, m: Phys, roots: map<nat, nat>, role: Roles, child: nat, f: nat)
    requires ForkInv(m0, m, roots, role, child, None)
    requires f < NPAGES && role[f].Data? && child !in role[f].users
    ensures Good(m, roots, role) && child in roots && 0 < m.rc[f] < PID_MAX
  {
    assert CountOk(role[f], m.rc[f]);
    UserBound(m, roots, role, f, child);
  }

  /** Mapping an already shared page once more, its count raised with it. */
  lemma MapShared(m0: Phys, m: Phys, roots: map<nat, nat>, role: Roles, child: nat, vpn: nat, f: nat)
    returns (role': Roles)
    requires ForkInv(m0, m, roots, role, child, None) && DataPage(vpn)
    requires f < NPAGES && Allocatable(m.kend, f) && role[f].Data? && !role[f].w && child !in role[f].users
    requires m0.rc[f] != 0 && !Leaf(m.mem, roots[child], vpn).perm.p
    ensures var r := MapPage(m, roots[child], vpn, f, READ_ONLY);
            && !r.Panic?
            && (r.NoMemory? ==> ForkInv(m0, r.m, roots, role', child, None))
            && (r.Ok? ==>
                  && r.m.rc[f] < PID_MAX
                  && ForkInv(m0, Phys(r.m.kend, r.m.mem, r.m.rc[f := r.m.rc[f] + 1]), roots, role', child, None)
                  && LeavesAfter(m.mem, r.m.mem, roots, child, vpn, EntryWord(f, READ_ONLY))
                  && (forall p: nat :: p < NPAGES && m.rc[p] != 0 && role[p].Data? ==> r.m.mem[p] == m.mem[p]))
  {
    hide Good, ForkInv, Leaf, MapPage, Mapped;
    SharedBound(m0, m, roots, role, child, f);
    var m1, role1, g := MapUpTo(m, roots, role, child, vpn, f, READ_ONLY);
    ForkInvExtended(m0, m, roots, role, child, None, m1, role1);
    role' := role1;
    if MapPage(m, roots[child], vpn, f, READ_ONLY).Ok? {
      assert Leaf(m1.mem, roots[child], vpn) == Leaf(m.mem, roots[child], vpn);
      SharedLeaf(m0, m1, roots, role1, child, vpn, g, f);
      role' := Mapped(role1, child, vpn, f, false);
    }
  }

  /** The count goes up on the page that was mapped. */
  lemma SharePageResult(m0: Phys, m: Phys, roots: map<nat, nat>, role: Roles, cur: nat, child: nat, vpn: nat, role': Roles)
    requires ForkInv(m0, m, roots, role, child, None) && cur in roots && cur != child && DataPage(vpn)
    requires Leaf(m.mem, roots[cur], vpn).perm == READ_ONLY && Leaf(m.mem, roots[cur], vpn).frame < NPAGES && child in roots
    requires var f := Leaf(m.mem, roots[cur], vpn).frame;
             var r := MapPage(m, roots[child], vpn, f, READ_ONLY);
             && !r.Panic?
             && (r.Ok? ==>
                   && r.m.rc[f] < PID_MAX
                   && ForkInv(m0, Phys(r.m.kend, r.m.mem, r.m.rc[f := r.m.rc[f] + 1]), roots, role', child, None))
    ensures var f := Leaf(m.mem, roots[cur], vpn).frame;
            var r := MapPage(m, roots[child], vpn, f, READ_ONLY);
            SharePage(m, roots[cur], roots[child], vpn)
            == if r.Ok? then Ok(Phys(r.m.kend, r.m.mem, r.m.rc[f := r.m.rc[f] + 1])) else r
  {
    hide ForkInv, MapPage, ItPerm, ItFrame, Leaf;
    var f := Leaf(m.mem, roots[cur], vpn).frame;
    var r := MapPage(m, roots[child], vpn, f, READ_ONLY);
    ItLeafFork(m0, m, roots, role, cur, child, vpn);
    if r.Ok? {
      ItLeafFork(m0, Phys(r.m.kend, r.m.mem, r.m.rc[f := r.m.rc[f] + 1]), roots, role', cur, child, vpn);
    }
  }

  lemma SharePageGood(m0: Phys, m: Phys, roots: map<nat, nat>, role: Roles, cur: nat, child: nat, vpn: nat)
    returns (role': Roles)
    requires ForkInv(m0, m, roots, role, child, None) && cur in roots && cur != child && DataPage(vpn)
    requires UserInv(m0, m, roots, cur, child, vpn)
    requires Leaf(m.mem, roots[cur], vpn).perm == READ_ONLY
    ensures PageStep(m0, m, SharePage(m, roots[cur], roots[child], vpn), roots, role', cur, child, vpn, None)
    ensures var r := SharePage(m, roots[cur], roots[child], vpn);
            r.Ok? ==> forall p: nat :: p < NPAGES && m.rc[p] != 0 && role[p].Data? ==> r.m.mem[p] == m.mem[p]
  {
    hide Good, ForkInv, Leaf, MapPage, ItPerm, ItFrame, UserInv, SharePage;
    NotYetShared(m0, m, roots, role, cur, child, vpn, vpn);
    var f := Leaf(m.mem, roots[cur], vpn).frame;
    role' := MapShared(m0, m, roots, role, child, vpn, f);
    SharePageResult(m0, m, roots, role, cur, child, vpn, role');
    var r := SharePage(m, roots[cur], roots[child], vpn);
    if r.Ok? {
      assert Leaf(r.m.mem, roots[child], vpn) == EntryWord(f, READ_ONLY);
    }
  }

  /** What the iterator sees of the parent at `vpn` while the child is being built. */
  lemma ParentPage(m0: Phys, m: Phys, roots: map<nat, nat>, role: Roles, cur: nat, child: nat, vpn: nat)
    requires ForkInv(m0, m, roots, role, child, None) && cur in roots && cur != child && vpn < USER_END
    ensures var e := Leaf(m.mem, roots[cur], vpn);
            && e == Leaf(m0.mem, roots[cur], vpn)
            && (IsUserPage(ItPerm(m.mem, roots[cur], vpn), vpn) <==> e.perm.p && DataPage(vpn))
            && (e.perm.p ==> ItPerm(m.mem, roots[cur], vpn) == e.perm)
            && (e.perm.p && DataPage(vpn) ==> e.perm == ALL_PERM || e.perm == READ_ONLY)
  {
    ItLeaf(m, roots, role, cur, vpn);
  }

  lemma UserSkip(m0: Phys, m: Phys, roots: map<nat, nat>, role: Roles, cur: nat, child: nat, vpn: nat)
    requires ForkInv(m0, m, roots, role, child, None) && cur in roots && cur != child && vpn < USER_END
    requires UserInv(m0, m, roots, cur, child, vpn)
    requires !(Leaf(m.mem, roots[cur], vpn).perm.p && DataPage(vpn))
    ensures UserInv(m0, m, roots, cur, child, vpn + 1)
  {
    if DataPage(vpn) {
      ItLeaf(m, roots, role, child, vpn);
      assert Copied(m0, m, roots[cur], roots[child], vpn);
    }
  }

  lemma UserCopied(m0: Phys, m: Phys, roots: map<nat, nat>, role: Roles, cur: nat, child: nat, vpn: nat, r: Result)
    requires Good(m, roots, role) && cur in roots && child in roots && DataPage(vpn)
    requires UserInv(m0, m, roots, cur, child, vpn) && r.Ok? && Copied(m0, r.m, roots[cur], roots[child], vpn)
    requires forall v: nat :: v < USER_END && v != vpn ==> Leaf(r.m.mem, roots[child], v) == Leaf(m.mem, roots[child], v)
    requires forall p: nat :: p < NPAGES && m.rc[p] != 0 && role[p].Data? ==> r.m.mem[p] == m.mem[p]
    ensures UserInv(m0, r.m, roots, cur, child, vpn + 1)
  {
    hide Good, Leaf, Copied;
    CopiedKept(m0, m, roots, role, roots[cur], child, vpn, r.m);
  }

  lemma CopyUserStep(m0: Phys, m: Phys, roots: map<nat, nat>, role: Roles, cur: nat, child: nat, vpn: nat)
    returns (role': Roles, leak: Option<nat>)
    requires ForkInv(m0, m, roots, role, child, None) && cur in roots && cur != child && vpn < USER_END
    requires UserInv(m0, m, roots, cur, child, vpn)
    ensures var r := CopyUserPage(m, roots[cur], roots[child], vpn);
            && !r.Panic? && ForkInv(m0, r.m, roots, role', child, leak)
            && (r.Ok? ==> leak == None && UserInv(m0, r.m, roots, cur, child, vpn + 1))
    ensures leak.Some? ==> leak.value < NPAGES && m0.rc[leak.value] == 0
    ensures leak == if CopyUserPage(m, roots[cur], roots[child], vpn).Ok? then None else PageLeak(m, roots[cur], roots[child], vpn)
  {
    ParentPage(m0, m, roots, role, cur, child, vpn);
    var e := Leaf(m.mem, roots[cur], vpn);
    role', leak := role, None;
    if !(e.perm.p && DataPage(vpn)) {
      UserSkip(m0, m, roots, role, cur, child, vpn);
    } else if e.perm.w {
      role', leak := CopyPageGood(m0, m, roots, role, cur, child, vpn);
      var r := CopyPage(m, roots[cur], roots[child], vpn);
      if r.Ok? { UserCopied(m0, m, roots, role, cur, child, vpn, r); }
    } else {
      role' := SharePageGood(m0, m, roots, role, cur, child, vpn);
      var r := SharePage(m, roots[cur], roots[child], vpn);
      if r.Ok? { UserCopied(m0, m, roots, role, cur, child, vpn, r); }
    }
  }

  lemma {:induction false} CopyUserGood(m0: Phys, m: Phys, roots: map<nat, nat>, role: Roles, cur: nat, child: nat, vpn: nat)
    returns (role': Roles, leak: Option<nat>)
    requires ForkInv(m0, m, roots, role, child, None) && cur in roots && cur != child && vpn <= USER_END
    requires UserInv(m0, m, roots, cur, child, vpn)
    ensures var r := CopyUser(m, roots[cur], roots[child], vpn);
            && !r.Panic? && ForkInv(m0, r.m, roots, role', child, leak)
            && (r.Ok? ==> leak == None && UserInv(m0, r.m, roots, cur, child, USER_END))
    ensures leak.Some? ==> leak.value < NPAGES && m0.rc[leak.value] == 0
    ensures leak == UserLeak(m, roots[cur], roots[child], vpn)
    decreases USER_END - vpn
  {
    hide ForkInv, UserInv, CopyUserPage, PageLeak;
    role', leak := role, None;
    if vpn < USER_END {
      role', leak := CopyUserStep(m0, m, roots, role, cur, child, vpn);
      var r := CopyUserPage(m, roots[cur], roots[child], vpn);
      if r.Ok? {
        role', leak := CopyUserGood(m0, r.m, roots, role', cur, child, vpn + 1);
      }
    }
  }

  lemma ConsoleStep(m0: Phys, m: Phys, roots: map<nat, nat>, role: Roles, cur: nat, child: nat)
    returns (role': Roles)
    requires ForkInv(m0, m, roots, role, child, None) && cur in roots && cur != child
    requires KernelInv(m0, m, roots, cur, child, KERNEL_TOP)
    ensures var r := MapConsole(m, roots[child]);
            && !r.Panic? && ForkInv(m0, r.m, roots, role', child, None)
            && (r.Ok? ==> UserInv(m0, r.m, roots, cur, child, 0))
  {
    role' := MapKernelPage(m, roots, role, child, CONSOLE_PAGE, CONSOLE_PAGE, ALL_PERM);
    var r := MapConsole(m, roots[child]);
    ForkInvExtended(m0, m, roots, role, child, None, r.m, role');
    if r.Ok? {
      assert Leaf(r.m.mem, roots[child], CONSOLE_PAGE) == EntryWord(CONSOLE_PAGE, ALL_PERM);
    }
  }

  /** The three phases together. */
  lemma CopyAllGood(m0: Phys, m: Phys, roots: map<nat, nat>, role: Roles, cur: nat, child: nat)
    returns (role': Roles, leak: Option<nat>)
    requires ForkInv(m0, m, roots, role, child, None) && cur in roots && cur != child
    requires forall v: nat :: v < USER_END ==> !Leaf(m.mem, roots[child], v).perm.p
    ensures var r := CopyAll(m, roots[cur], roots[child]);
            && !r.Panic? && ForkInv(m0, r.m, roots, role', child, leak)
            && (r.Ok? ==> leak == None && UserInv(m0, r.m, roots, cur, child, USER_END))
    ensures leak.Some? ==> leak.value < NPAGES && m0.rc[leak.value] == 0
    ensures leak == CopyLeak(m, roots[cur], roots[child])
  {
    leak := None;
    role' := CopyKernelGood(m0, m, roots, role, cur, child, KERNEL_FIRST);
    var r1 := CopyKernel(m, roots[cur], roots[child], KERNEL_FIRST);
    if r1.Ok? {
      role' := ConsoleStep(m0, r1.m, roots, role', cur, child);
      var r2 := MapConsole(r1.m, roots[child]);
      if r2.Ok? {
        role', leak := CopyUserGood(m0, r2.m, roots, role', cur, child, 0);
      }
    }
  }

  // ---- Giving everything back ----

  predicate MapsAt(r: Role, pid: nat, vpn: nat) {
    r.Data? && pid in r.users && r.users[pid] == vpn
  }

  predicate MapsFrom(r: Role, pid: nat, vpn: nat) {
    r.Data? && pid in r.users && r.users[pid] >= vpn
  }

  lemma FreeUserPageCounts(m: Phys, mg: Phys, roots: map<nat, nat>, role: Roles, pid: nat, vpn: nat)
    requires Good(mg, roots, role) && pid in roots && m.mem == mg.mem && m.kend == mg.kend && vpn < USER_END
    requires forall p: nat :: p < NPAGES && MapsAt(role[p], pid, vpn) ==> m.rc[p] >= 1
    ensures var r := FreeUserPage(m, roots[pid], vpn);
            && r.mem == m.mem && r.kend == m.kend
            && (forall p: nat :: p < NPAGES ==>
                  r.rc[p] as int == m.rc[p] as int - (if MapsAt(role[p], pid, vpn) then 1 else 0))
  {
    forall p: nat | p < NPAGES && MapsAt(role[p], pid, vpn) ensures MapsTo(mg.mem, roots[pid], vpn, p) {}
    ItLeaf(mg, roots, role, pid, vpn);
    var e := Leaf(mg.mem, roots[pid], vpn);
    if IsUserPage(ItPerm(m.mem, roots[pid], vpn), vpn) {
      assert DataPage(vpn);
      assert role[e.frame] != Unused && CountOk(role[e.frame], mg.rc[e.frame]);
    }
  }

  lemma {:induction false} FreeUserCounts(m: Phys, mg: Phys, roots: map<nat, nat>, role: Roles, pid: nat, vpn: nat)
    requires Good(mg, roots, role) && pid in roots && m.mem == mg.mem && m.kend == mg.kend && vpn <= USER_END
    requires forall p: nat :: p < NPAGES && MapsFrom(role[p], pid, vpn) ==> m.rc[p] >= 1
    ensures var r := FreeUser(m, roots[pid], vpn);
            && r.mem == m.mem && r.kend == m.kend
            && (forall p: nat :: p < NPAGES ==>
                  r.rc[p] as int == m.rc[p] as int - (if MapsFrom(role[p], pid, vpn) then 1 else 0))
    decreases USER_END - vpn
  {
    if vpn < USER_END {
      FreeUserPageCounts(m, mg, roots, role, pid, vpn);
      FreeUserCounts(FreeUserPage(m, roots[pid], vpn), mg, roots, role, pid, vpn + 1);
    } else {
      forall p: nat | p < NPAGES ensures !MapsFrom(role[p], pid, vpn) {
        var r := role[p];
        assert r.Data? && pid in r.users ==> MapsTo(mg.mem, roots[pid], r.users[pid], p);
      }
    }
  }

  lemma {:induction false} FreeTablesCounts(m: Phys, mg: Phys, roots: map<nat, nat>, role: Roles, pid: nat, paths: seq<Path>)
    requires Good(mg, roots, role) && pid in roots && m.mem == mg.mem && m.kend == mg.kend
    requires NoDuplicates(paths) && forall x :: x in paths ==> HasTable(m.mem, roots[pid], x)
    requires forall p: nat :: p < NPAGES && role[p].Table? && role[p].pid == pid && role[p].path in paths ==> m.rc[p] >= 1
    ensures var r := FreeTables(m, roots[pid], paths);
            && r.mem == m.mem && r.kend == m.kend
            && (forall p: nat :: p < NPAGES ==>
                  r.rc[p] as int == m.rc[p] as int
                    - (if role[p].Table? && role[p].pid == pid && role[p].path in paths then 1 else 0))
    decreases |paths|
  {
    if paths != [] {
      assert HasTable(m.mem, roots[pid], paths[0]);
      var f := Node(m.mem, roots[pid], paths[0]).value;
      assert role[f] == Table(pid, paths[0]) && f < NPAGES;
      assert Allocatable(m.kend, f) by { assert CountOk(role[f], mg.rc[f]); }
      var m1 := Kfree(m, Some(f));
      assert forall x :: x in paths <==> x == paths[0] || x in paths[1..];
      assert paths[0] !in paths[1..];
      assert NoDuplicates(paths[1..]);
      FreeTablesCounts(m1, mg, roots, role, pid, paths[1..]);
    }
  }

  /** Which places of the tree a table page of `pid` can have. */
  lemma TablePlaces(m: Phys, roots: map<nat, nat>, role: Roles, pid: nat, p: nat)
    requires Good(m, roots, role) && pid in roots && p < NPAGES && role[p].Table? && role[p].pid == pid
    ensures role[p].path in Tables(m.mem, roots[pid]) <==> p != roots[pid]
    ensures m.rc[p] == 1 && Allocatable(m.kend, p)
  {
    TablesExact(m.mem, roots[pid]);
    assert HasTable(m.mem, roots[pid], role[p].path);
    assert Node(m.mem, roots[pid], Root) == Some(roots[pid]);
    assert CountOk(role[p], m.rc[p]);
  }

  lemma RootRole(m: Phys, roots: map<nat, nat>, role: Roles, pid: nat)
    requires Good(m, roots, role) && pid in roots
    ensures roots[pid] < NPAGES && role[roots[pid]] == Table(pid, Root)
  {
    assert Node(m.mem, roots[pid], Root) == Some(roots[pid]);
  }

  lemma FreePagetableStages(m: Phys, roots: map<nat, nat>, role: Roles, pid: nat) returns (m2: Phys)
    requires Good(m, roots, role) && pid in roots
    ensures FreePagetable(m, roots[pid]) == Kfree(m2, Some(roots[pid]))
    ensures m2.mem == m.mem && m2.kend == m.kend
    ensures forall p: nat :: p < NPAGES ==>
              m2.rc[p] as int == m.rc[p] as int
                - (if MapsFrom(role[p], pid, 0) then 1 else 0)
                - (if role[p].Table? && role[p].pid == pid && role[p].path in Tables(m.mem, roots[pid]) then 1 else 0)
  {
    forall p: nat | p < NPAGES && (role[p].Table? || role[p].Data?) ensures m.rc[p] >= 1 {
      assert CountOk(role[p], m.rc[p]);
    }
    TablesExact(m.mem, roots[pid]);
    hide Good;
    FreeUserCounts(m, m, roots, role, pid, 0);
    var m1 := FreeUser(m, roots[pid], 0);
    FreeTablesCounts(m1, m, roots, role, pid, Tables(m.mem, roots[pid]));
    m2 := FreeTables(m1, roots[pid], Tables(m.mem, roots[pid]));
  }

  /** `free_pagetable` gives back exactly one count for each page the process uses. */
  lemma FreePagetableCounts(m: Phys, roots: map<nat, nat>, role: Roles, pid: nat)
    requires Good(m, roots, role) && pid in roots
    ensures var r := FreePagetable(m, roots[pid]);
            r.mem == m.mem && r.kend == m.kend && Released(m.rc, r.rc, role, pid)
  {
    hide Good, Tables, FreePagetable;
    var m2 := FreePagetableStages(m, roots, role, pid);
    RootRole(m, roots, role, pid);
    forall p: nat | p < NPAGES && role[p].Table? && role[p].pid == pid
      ensures role[p].path in Tables(m.mem, roots[pid]) <==> p != roots[pid]
      ensures m.rc[p] == 1 && Allocatable(m.kend, p)
    {
      TablePlaces(m, roots, role, pid, p);
    }
  }
}

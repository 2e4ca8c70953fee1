/**
 What the invariant means for a reader who knows nothing of roles: counts cover references, page
 tables and other processes' pages are out of reach, and a forked child sees its parent's memory.
 */
module References {
  import opened Wrappers
  import opened Paging
  import opened PhysMem
  import opened PostOrder
  import opened Kernel
  import opened Invariant
  import opened Mapping
  import opened Copying
  import opened Forking
  import opened Calls
  import opened Allocation
  import opened Runs

  predicate UserMaps(s: State, pid: nat, vpn: nat, p: nat)
    requires Running(s, pid)
  {
    && IsUserPage(ItPerm(s.m.mem, s.procs[pid].root, vpn), vpn)
    && ItFrame(s.m.mem, s.procs[pid].root, vpn) == p
  }

  /** All user mappings of page `p`: (process, virtual page). */
  ghost function UserRefs(s: State, p: nat): set<(nat, nat)> {
    set pid: nat, vpn: nat | pid < PID_MAX && vpn < USER_END && Running(s, pid) && UserMaps(s, pid, vpn, p) :: (pid, vpn)
  }

  function AllTables(s: State, pid: nat): seq<Path>
    requires Running(s, pid)
  {
    [Root] + Tables(s.m.mem, s.procs[pid].root)
  }

  /** All places where page `p` is a page-table page: (process, path). */
  ghost function TableRefs(s: State, p: nat): set<(nat, Path)> {
    set pid: nat, path | pid < PID_MAX && Running(s, pid) && path in AllTables(s, pid)
      && Node(s.m.mem, s.procs[pid].root, path) == Some(p) :: (pid, path)
  }

  lemma UserRole(s: State, role: Roles, pid: nat, vpn: nat, p: nat)
    requires Safe(s, role) && Running(s, pid) && vpn < USER_END && UserMaps(s, pid, vpn, p)
    ensures p < NPAGES && role[p].Data? && pid in role[p].users && role[p].users[pid] == vpn
    ensures ItPerm(s.m.mem, s.procs[pid].root, vpn).w == role[p].w
  {
    ItLeaf(s.m, Roots(s.procs), role, pid, vpn);
  }

  lemma TableRole(s: State, role: Roles, pid: nat, path: Path, p: nat)
    requires Safe(s, role) && Running(s, pid) && Node(s.m.mem, s.procs[pid].root, path) == Some(p)
    ensures p < NPAGES && role[p] == Table(pid, path)
  {
    assert pid in Roots(s.procs) && Roots(s.procs)[pid] == s.procs[pid].root;
  }

  lemma DataRefs(s: State, role: Roles, p: nat)
    requires Safe(s, role) && p < NPAGES && role[p].Data?
    ensures |UserRefs(s, p)| <= |role[p].users| && TableRefs(s, p) == {}
  {
    hide Good, Leaf, ItPerm, ItFrame;
    var users := role[p].users;
    var image := set pid | pid in users :: (pid, users[pid]);
    forall r | r in UserRefs(s, p) ensures r in image { UserRole(s, role, r.0, r.1, p); }
    forall r | r in TableRefs(s, p) ensures false { TableRole(s, role, r.0, r.1, p); }
    assert UserRefs(s, p) <= image;
    SubsetCard(UserRefs(s, p), image);
    GraphCard(users, users.Keys, image);
  }

  lemma GraphCard(users: map<nat, nat>, keys: set<nat>, image: set<(nat, nat)>)
    requires keys <= users.Keys && image == set pid | pid in keys :: (pid, users[pid])
    ensures |image| == |keys|
    decreases keys
  {
    if keys != {} {
      var k :| k in keys;
      var image' := set pid | pid in keys - {k} :: (pid, users[pid]);
      GraphCard(users, keys - {k}, image');
      assert image == image' + {(k, users[k])};
    } else {
      assert image == {};
    }
  }

  lemma TableOnly(s: State, role: Roles, p: nat)
    requires Safe(s, role) && p < NPAGES && !role[p].Data?
    ensures UserRefs(s, p) == {}
    ensures |TableRefs(s, p)| <= (if role[p].Table? then 1 else 0)
  {
    hide Good, Leaf, ItPerm, ItFrame;
    forall r | r in UserRefs(s, p) ensures false { UserRole(s, role, r.0, r.1, p); }
    forall r | r in TableRefs(s, p) ensures role[p] == Table(r.0, r.1) { TableRole(s, role, r.0, r.1, p); }
    if role[p].Table? {
      assert TableRefs(s, p) <= {(role[p].pid, role[p].path)};
      SubsetCard(TableRefs(s, p), {(role[p].pid, role[p].path)});
    } else {
      assert TableRefs(s, p) == {};
    }
  }

  /** Every page is counted at least as often as it is referenced, and never more than PID_MAX times. */
  lemma CountsCoverReferences(s: State, role: Roles, p: nat)
    requires Safe(s, role) && p < NPAGES
    ensures |UserRefs(s, p)| + |TableRefs(s, p)| <= s.m.rc[p] as int
    ensures s.m.rc[p] <= PID_MAX
  {
    assert CountOk(role[p], s.m.rc[p]);
    if role[p].Data? {
      DataRefs(s, role, p);
      forall pid | pid in role[p].users.Keys ensures pid < PID_MAX { assert pid in Roots(s.procs); }
      PidSet(role[p].users.Keys, PID_MAX);
    } else {
      TableOnly(s, role, p);
    }
  }

  /** `kalloc` never returns, and so never overwrites, a page that is still referenced. */
  lemma KallocUnreferenced(s: State, role: Roles)
    requires Safe(s, role) && Kalloc(s.m).0.Some?
    ensures var p := Kalloc(s.m).0.value;
            UserRefs(s, p) == {} && TableRefs(s, p) == {}
  {
    var p := FindFree(s.m, 0).value;
    CountsCoverReferences(s, role, p);
    assert |UserRefs(s, p)| == 0 && |TableRefs(s, p)| == 0;
  }

  /** No page is mapped user-writable in one process and mapped at all in another, and no page-table
      page is mapped by anyone. */
  lemma NoSharedWrites(s: State, role: Roles, a: nat, v: nat, b: nat, w: nat, p: nat)
    requires Safe(s, role) && Running(s, a) && Running(s, b) && v < USER_END && w < USER_END
    requires UserMaps(s, a, v, p) && UserMaps(s, b, w, p) && ItPerm(s.m.mem, s.procs[a].root, v).w
    ensures a == b && v == w && TableRefs(s, p) == {}
  {
    UserRole(s, role, a, v, p);
    UserRole(s, role, b, w, p);
    assert CountOk(role[p], s.m.rc[p]);
    SoleUser(role[p].users, a, b);
    DataRefs(s, role, p);
  }

  // ---- What a child sees ----

  /** At page `v` the child's view of its memory equals the parent's view before the fork. */
  ghost predicate Inherited(s: State, pid: nat, s': State, child: nat, v: nat)
    requires Running(s, pid) && Running(s', child)
  {
    var root, root' := s.procs[pid].root, s'.procs[child].root;
    var p := ItPerm(s.m.mem, root, v);
    if v == CONSOLE_PAGE then
      ItPerm(s'.m.mem, root', v) == ALL_PERM && ItFrame(s'.m.mem, root', v) == CONSOLE_PAGE
    else
      && ItPerm(s'.m.mem, root', v) == p
      && (p.p && !(p.u && p.w) ==> ItFrame(s'.m.mem, root', v) == ItFrame(s.m.mem, root, v))
      && (p.p && p.u ==>
            && ItFrame(s.m.mem, root, v) < NPAGES && ItFrame(s'.m.mem, root', v) < NPAGES
            && s'.m.mem[ItFrame(s'.m.mem, root', v)] == s.m.mem[ItFrame(s.m.mem, root, v)]
            && (p.w ==> s.m.rc[ItFrame(s'.m.mem, root', v)] == 0))
  }

  lemma InheritedAt(s: State, role: Roles, s': State, role': Roles, pid: nat, child: nat, v: nat)
    requires Safe(s, role) && Running(s, pid) && ForkedInto(s, s', role', pid, child) && v < USER_END
    ensures Running(s', child) && Inherited(s, pid, s', child, v)
  {
    ItLeaf(s.m, Roots(s.procs), role, pid, v);
    ItLeaf(s'.m, Roots(s'.procs), role', child, v);
    if DataPage(v) {
      assert Copied(s.m, s'.m, s.procs[pid].root, s'.procs[child].root, v);
    }
  }

  /** A successful fork: every page of the child has the parent's rights and bytes at that address,
      in a fresh page where it is writable; and nobody, the parent included, sees any change. */
  lemma ForkFaithful(s: State, role: Roles, pid: nat, v: nat)
    requires Safe(s, role) && Running(s, pid) && v < USER_END
    ensures var o := SysFork(s, pid);
            && o.Ret?
            && (o.value >= 0 ==> Running(o.s, o.value) && !Running(s, o.value) && Inherited(s, pid, o.s, o.value, v))
            && (forall q: nat :: Running(s, q) ==> SameView(s, o.s, q))
  {
    hide Good, Leaf, SysFork, Inherited, SameView, ForkInv, UserInv;
    var role', leak := ForkCorrect(s, role, pid);
    var o := SysFork(s, pid);
    if o.value >= 0 { InheritedAt(s, role, o.s, role', pid, o.value, v); }
    forall q: nat | Running(s, q) ensures SameView(s, o.s, q) { UsedView(s, role, o.s, role', q); }
  }
}

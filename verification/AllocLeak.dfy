/**
 What `syscall_page_alloc` (weensyos/kernel.cc:406-431) takes and what it loses: a successful call does not
 give back the page it replaces, and a call that fails in `try_map` does not give back the page it took.
 */
module AllocLeak {
  import opened Wrappers
  import opened Paging
  import opened PhysMem
  import opened TryMapTheory
  import opened PostOrder
  import opened Kernel
  import opened Invariant
  import opened Mapping
  import opened Copying
  import opened Forking
  import opened Calls
  import opened Allocation
  import opened Setup
  import opened Budget
  import opened StartCost
  import opened Runs
  import opened References
  import opened AllocExact

  /** Some process maps page `p`, or has it as a page-table page. */
  ghost predicate Referenced(s: State, p: nat) {
    UserRefs(s, p) != {} || TableRefs(s, p) != {}
  }

  /** Page `p` was in use and is not any more, but still is counted. */
  ghost predicate Orphaned(s: State, s': State, p: nat) {
    p < NPAGES && Referenced(s, p) && !Referenced(s', p) && s'.m.rc[p] != 0
  }

  // ---- The page that a successful call replaces ----

  lemma TablePlace(s: State, q: nat, path: Path, p: nat)
    requires Running(s, q)
    ensures (q, path) in TableRefs(s, p) <==> Node(s.m.mem, s.procs[q].root, path) == Some(p)
  {
    TablesExact(s.m.mem, s.procs[q].root);
    hide Tables;
    if Node(s.m.mem, s.procs[q].root, path) == Some(p) {
      assert HasTable(s.m.mem, s.procs[q].root, path);
      assert path in AllTables(s, q);
    }
  }

  /** In a good state a page is a table where its role says. */
  lemma TableIff(m: Phys, roots: map<nat, nat>, role: Roles, q: nat, path: Path, p: nat)
    requires Good(m, roots, role) && q in roots && p < NPAGES
    ensures Node(m.mem, roots[q], path) == Some(p) <==> role[p] == Table(q, path)
  {
    hide Node;
  }

  /** Writing a lowest-level entry changes no table of anyone. */
  lemma LeafKeepsTables(m: Phys, roots: map<nat, nat>, role: Roles, pid: nat, addr: nat, g: nat, e: Word, q: nat, path: Path)
    requires Good(m, roots, role) && pid in roots && q in roots && g < NPAGES
    requires Node(m.mem, roots[pid], PathTo(addr, PAGEOFFBITS)) == Some(g)
    ensures Node(SetEntry(m.mem, g, Index(addr, PAGEOFFBITS), e), roots[q], path) == Node(m.mem, roots[q], path)
  {
    hide Node, PathTo, Leaf;
    var i := Index(addr, PAGEOFFBITS);
    DepthPathTo(addr, PAGEOFFBITS);
    GoodTree(m, roots, role, pid);
    GoodTree(m, roots, role, q);
    TableIff(m, roots, role, pid, PathTo(addr, PAGEOFFBITS), g);
    if q == pid {
      NodeAfterLeaf(m.mem, roots[pid], PathTo(addr, PAGEOFFBITS), g, i, e, path);
    } else {
      assert SameOnTree(m.mem, SetEntry(m.mem, g, i, e), roots[q]);
      NodeFrame(m.mem, SetEntry(m.mem, g, i, e), roots[q], path);
    }
  }

  /** A successful call leaves every page in use at the places where it is a table. */
  lemma TablesStay(s: State, role: Roles, pid: nat, addr: nat, p: nat)
    requires Safe(s, role) && Running(s, pid) && addr < VA_END && p < NPAGES && s.m.rc[p] != 0
    requires SysPageAlloc(s, pid, addr).Ret? && SysPageAlloc(s, pid, addr).value == 0
    ensures TableRefs(SysPageAlloc(s, pid, addr).s, p) == TableRefs(s, p)
  {
    hide Good, SysPageAlloc, Leaf, PathTo, Node, TableRefs, Index, SetEntry;
    var roots := Roots(s.procs);
    var s' := SysPageAlloc(s, pid, addr).s;
    var m3, role3, g, f := AllocWrote(s, role, pid, addr);
    forall q: nat, path | Running(s, q) ensures (q, path) in TableRefs(s', p) <==> (q, path) in TableRefs(s, p) {
      TablePlace(s, q, path, p);
      TablePlace(s', q, path, p);
      LeafKeepsTables(m3, roots, role3, pid, addr, g, EntryWord(f, ALL_PERM), q, path);
      TableIff(m3, roots, role3, q, path, p);
      TableIff(s.m, roots, role, q, path, p);
    }
    RefsOfRunning(s, p);
    RefsOfRunning(s', p);
    assert TableRefs(s', p) == TableRefs(s, p);
  }

  lemma RefsOfRunning(s: State, p: nat)
    ensures forall r :: r in TableRefs(s, p) ==> Running(s, r.0)
  {
  }

  /** The replaced page, if nobody else maps it, is counted for ever without a reference. */
  lemma ReplacedIsLost(s: State, role: Roles, pid: nat, addr: nat)
    requires Safe(s, role) && Running(s, pid) && addr < VA_END
    requires SysPageAlloc(s, pid, addr).Ret? && SysPageAlloc(s, pid, addr).value == 0
    requires var vpn := addr / PAGESIZE;
             DataPage(vpn) && Private(s.m, s.procs[pid].root, vpn) && Leaf(s.m.mem, s.procs[pid].root, vpn).perm.p
    ensures var p := Leaf(s.m.mem, s.procs[pid].root, addr / PAGESIZE).frame;
            Orphaned(s, SysPageAlloc(s, pid, addr).s, p) && SysPageAlloc(s, pid, addr).s.m.rc[p] == 1
  {
    hide Good, SysPageAlloc, Leaf, Translate, ItPerm, ItFrame, TableRefs;
    var vpn := addr / PAGESIZE;
    var s' := SysPageAlloc(s, pid, addr).s;
    var p := Leaf(s.m.mem, s.procs[pid].root, vpn).frame;
    var f := AllocSeen(s, role, pid, addr);
    Translated(s'.m.mem, s.procs[pid].root, vpn, f);
    PrivateRefs(s, role, pid, vpn);
    TablesStay(s, role, pid, addr, p);
    OtherRefs(s, s', pid, vpn, p);
    assert (pid, vpn) !in UserRefs(s', p);
    ButOne(UserRefs(s', p), UserRefs(s, p), (pid, vpn));
  }

  lemma PrivateRefs(s: State, role: Roles, pid: nat, vpn: nat)
    requires Safe(s, role) && Running(s, pid) && DataPage(vpn) && Leaf(s.m.mem, s.procs[pid].root, vpn).perm.p
    requires Private(s.m, s.procs[pid].root, vpn)
    ensures var p := Leaf(s.m.mem, s.procs[pid].root, vpn).frame;
            p < NPAGES && UserRefs(s, p) == {(pid, vpn)} && TableRefs(s, p) == {} && s.m.rc[p] == 1
  {
    hide Good, Leaf, ItPerm, ItFrame, TableRefs;
    ItLeaf(s.m, Roots(s.procs), role, pid, vpn);
    var p := Leaf(s.m.mem, s.procs[pid].root, vpn).frame;
    assert UserMaps(s, pid, vpn, p);
    assert (pid, vpn) in UserRefs(s, p);
    RefsAreUsers(s, role, p);
    OnlyOne(UserRefs(s, p), (pid, vpn));
    UserRole(s, role, pid, vpn, p);
    DataRefs(s, role, p);
  }

  lemma OnlyOne<T>(a: set<T>, x: T)
    requires x in a && |a| == 1
    ensures a == {x}
  {
    assert |a - {x}| == 0;
    assert a == a - {x} + {x};
  }

  /** A page in use that a successful call orphans was the caller's alone, at the address it named. */
  lemma LostWasReplaced(s: State, role: Roles, pid: nat, addr: nat, p: nat)
    requires Safe(s, role) && Running(s, pid) && addr < VA_END
    requires SysPageAlloc(s, pid, addr).Ret? && SysPageAlloc(s, pid, addr).value == 0
    requires Orphaned(s, SysPageAlloc(s, pid, addr).s, p)
    ensures var vpn := addr / PAGESIZE;
            DataPage(vpn) && Private(s.m, s.procs[pid].root, vpn) && Leaf(s.m.mem, s.procs[pid].root, vpn).perm.p
  {
    hide Good, SysPageAlloc, Leaf, Translate, ItPerm, ItFrame, TableRefs;
    var vpn := addr / PAGESIZE;
    var s' := SysPageAlloc(s, pid, addr).s;
    var f := AllocSeen(s, role, pid, addr);
    CountsCoverReferences(s, role, p);
    NonEmpty(UserRefs(s, p));
    NonEmpty(TableRefs(s, p));
    TablesStay(s, role, pid, addr, p);
    OtherRefs(s, s', pid, vpn, p);
    ButOne(UserRefs(s', p), UserRefs(s, p), (pid, vpn));
    SoleRef(s, role, pid, vpn, p);
  }

  lemma ButOne<T>(a: set<T>, b: set<T>, x: T)
    requires a - {x} == b - {x}
    ensures x !in a && b == {x} ==> a == {}
    ensures a == {} && b != {} ==> b == {x}
  {
    forall y | y in a || y in b ensures y == x || (y in a && y in b) {
      if y != x { assert y in a - {x} || y in b - {x}; }
    }
  }

  lemma NonEmpty<T>(a: set<T>)
    ensures a != {} ==> |a| > 0
  {
  }

  lemma SoleRef(s: State, role: Roles, pid: nat, vpn: nat, p: nat)
    requires Safe(s, role) && Running(s, pid) && p < NPAGES && UserRefs(s, p) == {(pid, vpn)}
    ensures DataPage(vpn) && Private(s.m, s.procs[pid].root, vpn) && Leaf(s.m.mem, s.procs[pid].root, vpn).perm.p
  {
    hide Good, Leaf, ItPerm, ItFrame;
    assert (pid, vpn) in UserRefs(s, p);
    RefsAreUsers(s, role, p);
    ItLeaf(s.m, Roots(s.procs), role, pid, vpn);
  }

  /** A successful call keeps the promise of weensyos/u-lib.hh:92-94, a new page and the old one freed, if
      and only if it named a process page that was absent; an unshared page that it replaces is lost. */
  lemma PageAllocLoses(s: State, role: Roles, pid: nat, addr: nat)
    requires Safe(s, role) && Running(s, pid) && addr < VA_END
    requires SysPageAlloc(s, pid, addr).Ret? && SysPageAlloc(s, pid, addr).value == 0
    ensures var s' := SysPageAlloc(s, pid, addr).s;
            var vpn, root := addr / PAGESIZE, s.procs[pid].root;
            var present := Leaf(s.m.mem, root, vpn).perm.p;
            && ((exists p :: Orphaned(s, s', p)) <==> DataPage(vpn) && present && Private(s.m, root, vpn))
            && (MemorySound(s') && !(exists p :: Orphaned(s, s', p)) <==> DataPage(vpn) && !present)
  {
    hide Good, SysPageAlloc, Private, Orphaned, MemorySound, Leaf;
    var s' := SysPageAlloc(s, pid, addr).s;
    var vpn, root := addr / PAGESIZE, s.procs[pid].root;
    PageAllocExact(s, role, pid, addr);
    AbsentIsPrivate(s.m, root, vpn);
    if DataPage(vpn) && Leaf(s.m.mem, root, vpn).perm.p && Private(s.m, root, vpn) {
      ReplacedIsLost(s, role, pid, addr);
    } else if p :| Orphaned(s, s', p) {
      LostWasReplaced(s, role, pid, addr, p);
    }
  }

  lemma AbsentIsPrivate(m: Phys, root: nat, vpn: nat)
    ensures !Leaf(m.mem, root, vpn).perm.p ==> Private(m, root, vpn)
  {
    hide Leaf;
  }

  // ---- The page that a failed call took ----

  /** With a free page the call is `try_map` on the state with that page taken. */
  lemma AllocGrows(s: State, role: Roles, pid: nat, addr: nat)
    requires Safe(s, role) && Running(s, pid) && addr < VA_END && addr % PAGESIZE == 0 && Canonical(addr)
    requires FindFree(s.m, 0).Some?
    ensures var f := FindFree(s.m, 0).value;
            var m2 := Phys(s.m.kend, s.m.mem[f := ZeroPage()], s.m.rc[f := 1]);
            var w := Walk(s.m.mem, s.procs[pid].root, addr);
            && Good(m2, Roots(s.procs), role) && role[f] == Unused && SameLeaves(s.m.mem, m2.mem, Roots(s.procs))
            && IsLevel(w.lbits) && w.pep.Slot? && w.pep.page < NPAGES && w.pep.idx < ENTRIES
            && Walk(m2.mem, s.procs[pid].root, addr) == w
            && (var g := Grow(m2, w, addr);
                SysPageAlloc(s, pid, addr)
                == if g.ok then
                     Ret(0, State(Phys(g.m.kend, SetEntry(g.m.mem, g.w.pep.page, g.w.pep.idx, EntryWord(f, ALL_PERM)), g.m.rc), s.procs))
                   else Ret(-1, State(g.m, s.procs)))
  {
    var f := FindFree(s.m, 0).value;
    AllocStart(s, role, f);
    var m2 := Phys(s.m.kend, s.m.mem[f := ZeroPage()], s.m.rc[f := 1]);
    TakenElsewhere(s, role, pid, addr, f);
    WalkFacts(m2, Roots(s.procs), role, pid, addr);
    hide Good, Walk, Leaf, Grow, FindFree;
  }

  lemma TakenElsewhere(s: State, role: Roles, pid: nat, addr: nat, f: nat)
    requires Safe(s, role) && Running(s, pid) && f < NPAGES && role[f] == Unused
    ensures Walk(s.m.mem[f := ZeroPage()], s.procs[pid].root, addr) == Walk(s.m.mem, s.procs[pid].root, addr)
  {
    GoodTree(s.m, Roots(s.procs), role, pid);
    assert SameOnTree(s.m.mem, s.m.mem[f := ZeroPage()], s.procs[pid].root);
    WalkFrame(s.m.mem, s.m.mem[f := ZeroPage()], s.procs[pid].root, addr);
  }

  /** The call succeeds if and only if there is a free page for the caller and one for each missing table,
      and then it takes as many. */
  lemma PageAllocSucceeds(s: State, role: Roles, pid: nat, addr: nat)
    requires Safe(s, role) && Running(s, pid) && addr < VA_END && addr % PAGESIZE == 0 && Canonical(addr)
    ensures var w := Walk(s.m.mem, s.procs[pid].root, addr);
            && IsLevel(w.lbits)
            && var o := SysPageAlloc(s, pid, addr);
            && o.Ret? && (o.value == 0 || o.value == -1)
            && (o.value == 0 <==> FreeCount(s.m) >= 1 + Levels(w))
            && (o.value == 0 ==> FreeCount(o.s.m) == FreeCount(s.m) - (1 + Levels(w)))
  {
    hide Good, SysPageAlloc, Grow, FreeCount, Levels;
    WalkEnd(s.m.mem, s.procs[pid].root, addr);
    hide Walk;
    FindFreeCount(s.m);
    if FindFree(s.m, 0).Some? {
      var f := FindFree(s.m, 0).value;
      AllocGrows(s, role, pid, addr);
      var m2 := Phys(s.m.kend, s.m.mem[f := ZeroPage()], s.m.rc[f := 1]);
      TakenCount(s.m, f, m2.mem);
      var w := Walk(s.m.mem, s.procs[pid].root, addr);
      GrowCount(m2, w, addr);
      if Grow(m2, w, addr).ok { SameCount(Grow(m2, w, addr).m, SysPageAlloc(s, pid, addr).s.m); }
    } else {
      NoPageLeft(s, pid, addr);
    }
  }

  lemma NoPageLeft(s: State, pid: nat, addr: nat)
    requires Running(s, pid) && addr < VA_END && FindFree(s.m, 0).None?
    ensures SysPageAlloc(s, pid, addr) == Ret(-1, s)
  {
  }

  /** A failed call changes no mapping.  It leaves the counts alone if and only if there was no free page;
      otherwise the page it took stays counted, and nobody uses it. */
  lemma PageAllocFailure(s: State, role: Roles, pid: nat, addr: nat)
    requires Safe(s, role) && Running(s, pid) && addr < VA_END
    requires SysPageAlloc(s, pid, addr).Ret? && SysPageAlloc(s, pid, addr).value < 0
    ensures var s' := SysPageAlloc(s, pid, addr).s;
            && s'.procs == s.procs && SafeState(s') && SameLeaves(s.m.mem, s'.m.mem, Roots(s.procs))
            && (s'.m.rc == s.m.rc <==> FreeCount(s.m) == 0)
            && (FreeCount(s.m) > 0 ==>
                  exists p: nat :: p < NPAGES && s.m.rc[p] == 0 && s'.m.rc[p] == 1 && !Referenced(s', p))
  {
    hide Good, SysPageAlloc, Grow, FreeCount, Walk, Leaf, Referenced;
    FindFreeCount(s.m);
    if FindFree(s.m, 0).Some? {
      PageAllocHalts(s, role, pid, addr);
      var f := FindFree(s.m, 0).value;
      AllocGrows(s, role, pid, addr);
      var m2 := Phys(s.m.kend, s.m.mem[f := ZeroPage()], s.m.rc[f := 1]);
      var role3 := GrowGood(m2, Roots(s.procs), role, pid, addr);
      var m3 := Grow(m2, Walk(m2.mem, s.procs[pid].root, addr), addr).m;
      SameLeavesTrans(s.m.mem, m2.mem, m3.mem, Roots(s.procs));
      assert SysPageAlloc(s, pid, addr).s == State(m3, s.procs);
      UnusedIsUnreferenced(State(m3, s.procs), role3, f);
    } else {
      NoPageLeft(s, pid, addr);
      ExtendedRefl(s.m, Roots(s.procs), role, pid);
    }
  }

  lemma UnusedIsUnreferenced(s: State, role: Roles, p: nat)
    requires Safe(s, role) && p < NPAGES && role[p] == Unused
    ensures !Referenced(s, p)
  {
    hide Good, UserRefs, TableRefs;
    TableOnly(s, role, p);
    NonEmpty(TableRefs(s, p));
  }

  // ---- Both from boot ----

  const STACK_ADDR := (USER_END - 1) * PAGESIZE
  const BEYOND_ADDR := 0x40_0000

  lemma StackIsPrivate(s: State, role: Roles, pid: nat, pages: seq<(nat, bool)>)
    requires Safe(s, role) && Running(s, pid)
    requires Loaded(s.m.mem, s.procs[pid].root, pages + [(USER_END - 1, true)])
    ensures var root := s.procs[pid].root;
            Leaf(s.m.mem, root, USER_END - 1).perm == ALL_PERM && Private(s.m, root, USER_END - 1)
  {
    hide Leaf, Good, ItPerm, ItFrame, Walk;
    StackEntry(pages);
    ItLeaf(s.m, Roots(s.procs), role, pid, USER_END - 1);
    PageCount(s.m, Roots(s.procs), role, Leaf(s.m.mem, s.procs[pid].root, USER_END - 1).frame);
  }

  lemma {:induction false} StackEntry(pages: seq<(nat, bool)>)
    ensures ImageEntry(pages + [(USER_END - 1, true)], USER_END - 1) == Some(true)
    decreases |pages|
  {
    var all := pages + [(USER_END - 1, true)];
    if pages != [] {
      StackEntry(pages[1..]);
      assert all[1..] == pages[1..] + [(USER_END - 1, true)];
    } else {
      assert all[1..] == [];
    }
  }

  /** From every boot state an allowed run, a start and a page_alloc over the stack, that loses a page. */
  lemma LostFromBoot(s: State) returns (s1: State, s2: State, p: nat)
    requires Boot(s)
    ensures Run(s, [Event.Start(1, [])], s1) && Run(s, [Event.Start(1, []), PageAlloc(1, STACK_ADDR)], s2)
    ensures Orphaned(s1, s2, p)
  {
    hide Good, ProcessSetup, SysPageAlloc, FreeCount, Loaded, Leaf, Walk, Orphaned, Private;
    BootPages(s);
    var role1;
    s1, role1 := StartFromBoot(s, []);
    StackIsPrivate(s1, role1, 1, []);
    PagePathTo(USER_END - 1);
    FindFreeCount(s1.m);
    var g := AllocOver(s1, role1, 1, USER_END - 1);
    s2 := SysPageAlloc(s1, 1, STACK_ADDR).s;
    p := Leaf(s1.m.mem, s1.procs[1].root, USER_END - 1).frame;
    ReplacedIsLost(s1, role1, 1, STACK_ADDR);
    TwoSteps(s, Event.Start(1, []), s1, PageAlloc(1, STACK_ADDR), s2);
  }

  /** An image that leaves one free page. */
  function Filling(n: nat): (pages: seq<(nat, bool)>)
    requires n <= USER_END - USER_FIRST
    ensures |pages| == n && UserPages(pages)
  {
    seq(n, i requires 0 <= i < n => (USER_FIRST + i, true))
  }

  lemma BeyondPath()
    ensures PathTo(BEYOND_ADDR, PAGEOFFBITS) == Sub(LOW, BEYOND) && Canonical(BEYOND_ADDR) && BEYOND_ADDR % PAGESIZE == 0
  {
    PathIndices(BEYOND_ADDR);
  }

  /** A walk that does not reach a lowest-level table misses at least one. */
  lemma MissesOne(mem: Memory, root: nat)
    requires !HasLow(mem, root, BEYOND)
    ensures var w := Walk(mem, root, BEYOND_ADDR); IsLevel(w.lbits) && Levels(w) >= 1
  {
    BeyondPath();
    WalkEnd(mem, root, BEYOND_ADDR);
  }

  /** From every boot state a start after which a page_alloc fails and loses the page it took. */
  lemma FailureFromBoot(s: State) returns (pages: seq<(nat, bool)>, s1: State, s2: State)
    requires Boot(s)
    ensures Run(s, [Event.Start(1, pages)], s1) && SafeState(s1) && Running(s1, 1)
    ensures SysPageAlloc(s1, 1, BEYOND_ADDR) == Ret(-1, s2)
    ensures exists p: nat :: p < NPAGES && s1.m.rc[p] == 0 && s2.m.rc[p] == 1 && !Referenced(s2, p)
  {
    hide Good, ProcessSetup, SysPageAlloc, FreeCount, Loaded, Leaf, Walk, Referenced, HasLow, UserPages, PathTo;
    BootPages(s);
    pages := Filling(FreeCount(s.m) - 7);
    var role1;
    s1, role1 := StartFromBoot(s, pages);
    BootSafe(s);
    var role :| Safe(s, role);
    StartedWithin(s, role, 1, pages);
    BeyondPath();
    MissesOne(s1.m.mem, s1.procs[1].root);
    PageAllocSucceeds(s1, role1, 1, BEYOND_ADDR);
    s2 := SysPageAlloc(s1, 1, BEYOND_ADDR).s;
    PageAllocFailure(s1, role1, 1, BEYOND_ADDR);
  }
}

/**
 Exactly when `syscall_fork` (weensyos/kernel.cc:436-514) succeeds, and exactly when a fork that fails
 does not give everything back: both are decided by the number of free pages before the call.
 */
module ForkCost {
  import opened Wrappers
  import opened Paging
  import opened PhysMem
  import opened TryMapTheory
  import opened Kernel
  import opened Invariant
  import opened Mapping
  import opened Copying
  import opened Forking
  import opened Calls
  import opened Budget

  /** The first page whose table is not the one that the console needs anyway. */
  const HIGH_FIRST := 0x200

  predicate MapsData(mem: Memory, root: nat, v: nat) {
    DataPage(v) && Leaf(mem, root, v).perm.p
  }

  predicate MapsWritable(mem: Memory, root: nat, v: nat) {
    MapsData(mem, root, v) && Leaf(mem, root, v).perm.w
  }

  /** The writable process pages from page `lo` up to page `hi`. */
  function Writables(mem: Memory, root: nat, lo: nat, hi: nat): set<nat> {
    set v: nat | lo <= v < hi && MapsWritable(mem, root, v)
  }

  /** The first process page at or after `v`. */
  function FirstData(mem: Memory, root: nat, v: nat): (r: Option<nat>)
    ensures r.Some? ==> v <= r.value < USER_END && MapsData(mem, root, r.value)
    ensures forall u: nat :: v <= u < (if r.Some? then r.value else USER_END) ==> !MapsData(mem, root, u)
    decreases USER_END - v
  {
    if v >= USER_END then None
    else if MapsData(mem, root, v) then Some(v)
    else FirstData(mem, root, v + 1)
  }

  function FromHigh(mem: Memory, root: nat, v: nat): Option<nat> {
    FirstData(mem, root, if v < HIGH_FIRST then HIGH_FIRST else v)
  }

  lemma WritablesStep(mem: Memory, root: nat, v: nat, hi: nat)
    ensures |Writables(mem, root, v, hi)|
         == |Writables(mem, root, v + 1, hi)| + (if v < hi && MapsWritable(mem, root, v) then 1 else 0)
  {
    hide MapsWritable;
    if v < hi && MapsWritable(mem, root, v) {
      assert Writables(mem, root, v, hi) == Writables(mem, root, v + 1, hi) + {v};
    } else {
      assert Writables(mem, root, v, hi) == Writables(mem, root, v + 1, hi);
    }
  }

  lemma WritablesNone(mem: Memory, root: nat, v: nat, hi: nat)
    requires v >= hi
    ensures Writables(mem, root, v, hi) == {}
  {
  }

  // ---- The kernel pages and the console ----

  /** The three low tables are paid for once, by the first page mapped. */
  lemma {:induction false} CopyKernelCount(m0: Phys, m: Phys, roots: map<nat, nat>, role: Roles, cur: nat, child: nat, vpn: nat)
    requires ForkInv(m0, m, roots, role, child, None) && cur in roots && child in roots && cur != child
    requires KERNEL_FIRST <= vpn <= KERNEL_TOP && KernelInv(m0, m, roots, cur, child, vpn)
    requires LowOnly(m.mem, roots[child])
    ensures var r := CopyKernel(m, roots[cur], roots[child], vpn);
            && (!r.Ok? ==> FreeCount(m) < LowNeed(m.mem, roots[child]))
            && (r.Ok? ==>
                  && LowOnly(r.m.mem, roots[child])
                  && FreeCount(r.m) - LowNeed(r.m.mem, roots[child]) == FreeCount(m) - LowNeed(m.mem, roots[child]))
    decreases KERNEL_TOP - vpn
  {
    hide ForkInv, KernelInv, CopyKernelPage, FreeCount, LowOnly, LowNeed;
    if vpn < KERNEL_TOP {
      KernelPageCount(m0, m, roots, role, cur, child, vpn);
      var role' := CopyKernelStep(m0, m, roots, role, cur, child, vpn);
      var r := CopyKernelPage(m, roots[cur], roots[child], vpn);
      if r.Ok? {
        CopyKernelCount(m0, r.m, roots, role', cur, child, vpn + 1);
      }
    }
  }

  lemma KernelPageCount(m0: Phys, m: Phys, roots: map<nat, nat>, role: Roles, cur: nat, child: nat, vpn: nat)
    requires ForkInv(m0, m, roots, role, child, None) && cur in roots && child in roots && cur != child
    requires KernelPage(vpn) && LowOnly(m.mem, roots[child])
    ensures var r := CopyKernelPage(m, roots[cur], roots[child], vpn);
            && (!r.Ok? ==> FreeCount(m) < LowNeed(m.mem, roots[child]))
            && (r.Ok? ==>
                  && LowOnly(r.m.mem, roots[child])
                  && FreeCount(r.m) - LowNeed(r.m.mem, roots[child]) == FreeCount(m) - LowNeed(m.mem, roots[child]))
  {
    hide ForkInv, Good, Leaf, MapPage, ItPerm, ItFrame, FreeCount, LowOnly, HasLow;
    KernelEntry(m0, m, roots, role, cur, child, vpn);
    var e := Leaf(m.mem, roots[cur], vpn);
    if e.perm.p { LowMapCount(m, roots, role, child, vpn, e.frame, e.perm); }
  }

  // ---- Process pages ----

  /** What copying page `vpn` takes: a page if it is writable, and a table if its own is missing. */
  ghost predicate PageCost(m: Phys, r: Result, root: nat, vpn: nat, pages: nat) {
    var k := pages + Missing(m.mem, root, vpn);
    && (r.Ok? <==> FreeCount(m) >= k)
    && (r.Ok? ==> FreeCount(r.m) == FreeCount(m) - k && LowAfter(m.mem, r.m.mem, root, vpn))
  }

  lemma CopyPageCount(m0: Phys, m: Phys, roots: map<nat, nat>, role: Roles, cur: nat, child: nat, vpn: nat)
    requires ForkInv(m0, m, roots, role, child, None) && cur in roots && child in roots && cur != child && DataPage(vpn)
    requires Leaf(m.mem, roots[cur], vpn).perm == ALL_PERM && !Leaf(m.mem, roots[child], vpn).perm.p
    ensures PageCost(m, CopyPage(m, roots[cur], roots[child], vpn), roots[child], vpn, 1)
  {
    hide ForkInv, Good, MapPage, CopyPage, Leaf, FreeCount, FindFree, Missing, HasLow, LowAfter;
    FindFreeCount(m);
    if FindFree(m, 0).Some? {
      var f := FindFree(m, 0).value;
      FoundIsFree(m, f);
      var m2 := TakeCopy(m0, m, roots, role, cur, child, vpn, f);
      TakenCount(m, f, m2.mem);
      ForkInvGood(m0, m, roots, role, child, None);
      ForkInvGood(m0, m2, roots, role, child, Some(f));
      WrittenTables(m, roots, role, child, f, m2.mem[f], vpn);
      MapCount(m2, roots, role, child, vpn, f, ALL_PERM);
      SameLows(m.mem, m2.mem, MapPage(m2, roots[child], vpn, f, ALL_PERM), roots[child], vpn);
    } else {
      NothingTaken(m, roots[cur], roots[child], vpn);
    }
  }

  lemma FoundIsFree(m: Phys, f: nat)
    requires FindFree(m, 0) == Some(f)
    ensures Free(m, f)
  {
  }

  lemma ForkInvGood(m0: Phys, m: Phys, roots: map<nat, nat>, role: Roles, child: nat, leak: Option<nat>)
    requires ForkInv(m0, m, roots, role, child, leak)
    ensures Good(m, roots, role)
  {
    hide Good;
  }

  lemma SameLows(mem: Memory, mem2: Memory, r: Result, root: nat, vpn: nat)
    requires forall i: nat :: HasLow(mem2, root, i) <==> HasLow(mem, root, i)
    ensures r.Ok? && LowAfter(mem2, r.m.mem, root, vpn) ==> LowAfter(mem, r.m.mem, root, vpn)
  {
    hide HasLow;
  }

  lemma SharePageCount(m0: Phys, m: Phys, roots: map<nat, nat>, role: Roles, cur: nat, child: nat, vpn: nat)
    requires ForkInv(m0, m, roots, role, child, None) && cur in roots && child in roots && cur != child && DataPage(vpn)
    requires UserInv(m0, m, roots, cur, child, vpn) && Leaf(m.mem, roots[cur], vpn).perm == READ_ONLY
    ensures PageCost(m, SharePage(m, roots[cur], roots[child], vpn), roots[child], vpn, 0)
  {
    hide Good, ForkInv, Leaf, MapPage, ItPerm, ItFrame, UserInv, SharePage, FreeCount, Missing, HasLow;
    NotYetShared(m0, m, roots, role, cur, child, vpn, vpn);
    var f := Leaf(m.mem, roots[cur], vpn).frame;
    var role' := MapShared(m0, m, roots, role, child, vpn, f);
    SharePageResult(m0, m, roots, role, cur, child, vpn, role');
    SharedBound(m0, m, roots, role, child, f);
    MapCount(m, roots, role, child, vpn, f, READ_ONLY);
    var r := MapPage(m, roots[child], vpn, f, READ_ONLY);
    if r.Ok? {
      SharedCounted(m, roots, role, child, vpn, f);
      SameCount(r.m, Phys(r.m.kend, r.m.mem, r.m.rc[f := r.m.rc[f] + 1]));
    }
  }

  lemma SharedCounted(m: Phys, roots: map<nat, nat>, role: Roles, child: nat, vpn: nat, f: nat)
    requires Good(m, roots, role) && child in roots && DataPage(vpn) && f < NPAGES && m.rc[f] > 0
    requires MapPage(m, roots[child], vpn, f, READ_ONLY).Ok?
    ensures MapPage(m, roots[child], vpn, f, READ_ONLY).m.rc[f] > 0
  {
    hide Good, MapPage;
    var m1, role1, g := MapUpTo(m, roots, role, child, vpn, f, READ_ONLY);
  }

  /** Free pages needed to copy the process pages from `vpn` on. */
  function UserNeed(mem: Memory, cur: nat, vpn: nat, high: bool): nat {
    |Writables(mem, cur, vpn, USER_END)| + (if !high && FromHigh(mem, cur, vpn).Some? then 1 else 0)
  }

  /** The free pages run out between the page taken for a copy and the table to map it in. */
  predicate RunsOutAt(mem: Memory, cur: nat, vpn: nat, high: bool, free: nat) {
    && !high
    && FromHigh(mem, cur, vpn).Some?
    && MapsWritable(mem, cur, FromHigh(mem, cur, vpn).value)
    && free == |Writables(mem, cur, vpn, HIGH_FIRST)| + 1
  }

  lemma {:induction false} CopyUserCount(m0: Phys, m: Phys, roots: map<nat, nat>, role: Roles, cur: nat, child: nat, vpn: nat)
    requires ForkInv(m0, m, roots, role, child, None) && cur in roots && child in roots && cur != child && vpn <= USER_END
    requires UserInv(m0, m, roots, cur, child, vpn) && HasLow(m.mem, roots[child], 0)
    requires Node(m.mem, roots[child], LOW).Some?
    ensures var high := HasLow(m.mem, roots[child], 1);
            var r, n := CopyUser(m, roots[cur], roots[child], vpn), UserNeed(m0.mem, roots[cur], vpn, high);
            && (r.Ok? <==> FreeCount(m) >= n)
            && (r.Ok? ==> FreeCount(r.m) == FreeCount(m) - n)
            && (UserLeak(m, roots[cur], roots[child], vpn).Some?
                <==> RunsOutAt(m0.mem, roots[cur], vpn, high, FreeCount(m)))
    decreases USER_END - vpn
  {
    hide ForkInv, UserInv, CopyUserPage, PageLeak, FreeCount, HasLow, Node, MapsData, MapsWritable;
    if vpn < USER_END {
      UserPageCount(m0, m, roots, role, cur, child, vpn);
      NeedStep(m0.mem, roots[cur], vpn);
      var role', leak := CopyUserStep(m0, m, roots, role, cur, child, vpn);
      var r := CopyUserPage(m, roots[cur], roots[child], vpn);
      if r.Ok? {
        LowsUp(r.m.mem, roots[child]);
        CopyUserCount(m0, r.m, roots, role', cur, child, vpn + 1);
      }
    } else {
      WritablesNone(m0.mem, roots[cur], vpn, USER_END);
    }
  }

  lemma NeedStep(mem: Memory, cur: nat, vpn: nat)
    requires vpn < USER_END
    ensures |Writables(mem, cur, vpn, USER_END)|
         == |Writables(mem, cur, vpn + 1, USER_END)| + (if MapsWritable(mem, cur, vpn) then 1 else 0)
    ensures |Writables(mem, cur, vpn, HIGH_FIRST)|
         == if vpn >= HIGH_FIRST then 0
            else |Writables(mem, cur, vpn + 1, HIGH_FIRST)| + (if MapsWritable(mem, cur, vpn) then 1 else 0)
    ensures FromHigh(mem, cur, vpn)
         == if vpn >= HIGH_FIRST && MapsData(mem, cur, vpn) then Some(vpn) else FromHigh(mem, cur, vpn + 1)
    ensures MapsWritable(mem, cur, vpn) ==> MapsData(mem, cur, vpn)
  {
    hide Leaf;
    WritablesStep(mem, cur, vpn, USER_END);
    WritablesStep(mem, cur, vpn, HIGH_FIRST);
    if vpn >= HIGH_FIRST { WritablesNone(mem, cur, vpn, HIGH_FIRST); }
  }

  /** The cost of one page, and when its copying loses a page. */
  lemma UserPageCount(m0: Phys, m: Phys, roots: map<nat, nat>, role: Roles, cur: nat, child: nat, vpn: nat)
    requires ForkInv(m0, m, roots, role, child, None) && cur in roots && child in roots && cur != child && vpn < USER_END
    requires UserInv(m0, m, roots, cur, child, vpn) && HasLow(m.mem, roots[child], 0)
    requires Node(m.mem, roots[child], LOW).Some?
    ensures var r := CopyUserPage(m, roots[cur], roots[child], vpn);
            var data, writable := MapsData(m0.mem, roots[cur], vpn), MapsWritable(m0.mem, roots[cur], vpn);
            var table := vpn >= HIGH_FIRST && !HasLow(m.mem, roots[child], 1);
            var k := (if writable then 1 else 0) + (if data && table then 1 else 0);
            && (r.Ok? <==> FreeCount(m) >= k)
            && (r.Ok? ==>
                  && FreeCount(r.m) == FreeCount(m) - k
                  && HasLow(r.m.mem, roots[child], 0)
                  && (HasLow(r.m.mem, roots[child], 1) <==> HasLow(m.mem, roots[child], 1) || (data && table)))
            && (!r.Ok? ==>
                  (PageLeak(m, roots[cur], roots[child], vpn).Some? <==> writable && FreeCount(m) == 1))
  {
    hide ForkInv, UserInv, Good, Leaf, CopyPage, SharePage, ItPerm, FreeCount, HasLow, Missing, Node;
    ParentPage(m0, m, roots, role, cur, child, vpn);
    MissingTables(m.mem, roots[child], vpn);
    FindFreeCount(m);
    var e := Leaf(m.mem, roots[cur], vpn);
    if e.perm.p && DataPage(vpn) {
      if e.perm.w {
        NotYetCopied(m0, m, roots, cur, child, vpn);
        CopyPageCount(m0, m, roots, role, cur, child, vpn);
      } else {
        SharePageCount(m0, m, roots, role, cur, child, vpn);
      }
    }
  }

  lemma NotYetCopied(m0: Phys, m: Phys, roots: map<nat, nat>, cur: nat, child: nat, vpn: nat)
    requires cur in roots && child in roots && DataPage(vpn) && UserInv(m0, m, roots, cur, child, vpn)
    ensures !Leaf(m.mem, roots[child], vpn).perm.p
  {
    hide Leaf, Copied;
  }

  // ---- The whole call ----

  /** The pages a fork takes: a root, three tables for the low pages, one table more if the process has
      a page at or above `HIGH_FIRST`, and a copy of every writable page. */
  function ForkPages(s: State, pid: nat): nat
    requires Running(s, pid)
  {
    var root := s.procs[pid].root;
    4 + |Writables(s.m.mem, root, 0, USER_END)| + (if FirstData(s.m.mem, root, HIGH_FIRST).Some? then 1 else 0)
  }

  /** The number of free pages with which the fork fails in `try_map`, after `kalloc` has handed out
      the page for the copy of the first process page at or above `HIGH_FIRST`. */
  predicate LosesPage(s: State, pid: nat)
    requires Running(s, pid)
  {
    var root := s.procs[pid].root;
    var first := FirstData(s.m.mem, root, HIGH_FIRST);
    && first.Some? && MapsWritable(s.m.mem, root, first.value)
    && FreeCount(s.m) == 5 + |Writables(s.m.mem, root, 0, HIGH_FIRST)|
  }

  lemma CopyAllCount(m0: Phys, m: Phys, roots: map<nat, nat>, role: Roles, cur: nat, child: nat)
    requires ForkInv(m0, m, roots, role, child, None) && cur in roots && child in roots && cur != child
    requires forall v: nat :: v < USER_END ==> !Leaf(m.mem, roots[child], v).perm.p
    requires Node(m.mem, roots[child], Sub(Root, 0)).None?
    ensures var r, n := CopyAll(m, roots[cur], roots[child]), 3 + UserNeed(m0.mem, roots[cur], 0, false);
            && (r.Ok? <==> FreeCount(m) >= n)
            && (r.Ok? ==> FreeCount(r.m) == FreeCount(m) - n)
    ensures CopyLeak(m, roots[cur], roots[child]).Some?
       <==> FreeCount(m) >= 3 && RunsOutAt(m0.mem, roots[cur], 0, false, FreeCount(m) - 3)
  {
    hide ForkInv, UserInv, FreeCount, UserNeed, RunsOutAt, CopyKernel, MapConsole, CopyUser, UserLeak, MapPage, Good;
    var root := roots[child];
    BareTree(m.mem, root);
    CopyKernelCount(m0, m, roots, role, cur, child, KERNEL_FIRST);
    var role1 := CopyKernelGood(m0, m, roots, role, cur, child, KERNEL_FIRST);
    var r1 := CopyKernel(m, roots[cur], root, KERNEL_FIRST);
    if r1.Ok? {
      ConsoleCount(m0, r1.m, roots, role1, child);
      var role2 := ConsoleStep(m0, r1.m, roots, role1, cur, child);
      var r2 := MapConsole(r1.m, root);
      if r2.Ok? {
        LowsUp(r2.m.mem, root);
        CopyUserCount(m0, r2.m, roots, role2, cur, child, 0);
      }
    }
  }

  lemma ConsoleCount(m0: Phys, m: Phys, roots: map<nat, nat>, role: Roles, child: nat)
    requires ForkInv(m0, m, roots, role, child, None) && child in roots && LowOnly(m.mem, roots[child])
    ensures var r := MapConsole(m, roots[child]);
            var k := LowNeed(m.mem, roots[child]);
            && (r.Ok? <==> FreeCount(m) >= k)
            && (r.Ok? ==> FreeCount(r.m) == FreeCount(m) - k && LowOnly(r.m.mem, roots[child]) && HasLow(r.m.mem, roots[child], 0))
  {
    hide FreeCount, MapPage, LowOnly, LowNeed, HasLow;
    LowMapCount(m, roots, role, child, CONSOLE_PAGE, CONSOLE_PAGE, ALL_PERM);
  }

  lemma ForkCount(s: State, role: Roles, pid: nat, child: nat, f: nat)
    requires Safe(s, role) && Running(s, pid) && child < PID_MAX && s.procs[child].FreeSlot? && Free(s.m, f)
    ensures var m1 := Phys(s.m.kend, s.m.mem[f := ZeroPage()], s.m.rc[f := 1]);
            var r := CopyAll(m1, s.procs[pid].root, f);
            && (r.Ok? <==> FreeCount(s.m) >= ForkPages(s, pid))
            && (r.Ok? ==> FreeCount(r.m) == FreeCount(s.m) - ForkPages(s, pid))
            && (CopyLeak(m1, s.procs[pid].root, f).Some? <==> LosesPage(s, pid))
  {
    hide Good, CopyAll, CopyLeak, ForkInv, FreeCount, MapsData, MapsWritable, Leaf;
    var roots := Roots(s.procs)[child := f];
    var m1, role1 := ForkStart(s, role, child, f);
    TakenCount(s.m, f, m1.mem);
    EmptyTree(m1.mem, f, Sub(Root, 0));
    CopyAllCount(s.m, m1, roots, role1, pid, child);
  }

  /** A fork succeeds if and only if there is a free slot and there are as many free pages as it takes,
      and then it takes exactly as many. */
  lemma ForkSucceeds(s: State, role: Roles, pid: nat)
    requires Safe(s, role) && Running(s, pid)
    ensures var o := SysFork(s, pid);
            && o.Ret?
            && (o.value >= 0 <==> FindSlot(s.procs, 1).Some? && FreeCount(s.m) >= ForkPages(s, pid))
            && (o.value >= 0 ==> FreeCount(o.s.m) == FreeCount(s.m) - ForkPages(s, pid))
    ensures ForkLeak(s, pid).Some? <==> FindSlot(s.procs, 1).Some? && LosesPage(s, pid)
  {
    hide Good, CopyAll, CopyLeak, FreeCount, Writables, FirstData;
    FindFreeCount(s.m);
    var role', leak := ForkCorrect(s, role, pid);
    var slot, kp := FindSlot(s.procs, 1), FindFree(s.m, 0);
    if slot.Some? && kp.Some? {
      var f := kp.value;
      PagetableTaken(s.m);
      ForkCount(s, role, pid, slot.value, f);
    }
  }

  /** A fork gives back every count it does not keep, if and only if it does not run out of pages
      between a copy and its table; then one page stays counted for ever. */
  lemma ForkFailureExact(s: State, role: Roles, pid: nat)
    requires Safe(s, role) && Running(s, pid)
    ensures var o := SysFork(s, pid);
            && o.Ret?
            && (FindSlot(s.procs, 1).Some? && LosesPage(s, pid) ==>
                  && o.value == -1
                  && exists p: nat :: p < NPAGES && s.m.rc[p] == 0 && o.s.m.rc == s.m.rc[p := 1])
            && (o.value < 0 ==> (o.s.m.rc == s.m.rc <==> !(FindSlot(s.procs, 1).Some? && LosesPage(s, pid))))
  {
    hide Good, SysFork, ForkLeak, ForkInv, UserInv, FreeCount, FirstData;
    ForkSucceeds(s, role, pid);
    var role', leak := ForkCorrect(s, role, pid);
    var o := SysFork(s, pid);
    LostIsShort(s, pid);
    if o.value < 0 {
      if leak.None? {
        assert o.s.m.rc == s.m.rc;
      } else {
        assert o.s.m.rc[leak.value] == 1;
        assert o.s.m.rc == s.m.rc[leak.value := 1];
      }
    }
  }

  lemma LostIsShort(s: State, pid: nat)
    requires Running(s, pid)
    ensures LosesPage(s, pid) ==> FreeCount(s.m) < ForkPages(s, pid)
  {
    if LosesPage(s, pid) {
      var mem, root := s.m.mem, s.procs[pid].root;
      var v := FirstData(mem, root, HIGH_FIRST).value;
      hide FirstData, FreeCount, MapsWritable;
      var low, all := Writables(mem, root, 0, HIGH_FIRST), Writables(mem, root, 0, USER_END);
      assert low + {v} <= all;
      SubsetCard(low + {v}, all);
    }
  }
}

/**
 Whole runs of the machine: any sequence of program starts, system calls and user stores.
 */
module Runs {
  import opened Wrappers
  import opened Paging
  import opened PhysMem
  import opened PostOrder
  import opened TryMapTheory
  import opened Kernel
  import opened Invariant
  import opened Mapping
  import opened Copying
  import opened Forking
  import opened Calls
  import opened Allocation
  import opened Setup

  datatype Event =
    | Start(pid: nat, pages: seq<(nat, bool)>)
    | Fork(pid: nat)
    | Exit(pid: nat)
    | PageAlloc(pid: nat, addr: nat)
    | Store(pid: nat, vpn: nat, i: nat, word: Word)

  /** Who may do what.  A page_alloc must name a process page that is absent or not shared: the
      kernel does not check this, and `PageAllocExact` shows that memory stays sound exactly then. */
  ghost predicate Allowed(s: State, e: Event) {
    match e
    case Start(pid, pages) => pid < PID_MAX && s.procs[pid].FreeSlot? && UserPages(pages)
    case Fork(pid) => Running(s, pid)
    case Exit(pid) => Running(s, pid)
    case PageAlloc(pid, addr) =>
      && Running(s, pid) && addr < VA_END && addr % PAGESIZE == 0
      && DataPage(addr / PAGESIZE) && Private(s.m, s.procs[pid].root, addr / PAGESIZE)
    case Store(pid, vpn, i, _) => Running(s, pid) && vpn < USER_END && i < ENTRIES
  }

  /** One step; `None` means that the kernel stopped.  A store that faults changes nothing. */
  function Step(s: State, e: Event): Option<State> {
    match e
    case Start(pid, pages) => if pid < PID_MAX then ProcessSetup(s, pid, pages) else None
    case Fork(pid) =>
      if !Running(s, pid) then None
      else
        var o := SysFork(s, pid);
        if o.Halt? then None else Some(o.s)
    case Exit(pid) => if Running(s, pid) then Some(SysExit(s, pid)) else None
    case PageAlloc(pid, addr) =>
      if !(Running(s, pid) && addr < VA_END) then None
      else
        var o := SysPageAlloc(s, pid, addr);
        if o.Halt? then None else Some(o.s)
    case Store(pid, vpn, i, word) =>
      if !(Running(s, pid) && vpn < USER_END && i < ENTRIES) then None
      else
        var o := UserStore(s, pid, vpn, i, word);
        if o.None? then Some(s) else o
  }

  /** `s'` is reached from `s` by the allowed events `es`. */
  ghost predicate Run(s: State, es: seq<Event>, s': State)
    decreases |es|
  {
    if es == [] then s' == s
    else Allowed(s, es[0]) && Step(s, es[0]).Some? && Run(Step(s, es[0]).value, es[1..], s')
  }

  lemma OneStep(s: State, e: Event, s': State)
    requires Allowed(s, e) && Step(s, e) == Some(s')
    ensures Run(s, [e], s')
  {
    assert [e][1..] == [];
  }

  lemma TwoSteps(s: State, e: Event, s1: State, e1: Event, s2: State)
    requires Allowed(s, e) && Step(s, e) == Some(s1) && Allowed(s1, e1) && Step(s1, e1) == Some(s2)
    ensures Run(s, [e, e1], s2)
  {
    OneStep(s1, e1, s2);
    assert [e, e1][1..] == [e1];
  }

  /** The machine before the first program starts. */
  predicate Boot(s: State) {
    && (forall pid: nat :: pid < PID_MAX ==> s.procs[pid].FreeSlot?)
    && (forall p: nat :: p < NPAGES ==> s.m.rc[p] == 0)
  }

  lemma BootSafe(s: State)
    requires Boot(s)
    ensures SafeState(s)
  {
    var role: Roles := seq(NPAGES, _ => Unused);
    assert Roots(s.procs) == map[];
    assert Safe(s, role);
  }

  // ---- Safety of every step and run ----

  /** What `q` sees at page `v`, and whether it is the same in two states. */
  ghost predicate SameAt(s: State, s': State, q: nat, v: nat)
    requires Running(s, q) && Running(s', q)
  {
    var root, root' := s.procs[q].root, s'.procs[q].root;
    && ItPerm(s'.m.mem, root', v) == ItPerm(s.m.mem, root, v)
    && (ItPerm(s.m.mem, root, v).p ==> ItFrame(s'.m.mem, root', v) == ItFrame(s.m.mem, root, v))
    && (IsUserPage(ItPerm(s.m.mem, root, v), v) ==>
          && ItFrame(s.m.mem, root, v) < NPAGES
          && s'.m.mem[ItFrame(s.m.mem, root, v)] == s.m.mem[ItFrame(s.m.mem, root, v)])
  }

  /** Process `q` sees the same memory: the same mappings, rights and contents (console aside). */
  ghost predicate SameView(s: State, s': State, q: nat) {
    && Running(s, q) && Running(s', q)
    && forall v: nat :: v < USER_END ==> SameAt(s, s', q, v)
  }

  /** Same entries and untouched data pages give the same view. */
  lemma ViewFromEntries(s: State, role: Roles, s': State, role': Roles, q: nat)
    requires Safe(s, role) && Safe(s', role') && SameEntries(s, s', q)
    requires forall p: nat :: p < NPAGES && role[p].Data? && q in role[p].users ==> s'.m.mem[p] == s.m.mem[p]
    ensures SameView(s, s', q)
  {
    forall v: nat | v < USER_END ensures SameAt(s, s', q, v) {
      ItLeaf(s.m, Roots(s.procs), role, q, v);
      ItLeaf(s'.m, Roots(s'.procs), role', q, v);
    }
  }

  /** Every allowed step keeps the invariant, and no process but the actor sees any change. */
  lemma StepSafe(s: State, role: Roles, e: Event, q: nat) returns (role': Roles)
    requires Safe(s, role) && Allowed(s, e) && Step(s, e).Some?
    ensures Safe(Step(s, e).value, role')
    ensures Running(s, q) && q != e.pid ==> SameView(s, Step(s, e).value, q)
  {
    hide Good, Leaf, SameView, ProcessSetup, SysFork, SysExit, SysPageAlloc, UserStore;
    var s' := Step(s, e).value;
    match e
    case Start(pid, pages) =>
      role' := ProcessSetupCorrect(s, role, pid, pages);
      if Running(s, q) { UsedView(s, role, s', role', q); }
    case Fork(pid) =>
      var leak;
      role', leak := ForkCorrect(s, role, pid);
      if Running(s, q) { UsedView(s, role, s', role', q); }
    case Exit(pid) =>
      ExitCorrect(s, role, pid);
      role' := DropRoles(role, pid);
      if Running(s, q) && q != pid { UsedView(s, role, s', role', q); }
    case PageAlloc(pid, addr) =>
      role' := PageAllocCorrect(s, role, pid, addr / PAGESIZE);
      if Running(s, q) && q != pid { AllocView(s, role, s', role', pid, addr / PAGESIZE, q); }
    case Store(pid, vpn, i, word) =>
      UserStoreCorrect(s, role, pid, vpn, i, word);
      role' := role;
      if Running(s, q) && q != pid { StoreView(s, role, s', pid, vpn, q); }
  }

  lemma UsedView(s: State, role: Roles, s': State, role': Roles, q: nat)
    requires Safe(s, role) && Safe(s', role') && SameEntries(s, s', q) && UsedUnchanged(s.m, s'.m)
    ensures SameView(s, s', q)
  {
    forall p: nat | p < NPAGES && role[p].Data? ensures s.m.rc[p] != 0 { assert CountOk(role[p], s.m.rc[p]); }
    ViewFromEntries(s, role, s', role', q);
  }

  lemma AllocView(s: State, role: Roles, s': State, role': Roles, pid: nat, vpn: nat, q: nat)
    requires Safe(s, role) && Safe(s', role') && Running(s, q) && q != pid && Running(s, pid) && s'.procs == s.procs
    requires OthersKept(s.m, s'.m, role, pid)
    requires AllocDone(s, s', pid, vpn) || SameLeaves(s.m.mem, s'.m.mem, Roots(s.procs))
    ensures SameView(s, s', q)
  {
    forall p: nat | p < NPAGES && role[p].Data? ensures s.m.rc[p] != 0 { assert CountOk(role[p], s.m.rc[p]); }
    assert q in Roots(s.procs);
    ViewFromEntries(s, role, s', role', q);
  }

  lemma StoreView(s: State, role: Roles, s': State, pid: nat, vpn: nat, q: nat)
    requires Safe(s, role) && Safe(s', role) && Running(s, q) && q != pid && Running(s, pid) && s'.procs == s.procs
    requires SameLeaves(s.m.mem, s'.m.mem, Roots(s.procs))
    requires forall p: nat :: p < NPAGES && p != CONSOLE_PAGE && s'.m.mem[p] != s.m.mem[p] ==>
               role[p] == Data(true, map[pid := vpn])
    ensures SameView(s, s', q)
  {
    assert q in Roots(s.procs);
    assert CountOk(role[CONSOLE_PAGE], s.m.rc[CONSOLE_PAGE]) && !Allocatable(s.m.kend, CONSOLE_PAGE);
    ViewFromEntries(s, role, s', role, q);
  }

  lemma ViewTrans(a: State, b: State, c: State, q: nat)
    requires SameView(a, b, q) && SameView(b, c, q)
    ensures SameView(a, c, q)
  {
    forall v: nat | v < USER_END ensures SameAt(a, c, q, v) {
      assert SameAt(a, b, q, v) && SameAt(b, c, q, v);
    }
  }

  /** Safety and isolation over whole runs: the invariant holds at the end, and a process that takes
      no step in the run sees the same memory at the end as at the beginning. */
  lemma {:induction false} RunIsolates(s: State, role: Roles, es: seq<Event>, s': State, q: nat)
    requires Safe(s, role) && Run(s, es, s')
    ensures SafeState(s')
    ensures Running(s, q) && (forall i :: 0 <= i < |es| ==> es[i].pid != q) ==> SameView(s, s', q)
    decreases |es|
  {
    hide Good, Leaf, Step, Allowed;
    if es == [] {
      if Running(s, q) { ViewRefl(s, role, q); }
    } else {
      var s1 := Step(s, es[0]).value;
      var role1 := StepSafe(s, role, es[0], q);
      RunIsolates(s1, role1, es[1..], s', q);
      if Running(s, q) && forall i :: 0 <= i < |es| ==> es[i].pid != q {
        assert es[0].pid != q;
        assert forall i :: 0 <= i < |es[1..]| ==> es[1..][i].pid != q;
        ViewTrans(s, s1, s', q);
      }
    }
  }

  lemma ViewRefl(s: State, role: Roles, q: nat)
    requires Safe(s, role) && Running(s, q)
    ensures SameView(s, s, q)
  {
    ViewFromEntries(s, role, s, role, q);
  }

  lemma RunFromBoot(s: State, es: seq<Event>, s': State)
    requires Boot(s) && Run(s, es, s')
    ensures SafeState(s')
  {
    BootSafe(s);
    var role :| Safe(s, role);
    RunIsolates(s, role, es, s', 0);
  }

  /** No system call ever stops the kernel on an assertion in a safe state. */
  lemma NeverStops(s: State, role: Roles, e: Event)
    requires Safe(s, role) && Allowed(s, e) && !e.Start?
    ensures Step(s, e).Some?
  {
    hide Good, SysFork, SysPageAlloc, Private, FreePagetable;
    match e
    case Start(_, _) =>
    case Fork(pid) => var role', leak := ForkCorrect(s, role, pid);
    case Exit(pid) =>
    case PageAlloc(pid, addr) => var role' := PageAllocCorrect(s, role, pid, addr / PAGESIZE);
    case Store(_, _, _, _) =>
  }
}

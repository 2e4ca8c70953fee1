/**
 The memory side of the WeensyOS system calls (weensyos/kernel.cc:176-249, 402-554) as functions on
 physical memory, reference counts and the process table.
 */
module Kernel {
  import opened Wrappers
  import opened Paging
  import opened PhysMem
  import opened PostOrder

  const PID_MAX := 16
  const USER_FIRST := 0x100      // PROC_START_ADDR in pages
  const USER_END := 0x300        // MEMSIZE_VIRTUAL in pages

  const READ_ONLY := Perm(true, false, true)
  const KERNEL_ONLY := Perm(true, true, false)

  datatype Proc = FreeSlot | Live(root: nat)
  type ProcTable = s: seq<Proc> | |s| == PID_MAX witness seq(PID_MAX, _ => FreeSlot)

  datatype State = State(m: Phys, procs: ProcTable)

  // ---- What a `vmiter` at the start of page `vpn` reports ----

  function WalkPage(mem: Memory, root: nat, vpn: nat): Walked {
    Walk(mem, root, vpn * PAGESIZE)
  }

  function ItPerm(mem: Memory, root: nat, vpn: nat): Perm {
    PermAt(mem, WalkPage(mem, root, vpn))
  }

  /** The frame of `it.pa()`; read only where the page is present. */
  function ItFrame(mem: Memory, root: nat, vpn: nat): nat {
    match PaAt(mem, WalkPage(mem, root, vpn), vpn * PAGESIZE)
    case None => 0
    case Some(pa) => pa / PAGESIZE
  }

  /** `vmiter(pt, va).try_map(...)`; the caller must meet the assertions of `try_map`. */
  predicate Mappable(m: Phys, pt: nat, vpn: nat, frame: nat, perm: Perm) {
    CanMap(m, WalkPage(m.mem, pt, vpn), vpn * PAGESIZE, frame, perm)
  }

  datatype Result = Ok(m: Phys) | NoMemory(m: Phys) | Panic

  function MapPage(m: Phys, pt: nat, vpn: nat, frame: nat, perm: Perm): Result {
    if Mappable(m, pt, vpn, frame, perm) then
      var g := TryMap(m, WalkPage(m.mem, pt, vpn), vpn * PAGESIZE, frame, perm);
      if g.ok then Ok(g.m) else NoMemory(g.m)
    else
      Panic
  }

  function KallocPagetable(m: Phys): (Option<nat>, Phys) {
    var (kp, m1) := Kalloc(m);
    if kp.Some? then (kp, Phys(m1.kend, m1.mem[kp.value := ZeroPage()], m1.rc)) else (kp, m1)
  }

  // ---- fork ----

  /** Copies the kernel mapping of page `vpn`, if there is one. */
  function CopyKernelPage(m: Phys, cur: nat, pt: nat, vpn: nat): Result {
    var p := ItPerm(m.mem, cur, vpn);
    if p.p then MapPage(m, pt, vpn, ItFrame(m.mem, cur, vpn), p) else Ok(m)
  }

  /** Copies the kernel mappings from page `vpn` on. */
  function CopyKernel(m: Phys, cur: nat, pt: nat, vpn: nat): Result
    decreases KERNEL_TOP - vpn
  {
    if vpn >= KERNEL_TOP then Ok(m)
    else
      var r := CopyKernelPage(m, cur, pt, vpn);
      if r.Ok? then CopyKernel(r.m, cur, pt, vpn + 1) else r
  }

  /** A writable page: a fresh page with the same contents. */
  function CopyPage(m: Phys, cur: nat, pt: nat, vpn: nat): Result {
    var (kp, m1) := Kalloc(m);
    if kp.None? then NoMemory(m1)
    else
      var src := ItFrame(m1.mem, cur, vpn);
      if src >= NPAGES then Panic
      else MapPage(Phys(m1.kend, m1.mem[kp.value := m1.mem[src]], m1.rc), pt, vpn, kp.value, ALL_PERM)
  }

  /** A read-only page: the same page, counted once more. */
  function SharePage(m: Phys, cur: nat, pt: nat, vpn: nat): Result {
    var frame := ItFrame(m.mem, cur, vpn);
    var r := MapPage(m, pt, vpn, frame, READ_ONLY);
    if !r.Ok? then r
    else
      var again := ItFrame(r.m.mem, cur, vpn);
      if again >= NPAGES then Panic
      else Ok(Phys(r.m.kend, r.m.mem, r.m.rc[again := Increment(r.m.rc[again])]))
  }

  predicate IsUserPage(p: Perm, vpn: nat) {
    p.p && p.u && vpn != CONSOLE_PAGE
  }

  /** Copies or shares the process page `vpn`, if there is one. */
  function CopyUserPage(m: Phys, cur: nat, pt: nat, vpn: nat): Result {
    var p := ItPerm(m.mem, cur, vpn);
    if !IsUserPage(p, vpn) then Ok(m)
    else if p.w then CopyPage(m, cur, pt, vpn)
    else SharePage(m, cur, pt, vpn)
  }

  /** Copies the process mappings from page `vpn` on. */
  function CopyUser(m: Phys, cur: nat, pt: nat, vpn: nat): Result
    decreases USER_END - vpn
  {
    if vpn >= USER_END then Ok(m)
    else
      var r := CopyUserPage(m, cur, pt, vpn);
      if r.Ok? then CopyUser(r.m, cur, pt, vpn + 1) else r
  }

  function MapConsole(m: Phys, pt: nat): Result {
    MapPage(m, pt, CONSOLE_PAGE, CONSOLE_PAGE, ALL_PERM)
  }

  /** The three copying phases, stopping at the first that fails. */
  function CopyAll(m: Phys, cur: nat, pt: nat): Result {
    var r1 := CopyKernel(m, cur, pt, KERNEL_FIRST);
    if !r1.Ok? then r1
    else
      var r2 := MapConsole(r1.m, pt);
      if !r2.Ok? then r2 else CopyUser(r2.m, cur, pt, 0)
  }

  /** The first free slot of the process table at or after `i`. */
  function FindSlot(procs: ProcTable, i: nat): (r: Option<nat>)
    requires i <= PID_MAX
    ensures r.Some? ==> i <= r.value < PID_MAX && procs[r.value].FreeSlot?
    ensures forall j: nat :: i <= j < (if r.Some? then r.value else PID_MAX) ==> procs[j].Live?
    decreases PID_MAX - i
  {
    if i == PID_MAX then None
    else if procs[i].FreeSlot? then Some(i)
    else FindSlot(procs, i + 1)
  }

  // ---- exit ----

  function FreeUserPage(m: Phys, root: nat, vpn: nat): Phys {
    if IsUserPage(ItPerm(m.mem, root, vpn), vpn) then Kfree(m, Some(ItFrame(m.mem, root, vpn))) else m
  }

  function FreeUser(m: Phys, root: nat, vpn: nat): Phys
    decreases USER_END - vpn
  {
    if vpn >= USER_END then m else FreeUser(FreeUserPage(m, root, vpn), root, vpn + 1)
  }

  function FreeTables(m: Phys, root: nat, paths: seq<Path>): Phys
    decreases |paths|
  {
    if paths == [] then m
    else FreeTables(Kfree(m, Node(m.mem, root, paths[0])), root, paths[1..])
  }

  function FreePagetable(m: Phys, root: nat): Phys {
    var m1 := FreeUser(m, root, 0);
    Kfree(FreeTables(m1, root, Tables(m1.mem, root)), Some(root))
  }

  // ---- System calls ----

  datatype Outcome = Halt | Ret(value: int, s: State)

  predicate Running(s: State, pid: nat) {
    pid < PID_MAX && s.procs[pid].Live?
  }

  function SysFork(s: State, pid: nat): Outcome
    requires Running(s, pid)
  {
    var slot := FindSlot(s.procs, 1);
    if slot.None? then Ret(-1, s)
    else
      var (kp, m1) := KallocPagetable(s.m);
      if kp.None? then Ret(-1, State(m1, s.procs))
      else
        match CopyAll(m1, s.procs[pid].root, kp.value)
        case Panic => Halt
        case NoMemory(m2) => Ret(-1, State(FreePagetable(m2, kp.value), s.procs))
        case Ok(m2) => Ret(slot.value, State(m2, s.procs[slot.value := Live(kp.value)]))
  }

  function SysExit(s: State, pid: nat): State
    requires Running(s, pid)
  {
    State(FreePagetable(s.m, s.procs[pid].root), s.procs[pid := FreeSlot])
  }

  function SysPageAlloc(s: State, pid: nat, addr: nat): Outcome
    requires Running(s, pid) && addr < VA_END
  {
    var (kp, m1) := Kalloc(s.m);
    if kp.None? then Ret(-1, State(m1, s.procs))
    else
      var m2 := Phys(m1.kend, m1.mem[kp.value := ZeroPage()], m1.rc);
      var w := Walk(m2.mem, s.procs[pid].root, addr);
      if !CanMap(m2, w, addr, kp.value, ALL_PERM) then Halt
      else
        var g := TryMap(m2, w, addr, kp.value, ALL_PERM);
        Ret(if g.ok then 0 else -1, State(g.m, s.procs))
  }

  /** A store by user code; `None` is a page fault. */
  function UserStore(s: State, pid: nat, vpn: nat, i: nat, word: Word): Option<State>
    requires Running(s, pid) && vpn < USER_END && i < ENTRIES
  {
    var p := ItPerm(s.m.mem, s.procs[pid].root, vpn);
    var f := ItFrame(s.m.mem, s.procs[pid].root, vpn);
    if p == ALL_PERM && f < NPAGES then
      Some(State(Phys(s.m.kend, SetEntry(s.m.mem, f, i, word), s.m.rc), s.procs))
    else None
  }

  // ---- Starting a program ----

  /** The identity kernel mappings of `kernel_pagetable`, from page `vpn` on. */
  function SetupKernel(m: Phys, pt: nat, vpn: nat): Result
    decreases KERNEL_TOP - vpn
  {
    if vpn >= KERNEL_TOP then Ok(m)
    else
      var r := MapPage(m, pt, vpn, vpn, KERNEL_ONLY);
      if r.Ok? then SetupKernel(r.m, pt, vpn + 1) else r
  }

  /** Each page of the program image gets a page of its own. */
  function SetupImage(m: Phys, pt: nat, pages: seq<(nat, bool)>): Result
    decreases |pages|
  {
    if pages == [] then Ok(m)
    else
      var (kp, m1) := Kalloc(m);
      if kp.None? then Panic
      else
        var r := MapPage(m1, pt, pages[0].0, kp.value, Perm(true, pages[0].1, true));
        if r.Ok? then SetupImage(r.m, pt, pages[1..]) else r
  }

  function SetupAll(m: Phys, pt: nat, pages: seq<(nat, bool)>): Result {
    var r1 := SetupKernel(m, pt, KERNEL_FIRST);
    if !r1.Ok? then r1
    else
      var r2 := MapConsole(r1.m, pt);
      if !r2.Ok? then r2 else SetupImage(r2.m, pt, pages)
  }

  /** `process_setup`: kernel mappings, console, image pages, stack page; `map` panics on failure. */
  function ProcessSetup(s: State, pid: nat, pages: seq<(nat, bool)>): Option<State>
    requires pid < PID_MAX
  {
    var (kp, m1) := KallocPagetable(s.m);
    if kp.None? then None
    else
      var r := SetupAll(m1, kp.value, pages + [(USER_END - 1, true)]);
      if r.Ok? then Some(State(r.m, s.procs[pid := Live(kp.value)])) else None
  }
}

/**
 Physical memory with its page allocator, and the iterator `vmiter`, as objects changed in place
 (weensyos/kernel.cc:122-173, weensyos/k-vmiter.cc:6-99, weensyos/k-vmiter.hh:13-289).

 Each method is proved against the functions of `PhysMem` and `Paging`: whatever the steps taken,
 an iterator stands where a fresh walk from the root to its address ends.
 */
module VmIterClass {
  import opened Wrappers
  import opened Paging
  import opened PhysMem
  import opened TryMapTheory

  lemma FindFreeStep(m: Phys, p: nat)
    requires p <= NPAGES
    ensures FindFree(m, p) == if p == NPAGES then None else if Free(m, p) then Some(p) else FindFree(m, p + 1)
  {
  }

  class PhysicalMemory {
    const kend: nat
    const pages: array<Page>
    const refcount: array<Count>

    ghost predicate Valid() {
      pages.Length == NPAGES && refcount.Length == NPAGES
    }

    ghost function View(): Phys
      requires Valid()
      reads pages, refcount
    {
      Phys(kend, pages[..], refcount[..])
    }

    method Kalloc() returns (kptr: Option<nat>)
      requires Valid()
      modifies pages, refcount
      ensures (kptr, View()) == PhysMem.Kalloc(old(View()))
      ensures kptr.Some? ==> kptr.value < 512 && !KernelOwned(kend, kptr.value) && old(refcount[..])[kptr.value] == 0
      ensures kptr.None? ==> forall p: nat :: p < 512 && !KernelOwned(kend, p) ==> old(refcount[..])[p] != 0
    {
      hide FindFree, Allocatable, KernelOwned;
      KallocExact(View());
      var pageno: nat := 0;
      var tries := 0;
      ghost var m := View();
      while tries != NPAGES
        invariant 0 <= tries <= NPAGES && pageno == tries % NPAGES
        invariant View() == m
        invariant FindFree(m, 0) == FindFree(m, tries)
        decreases NPAGES - tries
      {
        FindFreeStep(m, pageno);
        if Allocatable(kend, pageno) && refcount[pageno] == 0 {
          refcount[pageno] := Increment(refcount[pageno]);
          pages[pageno] := FillPage();
          assert pages[..] == m.mem[pageno := FillPage()];
          return Some(pageno);
        }
        pageno := (pageno + 1) % NPAGES;
        tries := tries + 1;
      }
      FindFreeStep(m, NPAGES);
      return None;
    }

    method Kfree(kptr: Option<nat>)
      requires Valid()
      modifies refcount
      ensures View() == PhysMem.Kfree(old(View()), kptr)
    {
      if kptr.None? || kptr.value == 0 { return; }
      var pageno := kptr.value;
      if pageno >= NPAGES { return; }
      if !Allocatable(kend, pageno) { return; }
      if refcount[pageno] <= 0 { return; }
      refcount[pageno] := refcount[pageno] - 1;
    }
  }

  // ---- Address arithmetic ----

  /** One past the last address that shares all bits above the low `lbits` with `va`. */
  function PastBlock(va: nat, lbits: int): nat {
    ((va / Span(lbits)) * Span(lbits) + Span(lbits)) % VA_END
  }

  /** Addresses that agree above an entry's table take the same path to that table. */
  lemma SamePrefix(a: nat, b: nat, lbits: nat)
    requires IsLevel(lbits) && lbits < INITIAL_LBITS
    requires a / Span(lbits + 9) == b / Span(lbits + 9)
    ensures PathTo(a, lbits) == PathTo(b, lbits) && (Canonical(a) <==> Canonical(b))
  {
    DivSteps(a);
    DivSteps(b);
    PathParts(a);
    PathParts(b);
    CanonicalBlock(a);
    CanonicalBlock(b);
  }

  lemma PathParts(a: nat)
    ensures PathTo(a, 39) == Root
    ensures PathTo(a, 30) == Sub(Root, a / 0x80_0000_0000 % ENTRIES)
    ensures PathTo(a, 21) == Sub(PathTo(a, 30), a / 0x4000_0000 % ENTRIES)
    ensures PathTo(a, 12) == Sub(PathTo(a, 21), a / 0x20_0000 % ENTRIES)
  {
  }

  lemma CanonicalBlock(a: nat)
    ensures Canonical(a) <==> a / 0x80_0000_0000 < 0x100 || a / 0x80_0000_0000 >= 0x1FF_FF00
  {
  }

  /** The same-level step: going on from a table already reached equals a fresh walk. */
  lemma StepFromTable(mem: Memory, root: nat, a: nat, b: nat)
    requires Canonical(a)
    requires var w := Walk(mem, root, a);
             w.lbits < INITIAL_LBITS && a / Span(w.lbits + 9) == b / Span(w.lbits + 9)
    ensures var w := Walk(mem, root, a);
            && w.pep.Slot? && IsLevel(w.lbits)
            && Descend(mem, Walked(Slot(w.pep.page, Index(b, w.lbits)), w.lbits, w.perm), b) == Walk(mem, root, b)
  {
    WalkEnd(mem, root, a);
    var w := Walk(mem, root, a);
    SamePrefix(a, b, w.lbits);
    Resume(mem, root, b, w.lbits);
  }

  /** All addresses below one entry that is not followed have the same walk. */
  lemma SameBlock(mem: Memory, root: nat, a: nat, b: nat)
    requires Canonical(a)
    requires var w := Walk(mem, root, a); a / Span(w.lbits) == b / Span(w.lbits)
    ensures Walk(mem, root, b) == Walk(mem, root, a)
  {
    WalkEnd(mem, root, a);
    var w := Walk(mem, root, a);
    if w.lbits < INITIAL_LBITS {
      assert a / Span(w.lbits + 9) == b / Span(w.lbits + 9) by { DivSteps(a); DivSteps(b); }
      StepFromTable(mem, root, a, b);
    } else {
      CanonicalBlock(a);
      CanonicalBlock(b);
    }
  }

  /** The levels a walk can end on, and where it starts. */
  lemma WalkLevels(mem: Memory, root: nat, va: nat)
    ensures var w := Walk(mem, root, va);
            if Canonical(va) then
              IsLevel(w.lbits) && w.pep.Slot? && w.pep.idx == Index(va, w.lbits)
              && w == Descend(mem, Walked(Slot(root, Index(va, INITIAL_LBITS)), INITIAL_LBITS, ALL_PERM), va)
            else
              w == Walked(ZeroPe, NONCANONICAL_LBITS, NO_PERM)
  {
    if Canonical(va) { WalkEnd(mem, root, va); }
  }

  /** The shared zero entry leads nowhere. */
  lemma DoneStays(mem: Memory, pep: Pep)
    ensures pep == ZeroPe ==> !Entry(mem, pep).perm.p
  {
  }

  lemma StaysThere(mem: Memory, w: Walked, va: nat)
    requires !Entry(mem, w.pep).perm.p
    ensures Descend(mem, w, va) == w
  {
  }

  function AddrPerm(mem: Memory, root: nat, va: nat): Perm {
    PermAt(mem, Walk(mem, root, va))
  }

  /** The end of the block around `va`, without the wrap-around at the top of the address space. */
  function BlockEnd(va: nat, lbits: int): nat {
    if lbits == NONCANONICAL_LBITS then VA_HIGHMIN else (va / Span(lbits)) * Span(lbits) + Span(lbits)
  }

  lemma BlockEndBounds(va: nat, lbits: int)
    requires va < VA_END && (IsLevel(lbits) || (lbits == NONCANONICAL_LBITS && !Canonical(va)))
    ensures va < BlockEnd(va, lbits) <= VA_END && BlockEnd(va, lbits) - va < VA_END
    ensures (if lbits == NONCANONICAL_LBITS then VA_HIGHMIN else PastBlock(va, lbits)) == BlockEnd(va, lbits) % VA_END
  {
  }

  lemma WrapDistance(va: nat, end: nat)
    requires va < end <= VA_END && end - va < VA_END
    ensures (end % VA_END - va) % VA_END == end - va
  {
    if end == VA_END {
      assert (0 - va) % VA_END == VA_END - va;
    }
  }

  lemma InBlock(va: nat, b: nat, lbits: int)
    requires IsLevel(lbits) && va <= b < BlockEnd(va, lbits)
    ensures b / Span(lbits) == va / Span(lbits)
  {
  }

  lemma BlockUniform(mem: Memory, root: nat, va: nat, b: nat)
    requires va < VA_END && va <= b < BlockEnd(va, Walk(mem, root, va).lbits)
    ensures b < VA_END && AddrPerm(mem, root, b) == AddrPerm(mem, root, va)
  {
    var w := Walk(mem, root, va);
    if Canonical(va) {
      WalkEnd(mem, root, va);
      BlockEndBounds(va, w.lbits);
      InBlock(va, b, w.lbits);
      hide Walk;
      SameBlock(mem, root, va, b);
    }
  }

  /** From `va` to the end of an absent block nothing is mapped. */
  lemma SkippedAbsent(mem: Memory, root: nat, va: nat)
    requires va < VA_END
    ensures var w := Walk(mem, root, va);
            var l := if w.lbits > PAGEOFFBITS && !PermAt(mem, w).p then w.lbits else PAGEOFFBITS;
            var end := if PastBlock(va, l) == 0 then VA_END else PastBlock(va, l);
            && va < end
            && forall b: nat :: va <= b < end && b / PAGESIZE != va / PAGESIZE ==> AddrPerm(mem, root, b) == NO_PERM
  {
    var w := Walk(mem, root, va);
    if Canonical(va) { WalkEnd(mem, root, va); }
    BlockEndBounds(va, w.lbits);
    var l := if w.lbits > PAGEOFFBITS && !PermAt(mem, w).p then w.lbits else PAGEOFFBITS;
    var end := if PastBlock(va, l) == 0 then VA_END else PastBlock(va, l);
    SkipEnd(va, w.lbits);
    SkipEnd(va, PAGEOFFBITS);
    hide Walk, PermAt, PastBlock, BlockEnd;
    forall b: nat | va <= b < end && b / PAGESIZE != va / PAGESIZE ensures AddrPerm(mem, root, b) == NO_PERM {
      if l == PAGEOFFBITS { SkipPage(va, b); } else { BlockUniform(mem, root, va, b); }
    }
  }

  /** The step taken past a block stays within what the walk to `va` decides. */
  lemma SkipEnd(va: nat, lbits: int)
    requires va < VA_END && (IsLevel(lbits) || (lbits == NONCANONICAL_LBITS && !Canonical(va)))
    ensures var end := if PastBlock(va, lbits) == 0 then VA_END else PastBlock(va, lbits);
            va < end <= BlockEnd(va, lbits)
  {
    BlockEndBounds(va, lbits);
    if lbits == NONCANONICAL_LBITS {
      var q := va / 0x8000_0000_0000;
      assert 1 <= q < 0x1_FFFF;
      assert PastBlock(va, lbits) == (q + 1) * 0x8000_0000_0000;
    } else {
      hide PastBlock, BlockEnd;
    }
  }

  lemma SkipPage(va: nat, b: nat)
    requires va < VA_END && va <= b < (if PastBlock(va, PAGEOFFBITS) == 0 then VA_END else PastBlock(va, PAGEOFFBITS))
    ensures b / PAGESIZE == va / PAGESIZE
  {
    BlockEndBounds(va, PAGEOFFBITS);
    assert BlockEnd(va, PAGEOFFBITS) == va / 0x1000 * 0x1000 + 0x1000;
  }

  /** The address `b` exists and is mapped with at least the rights `d`. */
  predicate AllowsAt(mem: Memory, root: nat, b: nat, d: Perm) {
    b < VA_END && Meet(AddrPerm(mem, root, b), d) == d
  }

  ghost predicate Allows(mem: Memory, root: nat, lo: nat, hi: nat, d: Perm) {
    forall b: nat :: lo <= b < hi ==> AllowsAt(mem, root, b, d)
  }

  /** The rights common to all of [lo, hi), as `range_perm` reports them. */
  ghost predicate CommonRights(mem: Memory, root: nat, lo: nat, hi: nat, p: Perm) {
    && (!p.p ==> p == NO_PERM)
    && forall d: Perm :: d.p ==> (Meet(p, d) == d <==> Allows(mem, root, lo, hi, d))
  }

  /** From `va` on, up to `end`, every address exists and has the rights found at `va`. */
  ghost predicate Uniform(mem: Memory, root: nat, va: nat, end: nat) {
    forall b: nat, d: Perm :: va <= b < end ==> AllowsAt(mem, root, b, d) == AllowsAt(mem, root, va, d)
  }

  lemma AllowsBlock(mem: Memory, root: nat, lo: nat, va: nat, hi: nat, hi': nat, d: Perm)
    requires lo <= va < hi && va < hi' && Uniform(mem, root, va, hi) && Uniform(mem, root, va, hi')
    requires Allows(mem, root, lo, hi, d)
    ensures Allows(mem, root, lo, hi', d)
  {
    hide AllowsAt;
    assert AllowsAt(mem, root, va, d);
  }

  lemma CommonRightsBlock(mem: Memory, root: nat, lo: nat, va: nat, hi: nat, hi': nat, p: Perm)
    requires lo <= va < hi && va < hi' && Uniform(mem, root, va, hi) && Uniform(mem, root, va, hi')
    requires CommonRights(mem, root, lo, hi, p)
    ensures CommonRights(mem, root, lo, hi', p)
  {
    forall d: Perm | d.p ensures Allows(mem, root, lo, hi', d) <==> Allows(mem, root, lo, hi, d) {
      if Allows(mem, root, lo, hi, d) { AllowsBlock(mem, root, lo, va, hi, hi', d); }
      if Allows(mem, root, lo, hi', d) { AllowsBlock(mem, root, lo, va, hi', hi, d); }
    }
    hide Allows, Uniform;
  }

  /** Every address in the block that a walk ends in has the access rights found there. */
  lemma BlockIsUniform(mem: Memory, root: nat, va: nat)
    requires va < VA_END
    ensures Uniform(mem, root, va, BlockEnd(va, Walk(mem, root, va).lbits))
  {
    forall b: nat, d: Perm | va <= b < BlockEnd(va, Walk(mem, root, va).lbits)
      ensures AllowsAt(mem, root, b, d) == AllowsAt(mem, root, va, d)
    {
      BlockUniform(mem, root, va, b);
    }
  }

  function Common(p: Perm, q: Perm): Perm {
    if Meet(p, q).p then Meet(p, q) else NO_PERM
  }

  lemma AllowsNext(mem: Memory, root: nat, lo: nat, va: nat, d: Perm)
    requires va < VA_END && lo <= va
    ensures Allows(mem, root, lo, va + 1, d)
       <==> Allows(mem, root, lo, va, d) && Meet(AddrPerm(mem, root, va), d) == d
  {
    hide AddrPerm, Meet;
    assert AllowsAt(mem, root, va, d) <==> Meet(AddrPerm(mem, root, va), d) == d;
  }

  lemma CommonRightsNext(mem: Memory, root: nat, lo: nat, va: nat, p: Perm)
    requires va < VA_END && lo <= va && CommonRights(mem, root, lo, va, p)
    ensures CommonRights(mem, root, lo, va + 1, Common(p, AddrPerm(mem, root, va)))
  {
    hide AddrPerm, Allows;
    var q := AddrPerm(mem, root, va);
    forall d: Perm | d.p ensures Meet(Common(p, q), d) == d <==> Allows(mem, root, lo, va + 1, d) {
      AllowsNext(mem, root, lo, va, d);
      assert Meet(p, d) == d <==> Allows(mem, root, lo, va, d);
    }
  }

  lemma AllowsLess(mem: Memory, root: nat, lo: nat, hi: nat, hi': nat, d: Perm)
    requires hi <= hi' && Allows(mem, root, lo, hi', d)
    ensures Allows(mem, root, lo, hi, d)
  {
    hide AddrPerm, Meet;
  }

  /** Once some address refuses, the whole range has no common rights. */
  lemma NoRights(mem: Memory, root: nat, lo: nat, hi: nat, hi': nat)
    requires CommonRights(mem, root, lo, hi, NO_PERM) && hi <= hi'
    ensures CommonRights(mem, root, lo, hi', NO_PERM)
  {
    hide Allows;
    forall d: Perm | d.p ensures Meet(NO_PERM, d) != d && !Allows(mem, root, lo, hi', d) {
      assert !Allows(mem, root, lo, hi, d);
      if Allows(mem, root, lo, hi', d) { AllowsLess(mem, root, lo, hi, hi', d); }
    }
  }

  class VmIter {
    const m: PhysicalMemory
    const pt: nat
    var pep: Pep
    var lbits: nat
    var perm: Perm
    var va: nat

    ghost function Position(): Walked
      reads this
    {
      Walked(pep, lbits, perm)
    }

    /** The iterator reports what a fresh walk to `va` finds, or has run off the end. */
    ghost predicate Valid()
      reads this, m.pages, m.refcount
    {
      && m.Valid() && va < VA_END
      && (if lbits == DONE_LBITS then va == 0 && pep == ZeroPe && perm == NO_PERM
          else Position() == Walk(m.View().mem, pt, va))
    }

    constructor (m: PhysicalMemory, pt: nat, va: nat)
      requires m.Valid() && va < VA_END
      ensures Valid() && this.m == m && this.pt == pt && this.va == va && lbits != DONE_LBITS
    {
      this.m, this.pt := m, pt;
      this.pep, this.lbits, this.perm, this.va := Slot(pt, 0), INITIAL_LBITS, ALL_PERM, 0;
      new;
      RealFind(va, false);
    }

    function Read(): (e: Word)
      requires m.Valid()
      reads this, m, m.pages, m.refcount
      ensures e == Entry(m.View().mem, pep)
    {
      if pep.Slot? && pep.page < NPAGES && pep.idx < ENTRIES then m.pages[pep.page][pep.idx] else ZERO
    }

    function PermNow(): (p: Perm)
      requires m.Valid()
      reads this, m, m.pages, m.refcount
      ensures p == PermAt(m.View().mem, Position())
    {
      var ph := Meet(Read().perm, perm);
      if ph.p then ph else NO_PERM
    }

    function PaNow(): (pa: Option<nat>)
      requires m.Valid()
      reads this, m, m.pages, m.refcount
      ensures pa == PaAt(m.View().mem, Position(), va)
    {
      var e := Read();
      if e.perm.p then
        var frame := if lbits > PAGEOFFBITS then e.frame - e.frame % 2 else e.frame;
        Some(frame * PAGESIZE + va % Span(lbits))
      else None
    }

    function LastVa(): nat
      reads this
    {
      if lbits == NONCANONICAL_LBITS then VA_HIGHMIN else PastBlock(va, lbits)
    }

    /** Follow entries down as far as they point to tables. */
    method Down()
      requires m.Valid() && (IsLevel(lbits) || !Entry(m.View().mem, pep).perm.p)
      modifies this
      ensures va == old(va)
      ensures Position() == Descend(m.View().mem, old(Position()), va)
    {
      while lbits > PAGEOFFBITS && PointsDown(Read())
        invariant va == old(va)
        invariant IsLevel(lbits) || !Entry(m.View().mem, pep).perm.p
        invariant Descend(m.View().mem, Position(), va) == Descend(m.View().mem, old(Position()), va)
        decreases lbits
      {
        perm := Meet(perm, Read().perm);
        lbits := lbits - PAGEINDEXBITS;
        pep := Slot(Read().frame, Index(va, lbits));
      }
    }

    method RealFind(va': nat, stepping: bool)
      requires Valid() || (m.Valid() && lbits == INITIAL_LBITS)
      requires va' < VA_END
      modifies this
      ensures Valid() && va == va'
      ensures lbits == DONE_LBITS <==> stepping && va' == 0
    {
      hide Walk, Index, Canonical, Descend, Span;
      Restart(va', stepping);
      va := va';
      WalkLevels(m.View().mem, pt, va);
      DoneStays(m.View().mem, pep);
      if lbits == DONE_LBITS { StaysThere(m.View().mem, Position(), va); }
      Down();
    }

    /** Where the walk to `va'` goes on from: the end, the same table, or the root. */
    method Restart(va': nat, stepping: bool)
      requires Valid() || (m.Valid() && lbits == INITIAL_LBITS)
      requires va' < VA_END
      modifies this`pep, this`lbits, this`perm
      ensures lbits == DONE_LBITS <==> stepping && va' == 0
      ensures lbits == DONE_LBITS ==> pep == ZeroPe && perm == NO_PERM
      ensures lbits != DONE_LBITS ==>
                && (IsLevel(lbits) || pep == ZeroPe)
                && Descend(m.View().mem, Position(), va') == Walk(m.View().mem, pt, va')
    {
      hide Walk, Index, Canonical, Descend;
      ghost var mem := m.View().mem;
      WalkLevels(mem, pt, va);
      WalkLevels(mem, pt, va');
      if stepping && va' == 0 {
        lbits := DONE_LBITS;
        perm := NO_PERM;
        pep := ZeroPe;
      } else if lbits < INITIAL_LBITS && va / Span(lbits + PAGEINDEXBITS) == va' / Span(lbits + PAGEINDEXBITS) {
        StepFromTable(mem, pt, va, va');
        var curidx := pep.idx;
        pep := Slot(pep.page, pep.idx + Index(va', lbits) - curidx);
      } else if !Canonical(va') {
        lbits := NONCANONICAL_LBITS;
        perm := NO_PERM;
        pep := ZeroPe;
        DoneStays(mem, pep);
        StaysThere(mem, Position(), va');
      } else {
        lbits := INITIAL_LBITS;
        perm := ALL_PERM;
        pep := Slot(pt, Index(va', lbits));
      }
    }

    method Find(va': nat)
      requires Valid() && va' < VA_END
      modifies this
      ensures Valid() && va == va' && (lbits == DONE_LBITS ==> old(lbits) == DONE_LBITS && va' == 0)
    {
      if va' != va {
        RealFind(va', false);
      }
    }

    /** `+=`, with the wrap-around of 64-bit addresses. */
    method Advance(delta: int)
      requires Valid()
      modifies this
      ensures Valid() && va == (old(va) + delta) % VA_END
      ensures lbits == DONE_LBITS ==> old(lbits) == DONE_LBITS && va == 0
    {
      Find((va + delta) % VA_END);
    }

    /** Move to the next page, or past a whole absent block. */
    method Next()
      requires Valid() && lbits != DONE_LBITS
      modifies this
      ensures Valid() && (lbits == DONE_LBITS <==> va == 0)
      ensures va == PastBlock(old(va), if old(lbits > PAGEOFFBITS && !PermNow().p) then old(lbits) else PAGEOFFBITS)
      ensures forall b: nat :: old(va) <= b < (if va == 0 then VA_END else va) && b / PAGESIZE != old(va) / PAGESIZE ==>
                AddrPerm(m.View().mem, pt, b) == NO_PERM
    {
      SkippedAbsent(m.View().mem, pt, va);
      var l: nat := PAGEOFFBITS;
      if lbits > PAGEOFFBITS && !PermNow().p {
        l := lbits;
      }
      RealFind(PastBlock(va, l), true);
    }

    method NextRange()
      requires Valid() && lbits != DONE_LBITS
      modifies this
      ensures Valid() && va == old(LastVa()) && (lbits == DONE_LBITS <==> va == 0)
    {
      RealFind(LastVa(), true);
    }

    /** The rights common to the `sz` bytes from `va` on; the iterator ends where it started. */
    method RangePerm(sz: nat) returns (p: Perm)
      requires Valid() && lbits != DONE_LBITS && sz < VA_END
      modifies this
      ensures Valid() && va == old(va) && Position() == old(Position())
      ensures sz == 0 ==> p == ALL_PERM
      ensures sz > 0 ==> CommonRights(m.View().mem, pt, va, va + sz, p)
    {
      hide CommonRights, Walk, Descend, PastBlock, BlockEnd, Scanned;
      p := if sz > 0 then PermNow() else ALL_PERM;
      var sva: nat, left: nat := va, sz;
      ghost var mem := m.View().mem;
      ScanStarts(sz);
      while p != NO_PERM && left > (LastVa() - va) % VA_END
        invariant Valid() && mem == m.View().mem && (lbits == DONE_LBITS ==> p == NO_PERM)
        invariant lbits == DONE_LBITS ==> sva > 0
        invariant if sz == 0 then p == ALL_PERM && left == 0 else Scanned(sva, sz, left, p)
        decreases left
      {
        left, p := RangeStep(sva, sz, left, p);
      }
      if sz > 0 { ScanEnds(sva, sz, left, p); }
      Find(sva);
    }

    /** The first `sz - left` bytes of the range from `sva` on are looked at, all of them if the iterator is
        at the end. */
    ghost predicate Scanned(sva: nat, sz: nat, left: nat, p: Perm)
      reads this, m, m.pages, m.refcount
    {
      && Valid()
      && (if lbits == DONE_LBITS then p == NO_PERM && CommonRights(m.View().mem, pt, sva, sva + sz, p)
          else sva <= va && left + va == sva + sz && left > 0 && CommonRights(m.View().mem, pt, sva, va + 1, p))
    }

    ghost method ScanStarts(sz: nat)
      requires Valid() && lbits != DONE_LBITS
      ensures sz > 0 ==> Scanned(va, sz, sz, PermNow())
    {
      hide CommonRights, Walk;
      StartOfRange(m.View().mem, pt, va);
    }

    ghost method ScanEnds(sva: nat, sz: nat, left: nat, p: Perm)
      requires Scanned(sva, sz, left, p) && (p == NO_PERM || left <= (LastVa() - va) % VA_END)
      ensures CommonRights(m.View().mem, pt, sva, sva + sz, p)
    {
      hide CommonRights, Walk, PastBlock, BlockEnd;
      if lbits != DONE_LBITS {
        BlockFacts(m.View().mem);
        RangeEnd(m.View().mem, pt, sva, va, sva + sz, p);
      }
    }

    /** One round of the loop: on to the next block. */
    method RangeStep(ghost sva: nat, ghost sz: nat, left: nat, p: Perm) returns (left': nat, p': Perm)
      requires sz < VA_END && Scanned(sva, sz, left, p) && lbits != DONE_LBITS && p != NO_PERM && left > (LastVa() - va) % VA_END
      modifies this
      ensures Scanned(sva, sz, left', p') && left' < left && m.View().mem == old(m.View().mem)
      ensures Valid() && (lbits == DONE_LBITS ==> p' == NO_PERM && sva > 0)
    {
      hide CommonRights, Walk, Descend, PastBlock, BlockEnd;
      ghost var mem := m.View().mem;
      BlockFacts(mem);
      RangeRights(mem, pt, sva, va, p);
      left' := left - (LastVa() - va) % VA_END;
      NextRange();
      if va == 0 {
        PastTheEnd(mem, pt, sva, sva + sz);
        p' := NO_PERM;
      } else {
        p' := Meet(p, PermNow());
      }
    }

    /** The size of the current block, as computed with wrap-around. */
    ghost method BlockFacts(mem: Memory)
      requires Valid() && lbits != DONE_LBITS && mem == m.View().mem
      ensures va < BlockEnd(va, lbits) <= VA_END && lbits == Walk(mem, pt, va).lbits
      ensures (LastVa() - va) % VA_END == BlockEnd(va, lbits) - va
      ensures LastVa() == BlockEnd(va, lbits) % VA_END
    {
      if Canonical(va) { WalkEnd(mem, pt, va); }
      BlockEndBounds(va, lbits);
      hide Walk, BlockEnd, PastBlock, Span;
      WrapDistance(va, BlockEnd(va, lbits));
    }

    /** Change the mapping at `va`, growing the page table where needed. */
    method TryMap(frame: nat, perm': Perm) returns (r: int)
      requires Valid() && lbits != DONE_LBITS && Canonical(va) && TreeCounted(m.View(), pt)
      requires CanMap(m.View(), Position(), va, frame, perm')
      modifies this, m.pages, m.refcount
      ensures m.Valid() && va == old(va)
      ensures var t := PhysMem.TryMap(old(m.View()), old(Position()), va, frame, perm');
              m.View() == t.m && r == if t.ok then 0 else -1
    {
      ghost var m0, w0 := m.View(), Position();
      while lbits > PAGEOFFBITS && perm' != NO_PERM
        invariant va == old(va) && Valid() && lbits != DONE_LBITS && TreeCounted(m.View(), pt)
        invariant CanMap(m.View(), Position(), va, frame, perm')
        invariant PhysMem.TryMap(m.View(), Position(), va, frame, perm') == PhysMem.TryMap(m0, w0, va, frame, perm')
        decreases lbits
      {
        ghost var m1, w1 := m.View(), Position();
        assert !Read().perm.p;
        var ok := LinkTablePage();
        if !ok { TryMapOutOfPages(m1, w1, va, frame, perm'); return -1; }
        TryMapStep(m1, pt, va, frame, perm', FindFree(m1, 0).value);
        Down();
      }
      if lbits == PAGEOFFBITS {
        m.pages[pep.page] := m.pages[pep.page][pep.idx := EntryWord(frame, perm')];
      }
      return 0;
    }

    /** Whether the assertions of `try_map` hold. */
    predicate Asserts(frame: nat, perm': Perm)
      requires m.Valid()
      reads this, m, m.pages, m.refcount
      ensures Asserts(frame, perm') <==> CanMap(m.View(), Position(), va, frame, perm')
    {
      && va % PAGESIZE == 0
      && Meet(perm', perm) == perm'
      && pep.Slot? && pep.page < NPAGES && pep.idx < ENTRIES && IsLevel(lbits)
      && (lbits > PAGEOFFBITS && perm' != NO_PERM ==> !Read().perm.p)
    }

    /** Allocate a zeroed page and link it at the current entry. */
    method LinkTablePage() returns (ok: bool)
      requires m.Valid() && pep.Slot? && pep.page < NPAGES && pep.idx < ENTRIES
      modifies m.pages, m.refcount
      ensures ok <==> FindFree(old(m.View()), 0).Some?
      ensures !ok ==> m.View() == old(m.View())
      ensures ok ==>
        var f := FindFree(old(m.View()), 0).value;
        m.View() == Phys(m.kend, LinkTable(old(m.View()).mem, pep.page, pep.idx, f), old(m.View()).rc[f := 1])
    {
      ghost var m1 := m.View();
      var kp := m.Kalloc();
      if kp.None? { return false; }
      m.pages[kp.value] := ZeroPage();
      m.pages[pep.page] := m.pages[pep.page][pep.idx := EntryWord(kp.value, ALL_PERM)];
      assert m.View().mem == LinkTable(m1.mem, pep.page, pep.idx, kp.value);
      return true;
    }
  }

  lemma StartOfRange(mem: Memory, root: nat, va: nat)
    requires va < VA_END
    ensures CommonRights(mem, root, va, va + 1, AddrPerm(mem, root, va))
  {
    hide Allows, Walk;
    forall d: Perm ensures Allows(mem, root, va, va + 1, d) <==> Meet(AddrPerm(mem, root, va), d) == d {
      AllowsNext(mem, root, va, va, d);
      EmptyRange(mem, root, va, d);
    }
  }

  lemma EmptyRange(mem: Memory, root: nat, va: nat, d: Perm)
    ensures Allows(mem, root, va, va, d)
  {
  }

  /** One round of `range_perm`: past the block around `va`, then the first address after it. */
  lemma RangeRights(mem: Memory, root: nat, lo: nat, va: nat, p: Perm)
    requires va < VA_END && lo <= va && CommonRights(mem, root, lo, va + 1, p) && p != NO_PERM
    ensures var end := BlockEnd(va, Walk(mem, root, va).lbits);
            va < end < VA_END ==>
              CommonRights(mem, root, lo, end + 1, Meet(p, AddrPerm(mem, root, end)))
  {
    hide Walk, BlockEnd, Allows, Uniform;
    var end := BlockEnd(va, Walk(mem, root, va).lbits);
    if va < end < VA_END {
      BlockIsUniform(mem, root, va);
      UniformFirst(mem, root, va, end);
      CommonRightsBlock(mem, root, lo, va, va + 1, end, p);
      CommonRightsNext(mem, root, lo, end, p);
      assert AddrPerm(mem, root, end).p || AddrPerm(mem, root, end) == NO_PERM;
    }
  }

  lemma UniformFirst(mem: Memory, root: nat, va: nat, end: nat)
    requires va < end && Uniform(mem, root, va, end)
    ensures Uniform(mem, root, va, va + 1)
    ensures forall hi: nat :: hi <= end ==> Uniform(mem, root, va, hi)
  {
    hide AllowsAt;
  }

  lemma RangeEnd(mem: Memory, root: nat, lo: nat, va: nat, hi: nat, p: Perm)
    requires va < VA_END && lo <= va < hi && CommonRights(mem, root, lo, va + 1, p)
    requires p == NO_PERM || hi <= BlockEnd(va, Walk(mem, root, va).lbits)
    ensures CommonRights(mem, root, lo, hi, p)
  {
    hide Walk, BlockEnd, CommonRights, Uniform;
    if p == NO_PERM {
      NoRights(mem, root, lo, va + 1, hi);
    } else {
      BlockIsUniform(mem, root, va);
      UniformFirst(mem, root, va, BlockEnd(va, Walk(mem, root, va).lbits));
      CommonRightsBlock(mem, root, lo, va, va + 1, hi, p);
    }
  }

  lemma PastTheEnd(mem: Memory, root: nat, lo: nat, hi: nat)
    requires lo <= VA_END < hi
    ensures CommonRights(mem, root, lo, hi, NO_PERM)
  {
    hide Walk, PermAt;
    forall d: Perm | d.p ensures Meet(NO_PERM, d) != d && !Allows(mem, root, lo, hi, d) {
      NotInRange(mem, root, lo, hi, d);
    }
  }

  lemma NotInRange(mem: Memory, root: nat, lo: nat, hi: nat, d: Perm)
    requires lo <= VA_END < hi
    ensures !Allows(mem, root, lo, hi, d)
  {
    hide Walk, PermAt;
    assert !AllowsAt(mem, root, VA_END, d);
  }

  lemma TryMapOutOfPages(m: Phys, w: Walked, va: nat, frame: nat, perm: Perm)
    requires CanMap(m, w, va, frame, perm) && w.lbits > PAGEOFFBITS && perm != NO_PERM && FindFree(m, 0).None?
    ensures PhysMem.TryMap(m, w, va, frame, perm) == Grown(false, m, w)
  {
  }

  /** The call goes on from the linked table as if it had just started there. */
  lemma TryMapStep(m: Phys, root: nat, va: nat, frame: nat, perm: Perm, f: nat)
    requires TreeCounted(m, root) && Canonical(va) && FindFree(m, 0) == Some(f) && perm != NO_PERM
    requires var w := Walk(m.mem, root, va); w.lbits > PAGEOFFBITS && CanMap(m, w, va, frame, perm)
    ensures var w := Walk(m.mem, root, va);
            && w.pep.Slot? && w.pep.page < NPAGES && w.pep.idx < ENTRIES && IsLevel(w.lbits)
            && var m2 := Phys(m.kend, LinkTable(m.mem, w.pep.page, w.pep.idx, f), m.rc[f := 1]);
            && var w' := Descend(m2.mem, w, va);
            && w' == Walk(m2.mem, root, va) && w'.lbits == w.lbits - 9
            && CanMap(m2, w', va, frame, perm) && TreeCounted(m2, root)
            && PhysMem.TryMap(m2, w', va, frame, perm) == PhysMem.TryMap(m, w, va, frame, perm)
  {
    LinkedWalk(m, root, va, f);
    hide Walk, TreeCounted, Canonical, FindFree, PhysMem.TryMap;
    TryMapFrom(m, Walk(m.mem, root, va), va, frame, perm, f);
  }

  lemma TryMapFrom(m: Phys, w: Walked, va: nat, frame: nat, perm: Perm, f: nat)
    requires FindFree(m, 0) == Some(f) && perm != NO_PERM && w.lbits > PAGEOFFBITS && CanMap(m, w, va, frame, perm)
    ensures var m2 := Phys(m.kend, LinkTable(m.mem, w.pep.page, w.pep.idx, f), m.rc[f := 1]);
            var w' := Walked(Slot(f, Index(va, w.lbits - 9)), w.lbits - 9, Meet(w.perm, ALL_PERM));
            CanMap(m2, w', va, frame, perm) ==>
              PhysMem.TryMap(m2, w', va, frame, perm) == PhysMem.TryMap(m, w, va, frame, perm)
  {
    hide FindFree, Index, Grow, LinkTable, Entry;
    GrowRound(m, w, va);
  }

  /** One round of `try_map`: the new table is linked where the walk stopped. */
  lemma LinkedWalk(m: Phys, root: nat, va: nat, f: nat)
    requires TreeCounted(m, root) && Canonical(va) && FindFree(m, 0) == Some(f)
    requires var w := Walk(m.mem, root, va); w.lbits > PAGEOFFBITS && !Entry(m.mem, w.pep).perm.p
    ensures var w := Walk(m.mem, root, va);
            && w.pep.Slot? && w.pep.page < NPAGES && w.pep.idx < ENTRIES && IsLevel(w.lbits) && w.pep.page != f
            && var mem' := LinkTable(m.mem, w.pep.page, w.pep.idx, f);
            && var w' := Walked(Slot(f, Index(va, w.lbits - 9)), w.lbits - 9, Meet(w.perm, ALL_PERM));
            && Walk(mem', root, va) == w' && Descend(mem', w, va) == w'
            && !Entry(mem', w'.pep).perm.p
            && TreeCounted(Phys(m.kend, mem', m.rc[f := 1]), root)
  {
    hide Walk, PathTo, TreeCounted, UsedKept;
    Linked(m, root, va, f);
    var w := Walk(m.mem, root, va);
    var mem' := LinkTable(m.mem, w.pep.page, w.pep.idx, f);
    assert Entry(mem', w.pep) == EntryWord(f, ALL_PERM);
  }
}

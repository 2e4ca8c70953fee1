/**
 `ptiter` as an object changed in place (weensyos/k-vmiter.cc:102-137, weensyos/k-vmiter.hh:127-158):
 it keeps no stack, and starts again from the root whenever it goes up a level, yet it visits the
 table pages in the order of `PostOrder.Tables`.
 */
module PtIterClass {
  import opened Wrappers
  import opened Paging
  import opened PhysMem
  import opened TryMapTheory
  import opened PostOrder
  import opened VmIterClass

  /** The tables still to be visited from entry `i` of `q` on, to the end of the whole tree. */
  ghost function After(mem: Memory, root: nat, q: Path, i: nat): seq<Path>
    requires Depth(q) <= 2 && i <= ENTRIES
    decreases Depth(q), 1
  {
    Below(mem, root, q, i) + Climb(mem, root, q)
  }

  ghost function Climb(mem: Memory, root: nat, q: Path): seq<Path>
    requires Depth(q) <= 2
    decreases Depth(q), 0
  {
    if q == Root || q.i >= ENTRIES then [] else [q] + After(mem, root, q.up, q.i + 1)
  }

  lemma BelowCases(mem: Memory, root: nat, q: Path, i: nat)
    requires Depth(q) <= 2 && i < ENTRIES
    ensures Below(mem, root, q, i) == Subtree(mem, root, q, i) + Below(mem, root, q, i + 1)
    ensures !HasTable(mem, root, Sub(q, i)) ==> Subtree(mem, root, q, i) == []
    ensures HasTable(mem, root, Sub(q, i)) && Depth(q) == 2 ==> Subtree(mem, root, q, i) == [Sub(q, i)]
    ensures HasTable(mem, root, Sub(q, i)) && Depth(q) < 2 ==>
              Subtree(mem, root, q, i) == Below(mem, root, Sub(q, i), 0) + [Sub(q, i)]
  {
    hide HasTable;
  }

  lemma ClimbSub(mem: Memory, root: nat, q: Path, i: nat)
    requires Depth(q) < 2 && i < ENTRIES
    ensures Climb(mem, root, Sub(q, i)) == [Sub(q, i)] + After(mem, root, q, i + 1)
  {
    hide After;
  }

  lemma Assoc<T>(a: seq<T>, b: seq<T>, c: seq<T>, d: seq<T>)
    ensures ((a + b) + c) + d == a + (b + (c + d)) && (b + c) + d == b + (c + d) && [] + c == c
  {
  }

  /** An entry without a table is passed over; a table is preceded by what is below it. */
  lemma AfterStep(mem: Memory, root: nat, q: Path, i: nat)
    requires Depth(q) <= 2 && i < ENTRIES
    ensures !HasTable(mem, root, Sub(q, i)) ==> After(mem, root, q, i) == After(mem, root, q, i + 1)
    ensures HasTable(mem, root, Sub(q, i)) && Depth(q) == 2 ==>
              After(mem, root, q, i) == [Sub(q, i)] + After(mem, root, q, i + 1)
    ensures HasTable(mem, root, Sub(q, i)) && Depth(q) < 2 ==>
              After(mem, root, q, i) == After(mem, root, Sub(q, i), 0)
  {
    hide HasTable, Below, Subtree, Climb;
    BelowCases(mem, root, q, i);
    var rest := Below(mem, root, q, i + 1);
    if HasTable(mem, root, Sub(q, i)) && Depth(q) < 2 {
      ClimbSub(mem, root, q, i);
      Assoc(Below(mem, root, Sub(q, i), 0), [Sub(q, i)], rest, Climb(mem, root, q));
    } else {
      Assoc([], Subtree(mem, root, q, i), rest, Climb(mem, root, q));
    }
  }

  lemma AfterEnd(mem: Memory, root: nat, q: Path)
    requires Depth(q) <= 2
    ensures After(mem, root, q, ENTRIES) == Climb(mem, root, q)
  {
  }

  // ---- Stepping the address ----

  function NextAddress(va: nat, lbits: nat): nat {
    var n := PastBlock(va, lbits);
    if Canonical(n) then n else VA_HIGHMIN
  }

  predicate TableLevel(lbits: nat) {
    lbits == 21 || lbits == 30 || lbits == 39
  }

  lemma NextEntry(va: nat, lbits: nat)
    requires TableLevel(lbits) && Canonical(va) && va < VA_END
    ensures PastBlock(va, lbits) / Span(lbits + 9) != va / Span(lbits + 9) <==> Index(va, lbits) == ENTRIES - 1
    ensures Index(va, lbits) == ENTRIES - 1 && lbits == INITIAL_LBITS ==> PastBlock(va, lbits) == 0
    ensures Index(va, lbits) < ENTRIES - 1 ==>
              var n := NextAddress(va, lbits);
              && va < n < VA_END && Canonical(n) && n % Span(lbits) == 0
              && Index(n, lbits) == Index(va, lbits) + 1
              && (lbits < INITIAL_LBITS ==> n / Span(lbits + 9) == va / Span(lbits + 9))
  {
    if lbits == 39 { NextTop(va); }
    else if lbits == 30 { NextMiddle(va); }
    else { NextBottom(va); }
  }

  /** The top-level block of a canonical address, and where the next one begins. */
  lemma TopBlock(va: nat)
    requires Canonical(va) && va < VA_END
    ensures var q := va / 0x80_0000_0000;
            && (q < 0x100 || 0x1FF_FF00 <= q < 0x200_0000)
            && va / Span(48) == q / 512 && Index(va, 39) == q % 512
            && PastBlock(va, 39) == (if q == 0x1FF_FFFF then 0 else (q + 1) * 0x80_0000_0000)
  {
  }

  lemma TopAddress(va: nat, q: nat)
    requires Canonical(va) && va < VA_END && q == va / 0x80_0000_0000 && (q < 0x100 || 0x1FF_FF00 <= q < 0x1FF_FFFF)
    requires PastBlock(va, 39) == (q + 1) * 0x80_0000_0000
    ensures var n := NextAddress(va, 39);
            va < n < VA_END && Canonical(n) && n % Span(39) == 0 && Index(n, 39) == q % 512 + 1
  {
    if q == 0xFF {
      assert NextAddress(va, 39) == VA_HIGHMIN;
    } else {
      assert NextAddress(va, 39) == (q + 1) * 0x80_0000_0000;
    }
  }

  lemma NextTop(va: nat)
    requires Canonical(va) && va < VA_END
    ensures var q := va / 0x80_0000_0000;
            && PastBlock(va, 39) == (q + 1) * 0x80_0000_0000 % VA_END
            && (Index(va, 39) == ENTRIES - 1 <==> PastBlock(va, 39) == 0)
    ensures PastBlock(va, 39) / Span(48) != va / Span(48) <==> Index(va, 39) == ENTRIES - 1
    ensures Index(va, 39) < ENTRIES - 1 ==>
              var n := NextAddress(va, 39);
              va < n < VA_END && Canonical(n) && n % Span(39) == 0 && Index(n, 39) == Index(va, 39) + 1
  {
    hide Index, PastBlock, NextAddress, Canonical;
    TopBlock(va);
    var q := va / 0x80_0000_0000;
    if q < 0x1FF_FFFF { TopAddress(va, q); }
  }

  lemma NextMiddle(va: nat)
    requires Canonical(va) && va < VA_END
    ensures PastBlock(va, 30) / Span(39) != va / Span(39) <==> Index(va, 30) == ENTRIES - 1
    ensures Index(va, 30) < ENTRIES - 1 ==>
              var n := NextAddress(va, 30);
              && va < n < VA_END && Canonical(n) && n % Span(30) == 0
              && Index(n, 30) == Index(va, 30) + 1 && n / Span(39) == va / Span(39)
  {
    hide Canonical;
    var q := va / 0x4000_0000;
    var n := (q + 1) * 0x4000_0000;
    assert PastBlock(va, 30) == n % VA_END;
    hide PastBlock;
    Multiples30(va, q, n);
    if q % 512 < 511 { SameHalf(va, n); }
  }

  lemma Multiples30(va: nat, q: nat, n: nat)
    requires va < VA_END && q == va / 0x4000_0000 && n == (q + 1) * 0x4000_0000
    ensures va / 0x80_0000_0000 == q / 512 && va < n
    ensures q % 512 < 511 ==>
              && n < VA_END && n % VA_END == n && n % 0x4000_0000 == 0 && n / 0x4000_0000 == q + 1
              && n / 0x80_0000_0000 == q / 512 && (q + 1) % 512 == q % 512 + 1
    ensures q % 512 == 511 ==> n % VA_END / 0x80_0000_0000 != q / 512
  {
    DivSteps(va);
    DivSteps(n);
    NextQuotient(q);
    assert q < 0x4_0000_0000;
    if q % 512 == 511 {
      if q == 0x3_FFFF_FFFF { assert n == VA_END; } else { assert n < VA_END; }
    }
  }

  /** Addresses in the same half-terabyte are canonical together. */
  lemma SameHalf(va: nat, n: nat)
    requires Canonical(va) && n / 0x80_0000_0000 == va / 0x80_0000_0000
    ensures Canonical(n)
  {
    CanonicalBlock(va);
    CanonicalBlock(n);
    hide Canonical;
  }

  lemma NextBottom(va: nat)
    requires Canonical(va) && va < VA_END
    ensures PastBlock(va, 21) / Span(30) != va / Span(30) <==> Index(va, 21) == ENTRIES - 1
    ensures Index(va, 21) < ENTRIES - 1 ==>
              var n := NextAddress(va, 21);
              && va < n < VA_END && Canonical(n) && n % Span(21) == 0
              && Index(n, 21) == Index(va, 21) + 1 && n / Span(30) == va / Span(30)
  {
    hide Canonical;
    var q := va / 0x20_0000;
    var n := (q + 1) * 0x20_0000;
    assert PastBlock(va, 21) == n % VA_END;
    hide PastBlock;
    Multiples21(va, q, n);
    if q % 512 < 511 { SameHalf(va, n); }
  }

  lemma Multiples21(va: nat, q: nat, n: nat)
    requires va < VA_END && q == va / 0x20_0000 && n == (q + 1) * 0x20_0000
    ensures va / 0x4000_0000 == q / 512 && va < n
    ensures q % 512 < 511 ==>
              && n < VA_END && n % VA_END == n && n % 0x20_0000 == 0 && n / 0x20_0000 == q + 1
              && n / 0x4000_0000 == q / 512 && (q + 1) % 512 == q % 512 + 1
              && n / 0x80_0000_0000 == va / 0x80_0000_0000
    ensures q % 512 == 511 ==> n % VA_END / 0x4000_0000 != q / 512
  {
    DivSteps(va);
    DivSteps(n);
    NextQuotient(q);
    assert q < 0x800_0000_0000;
    if q % 512 == 511 {
      if q == 0x7FF_FFFF_FFFF { assert n == VA_END; } else { assert n < VA_END; }
    }
  }

  lemma NextQuotient(q: nat)
    ensures (q + 1) * 0x4000_0000 / 0x4000_0000 == q + 1 && (q + 1) * 0x4000_0000 % 0x4000_0000 == 0
    ensures (q + 1) * 0x20_0000 / 0x20_0000 == q + 1 && (q + 1) * 0x20_0000 % 0x20_0000 == 0
    ensures (q + 1) / 512 == q / 512 + (if q % 512 == 511 then 1 else 0)
    ensures (q + 1) % 512 == if q % 512 == 511 then 0 else q % 512 + 1
  {
  }

  // ---- The loop of `down` ----

  /** The walk stands at entry Index(va, lbits) of page `f`. */
  ghost predicate At(mem: Memory, root: nat, va: nat, lbits: nat, f: nat) {
    && TableLevel(lbits) && Canonical(va) && va < VA_END && TreeOk(mem, root)
    && Node(mem, root, PathTo(va, lbits)) == Some(f)
  }

  function Here(va: nat, lbits: nat): Path {
    Sub(PathTo(va, lbits), Index(va, lbits))
  }

  /** What is still to come when the current entry, or with `skip` the next one, has not been looked at. */
  ghost function Todo(mem: Memory, root: nat, va: nat, lbits: nat, skip: bool): seq<Path> {
    var q := PathTo(va, lbits);
    if Depth(q) <= 2 then After(mem, root, q, Index(va, lbits) + if skip then 1 else 0) else []
  }

  /** The walk has left table Here(va, stop) and goes down from the root to it, to visit it. */
  ghost predicate Returning(mem: Memory, root: nat, va: nat, lbits: nat, stop: nat, todo: seq<Path>) {
    && (stop == 30 || stop == 39) && TableLevel(lbits) && lbits >= stop
    && HasTable(mem, root, Here(va, stop))
    && todo == [Here(va, stop)] + Todo(mem, root, va, stop, true)
  }

  predicate LeadsDown(mem: Memory, va: nat, lbits: nat, f: nat) {
    PointsDown(Entry(mem, Slot(f, Index(va, lbits))))
  }

  lemma AtFacts(mem: Memory, root: nat, va: nat, lbits: nat, f: nat)
    requires At(mem, root, va, lbits, f)
    ensures f < NPAGES && Depth(PathTo(va, lbits)) * 9 == INITIAL_LBITS - lbits && Index(va, lbits) < ENTRIES
    ensures HasTable(mem, root, Here(va, lbits)) <==> LeadsDown(mem, va, lbits, f)
    ensures PathTo(va, INITIAL_LBITS) == Root
  {
    DepthPathTo(va, lbits);
  }

  lemma Found(mem: Memory, root: nat, va: nat, f: nat)
    requires At(mem, root, va, 21, f) && LeadsDown(mem, va, 21, f)
    ensures Todo(mem, root, va, 21, false) == [Here(va, 21)] + Todo(mem, root, va, 21, true)
  {
    AtFacts(mem, root, va, 21, f);
    AfterStep(mem, root, PathTo(va, 21), Index(va, 21));
  }

  lemma StepEnd(mem: Memory, root: nat, va: nat, lbits: nat, f: nat)
    requires At(mem, root, va, lbits, f)
    ensures PastBlock(va, lbits) / Span(lbits + 9) != va / Span(lbits + 9) <==> Index(va, lbits) == ENTRIES - 1
    ensures Index(va, lbits) == ENTRIES - 1 && lbits == INITIAL_LBITS ==> PastBlock(va, lbits) == 0
    ensures Span(lbits + 9) > 0 && 0 <= Index(va, lbits) < ENTRIES
  {
    NextEntry(va, lbits);
  }

  /** One level down, towards the table that the current entry points to. */
  lemma GoDown(mem: Memory, root: nat, va: nat, lbits: nat, f: nat)
    requires At(mem, root, va, lbits, f) && lbits > 21 && LeadsDown(mem, va, lbits, f)
    ensures At(mem, root, va, lbits - 9, Entry(mem, Slot(f, Index(va, lbits))).frame)
    ensures va % Span(lbits) == 0 ==>
              && va % Span(lbits - 9) == 0
              && Todo(mem, root, va, lbits, false) == Todo(mem, root, va, lbits - 9, false)
  {
    AtFacts(mem, root, va, lbits, f);
    AfterStep(mem, root, PathTo(va, lbits), Index(va, lbits));
    assert PathTo(va, lbits - 9) == Here(va, lbits);
    if va % Span(lbits) == 0 { AlignedBelow(va, lbits); }
  }

  lemma AlignedBelow(va: nat, lbits: nat)
    requires TableLevel(lbits) && lbits > 21 && va % Span(lbits) == 0
    ensures va % Span(lbits - 9) == 0 && Index(va, lbits - 9) == 0
  {
    if lbits == 39 {
      var q := va / 0x80_0000_0000;
      assert va == q * 0x80_0000_0000;
      assert va / 0x4000_0000 == q * 512;
    } else {
      var q := va / 0x4000_0000;
      assert va == q * 0x4000_0000;
      assert va / 0x20_0000 == q * 512;
    }
  }

  /** The next entry of the same table. */
  lemma GoRight(mem: Memory, root: nat, va: nat, lbits: nat, f: nat, skip: bool)
    requires At(mem, root, va, lbits, f) && Index(va, lbits) < ENTRIES - 1
    requires skip || !LeadsDown(mem, va, lbits, f)
    ensures var n := NextAddress(va, lbits);
            && At(mem, root, n, lbits, f) && va < n < VA_END
            && Index(n, lbits) == Index(va, lbits) + 1 && n % Span(lbits) == 0
            && Todo(mem, root, va, lbits, skip) == Todo(mem, root, n, lbits, false)
  {
    AtFacts(mem, root, va, lbits, f);
    RightOf(va, lbits);
    hide NextAddress, Index, Canonical, PathTo, Span, Todo, LeadsDown, HasTable;
    TodoRight(mem, root, va, NextAddress(va, lbits), lbits, skip);
  }

  lemma TodoRight(mem: Memory, root: nat, va: nat, n: nat, lbits: nat, skip: bool)
    requires PathTo(n, lbits) == PathTo(va, lbits) && Index(n, lbits) == Index(va, lbits) + 1 < ENTRIES
    requires skip || !HasTable(mem, root, Here(va, lbits))
    ensures Todo(mem, root, va, lbits, skip) == Todo(mem, root, n, lbits, false)
  {
    hide Index, PathTo, After, Span, HasTable;
    var q := PathTo(va, lbits);
    if Depth(q) <= 2 { AfterStep(mem, root, q, Index(va, lbits)); }
  }

  lemma RightOf(va: nat, lbits: nat)
    requires TableLevel(lbits) && Canonical(va) && va < VA_END && Index(va, lbits) < ENTRIES - 1
    ensures var n := NextAddress(va, lbits);
            && va < n < VA_END && Canonical(n) && n % Span(lbits) == 0
            && Index(n, lbits) == Index(va, lbits) + 1 && PathTo(n, lbits) == PathTo(va, lbits)
  {
    NextEntry(va, lbits);
    hide NextAddress, Index, Canonical;
    if lbits < INITIAL_LBITS { SamePrefix(va, NextAddress(va, lbits), lbits); }
  }

  /** The table is finished: it is the next one to visit, unless it is the root. */
  lemma GoUp(mem: Memory, root: nat, va: nat, lbits: nat, f: nat, skip: bool)
    requires At(mem, root, va, lbits, f) && Index(va, lbits) == ENTRIES - 1
    requires skip || !LeadsDown(mem, va, lbits, f)
    ensures lbits == INITIAL_LBITS ==> Todo(mem, root, va, lbits, skip) == []
    ensures lbits < INITIAL_LBITS ==>
              && Returning(mem, root, va, INITIAL_LBITS, lbits + 9, Todo(mem, root, va, lbits, skip))
              && At(mem, root, va, INITIAL_LBITS, root)
  {
    AtFacts(mem, root, va, lbits, f);
    var q := PathTo(va, lbits);
    AfterStep(mem, root, q, ENTRIES - 1);
    AfterEnd(mem, root, q);
    assert lbits < INITIAL_LBITS ==> q == Here(va, lbits + 9);
    hide After, Index, Here;
    assert Todo(mem, root, va, lbits, skip) == Climb(mem, root, q);
    FinishedNext(mem, root, va, lbits);
  }

  lemma FinishedNext(mem: Memory, root: nat, va: nat, lbits: nat)
    requires TableLevel(lbits)
    ensures lbits == INITIAL_LBITS ==> Climb(mem, root, PathTo(va, lbits)) == []
    ensures lbits < INITIAL_LBITS ==>
              Climb(mem, root, PathTo(va, lbits)) == [Here(va, lbits + 9)] + Todo(mem, root, va, lbits + 9, true)
  {
    hide Index, After;
    if lbits < INITIAL_LBITS {
      var q := Here(va, lbits + 9);
      DepthPathTo(va, lbits + 9);
      IndexBound(va, lbits + 9);
      assert PathTo(va, lbits) == q;
      assert Depth(q.up) <= 1 && Depth(q) == 1 + Depth(q.up);
      hide PathTo;
      assert Climb(mem, root, q) == [q] + After(mem, root, q.up, q.i + 1);
    }
  }

  lemma IndexBound(va: nat, lbits: nat)
    ensures 0 <= Index(va, lbits) < ENTRIES
  {
  }

  /** On the way back to a finished table every entry points down. */
  lemma GoBack(mem: Memory, root: nat, va: nat, lbits: nat, f: nat, stop: nat, todo: seq<Path>)
    requires At(mem, root, va, lbits, f) && Returning(mem, root, va, lbits, stop, todo)
    ensures LeadsDown(mem, va, lbits, f) && lbits >= stop >= 30
    ensures lbits > stop ==> Returning(mem, root, va, lbits - 9, stop, todo)
    ensures todo == [Here(va, stop)] + Todo(mem, root, va, stop, true)
  {
    AtFacts(mem, root, va, lbits, f);
    if lbits > stop {
      assert PathTo(va, 30) == Here(va, 39);
      TableDepth(mem, root, Here(va, stop));
    }
  }

  /** What holds each time round the loop: it looks for the next table (`stop` is 21), or is on its
      way back to the one just finished. */
  ghost predicate DownInv(mem: Memory, root: nat, va: nat, lbits: nat, f: nat, skip: bool, stop: nat, todo: seq<Path>) {
    && At(mem, root, va, lbits, f)
    && (stop == 21 ==> todo == Todo(mem, root, va, lbits, skip) && (!skip ==> va % Span(lbits) == 0))
    && (stop != 21 ==> !skip && Returning(mem, root, va, lbits, stop, todo))
  }

  lemma IsAt(mem: Memory, root: nat, va: nat, lbits: nat, f: nat, skip: bool, stop: nat, todo: seq<Path>)
    requires DownInv(mem, root, va, lbits, f, skip, stop, todo)
    ensures At(mem, root, va, lbits, f)
  {
  }

  lemma DownStops(mem: Memory, root: nat, va: nat, f: nat, stop: nat, todo: seq<Path>)
    requires DownInv(mem, root, va, stop, f, false, stop, todo) && LeadsDown(mem, va, stop, f)
    ensures todo == [Here(va, stop)] + Todo(mem, root, va, stop, true) && HasTable(mem, root, Here(va, stop))
  {
    AtFacts(mem, root, va, stop, f);
    if stop == 21 { Found(mem, root, va, f); } else { GoBack(mem, root, va, stop, f, stop, todo); }
  }

  lemma DownDescends(mem: Memory, root: nat, va: nat, lbits: nat, f: nat, stop: nat, todo: seq<Path>)
    requires DownInv(mem, root, va, lbits, f, false, stop, todo) && LeadsDown(mem, va, lbits, f) && lbits != stop
    ensures lbits > 21
    ensures DownInv(mem, root, va, lbits - 9, Entry(mem, Slot(f, Index(va, lbits))).frame, false, stop, todo)
  {
    hide At, Todo, LeadsDown, Index;
    if stop != 21 {
      GoBack(mem, root, va, lbits, f, stop, todo);
    } else {
      AtLevel(mem, root, va, lbits, f);
    }
    GoDown(mem, root, va, lbits, f);
  }

  lemma AtLevel(mem: Memory, root: nat, va: nat, lbits: nat, f: nat)
    requires At(mem, root, va, lbits, f)
    ensures TableLevel(lbits) && f < NPAGES && va < VA_END && TreeOk(mem, root)
  {
  }

  lemma DownStarts(mem: Memory, root: nat, va: nat, lbits: nat, f: nat, skip: bool)
    requires At(mem, root, va, lbits, f) && (!skip ==> va % Span(lbits) == 0)
    ensures DownInv(mem, root, va, lbits, f, skip, 21, Todo(mem, root, va, lbits, skip))
  {
  }

  lemma DownPasses(mem: Memory, root: nat, va: nat, lbits: nat, f: nat, skip: bool, stop: nat, todo: seq<Path>)
    requires DownInv(mem, root, va, lbits, f, skip, stop, todo) && (skip || !LeadsDown(mem, va, lbits, f))
    ensures stop == 21 && Span(lbits + 9) > 0
    ensures PastBlock(va, lbits) / Span(lbits + 9) != va / Span(lbits + 9) ==>
              && (lbits == INITIAL_LBITS ==> PastBlock(va, lbits) == 0 && todo == [])
              && (lbits != INITIAL_LBITS ==> DownInv(mem, root, va, INITIAL_LBITS, root, false, lbits + 9, todo))
    ensures PastBlock(va, lbits) / Span(lbits + 9) == va / Span(lbits + 9) ==>
              var n := NextAddress(va, lbits);
              && DownInv(mem, root, n, lbits, f, false, stop, todo)
              && va < n < VA_END && Index(n, lbits) == Index(va, lbits) + 1
  {
    hide At, Todo, LeadsDown, Index, NextAddress, PastBlock, Span;
    if stop != 21 { GoBack(mem, root, va, lbits, f, stop, todo); }
    StepEnd(mem, root, va, lbits, f);
    AtLevel(mem, root, va, lbits, f);
    if Index(va, lbits) == ENTRIES - 1 {
      GoUp(mem, root, va, lbits, f, skip);
    } else {
      GoRight(mem, root, va, lbits, f, skip);
    }
  }

  // ---- The iterator ----

  class PtIter {
    const m: PhysicalMemory
    const pt: nat
    var pep: Pep
    var lbits: nat
    var va: nat

    /** The entry pointer and the address name the same place in the tree. */
    ghost predicate Placed()
      reads this, m.pages, m.refcount
    {
      m.Valid() && pep.Slot? && pep.idx == Index(va, lbits) && At(m.View().mem, pt, va, lbits, pep.page)
    }

    ghost function Current(): Path
      reads this
    {
      Here(va, lbits)
    }

    ghost predicate Valid()
      reads this, m.pages, m.refcount
    {
      && m.Valid() && TreeOk(m.View().mem, pt)
      && (lbits == DONE_LBITS || (Placed() && HasTable(m.View().mem, pt, Current())))
    }

    /** The tables from the current one on. */
    ghost function Remaining(): seq<Path>
      requires m.Valid()
      reads this, m.pages, m.refcount
    {
      if lbits == DONE_LBITS then [] else [Current()] + Todo(m.View().mem, pt, va, lbits, true)
    }

    function Read(): (e: Word)
      requires m.Valid()
      reads this, m, m.pages, m.refcount
      ensures e == Entry(m.View().mem, pep)
    {
      if pep.Slot? && pep.page < NPAGES && pep.idx < ENTRIES then m.pages[pep.page][pep.idx] else ZERO
    }

    constructor (m: PhysicalMemory, pt: nat)
      requires m.Valid() && TreeOk(m.View().mem, pt)
      ensures Valid() && this.m == m && this.pt == pt && Remaining() == Tables(m.View().mem, pt)
    {
      this.m, this.pt := m, pt;
      this.pep, this.lbits, this.va := Slot(pt, 0), INITIAL_LBITS, 0;
      new;
      Down(false);
    }

    method Down(skip: bool)
      requires Placed()
      requires if skip then HasTable(m.View().mem, pt, Current()) else va % Span(lbits) == 0
      modifies this
      ensures Valid() && Remaining() == old(Todo(m.View().mem, pt, va, lbits, skip))
    {
      var skip', stop: nat := skip, PAGEOFFBITS + PAGEINDEXBITS;
      ghost var mem := m.View().mem;
      ghost var todo := Todo(mem, pt, va, lbits, skip);
      AtLevel(mem, pt, va, lbits, pep.page);
      DownStarts(mem, pt, va, lbits, pep.page, skip);
      hide Todo, At, Here, Index, Span, DownInv, HasTable, TreeOk;
      while lbits < DONE_LBITS
        invariant m.Valid() && mem == m.View().mem && TreeOk(mem, pt)
        invariant lbits == DONE_LBITS ==> todo == []
        invariant lbits <= DONE_LBITS
        invariant lbits != DONE_LBITS ==> Placed() && DownInv(mem, pt, va, lbits, pep.page, skip', stop, todo)
        decreases stop == 21, VA_END - va, lbits
      {
        AtLevel(mem, pt, va, lbits, pep.page);
        if !skip' && PointsDown(Read()) {
          if lbits == stop {
            DownStops(mem, pt, va, pep.page, stop, todo);
            break;
          }
          EnterTable(stop, todo);
        } else {
          stop := LeaveEntry(skip', stop, todo);
          if lbits == DONE_LBITS { break; }
          skip' := false;
        }
      }
    }

    /** To the first entry to look at in the table that the current entry points to. */
    method EnterTable(stop: nat, ghost todo: seq<Path>)
      requires Placed() && lbits != stop && PointsDown(Read())
      requires DownInv(m.View().mem, pt, va, lbits, pep.page, false, stop, todo)
      modifies this
      ensures va == old(va) && lbits == old(lbits) - 9 < DONE_LBITS
      ensures Placed() && DownInv(m.View().mem, pt, va, lbits, pep.page, false, stop, todo)
    {
      hide Todo, Here, Index, DownInv, HasTable, TreeOk;
      DownDescends(m.View().mem, pt, va, lbits, pep.page, stop, todo);
      lbits := lbits - PAGEINDEXBITS;
      pep := Slot(Read().frame, Index(va, lbits));
      IsAt(m.View().mem, pt, va, lbits, pep.page, false, stop, todo);
    }

    /** On to the next entry, or back to the root when the table has no more. */
    method LeaveEntry(skip: bool, stop: nat, ghost todo: seq<Path>) returns (stop': nat)
      requires Placed() && (skip || !PointsDown(Read()))
      requires DownInv(m.View().mem, pt, va, lbits, pep.page, skip, stop, todo)
      modifies this
      ensures stop == 21
      ensures lbits == DONE_LBITS ==> todo == []
      ensures lbits != DONE_LBITS ==>
                && Placed() && DownInv(m.View().mem, pt, va, lbits, pep.page, false, stop', todo)
                && lbits < DONE_LBITS
                && (if stop' == 21 then old(va) < va < VA_END && lbits == old(lbits) else va == old(va))
    {
      hide Todo, At, Here, Index, PastBlock, Span, DownInv, HasTable, TreeOk, Canonical;
      ghost var mem := m.View().mem;
      AtLevel(mem, pt, va, lbits, pep.page);
      DownPasses(mem, pt, va, lbits, pep.page, skip, stop, todo);
      stop' := stop;
      var n := PastBlock(va, lbits);
      if n / Span(lbits + PAGEINDEXBITS) != va / Span(lbits + PAGEINDEXBITS) {
        if n == 0 && lbits == INITIAL_LBITS {
          lbits := DONE_LBITS;
          return;
        }
        stop' := lbits + PAGEINDEXBITS;
        lbits := INITIAL_LBITS;
        pep := Slot(pt, Index(va, lbits));
      } else {
        pep := Slot(pep.page, pep.idx + 1);
        va := if Canonical(n) then n else VA_HIGHMIN;
      }
      IsAt(mem, pt, va, lbits, pep.page, false, stop', todo);
    }

    method Next()
      requires Valid() && lbits != DONE_LBITS
      modifies this
      ensures Valid() && Remaining() == old(Remaining())[1..]
    {
      Down(true);
    }

    /** The physical page of the current table. */
    function Kptr(): (f: nat)
      requires m.Valid()
      reads this, m, m.pages, m.refcount
    {
      Read().frame
    }
  }
}

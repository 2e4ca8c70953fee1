/**
 The debugging allocator: `base_malloc` recycles freed blocks (dmalloc/basealloc.cc:28-81) under the
 headers, footers and statistics of `dmalloc` and `dfree` (dmalloc/dmalloc.cc:32-212).

 `malloc` of the C library is any choice of an address whose bytes are not in use, or failure.
 */
module Dmalloc {
  import opened Wrappers
  import opened Arithmetic

  const WORD := 0x1_0000_0000_0000_0000
  const HDR := 48
  const FTR := 8
  const IS_ALLOC := 0xf4ba49d1

  datatype Block = Block(addr: nat, size: nat)

  predicate Apart(a: Block, b: Block) {
    a.addr != b.addr && (a.addr + a.size <= b.addr || b.addr + b.size <= a.addr)
  }

  predicate Aligned(addr: nat) { addr % 16 == 0 }

  predicate InMemory(b: Block) {
    0 < b.addr && Aligned(b.addr) && b.addr + b.size <= WORD
  }

  // ---- Sums over the active blocks ----

  ghost function Sum(m: map<nat, nat>): nat {
    if m == map[] then 0 else var u :| u in m; m[u] + Sum(m - {u})
  }

  lemma {:induction false} SumWithout(m: map<nat, nat>, x: nat)
    requires x in m
    ensures Sum(m) == m[x] + Sum(m - {x})
    decreases |m|
  {
    var u :| u in m && Sum(m) == m[u] + Sum(m - {u});
    if u != x {
      SumWithout(m - {u}, x);
      SumWithout(m - {x}, u);
      assert m - {u} - {x} == m - {x} - {u};
    }
  }

  lemma SumWith(m: map<nat, nat>, x: nat, size: nat)
    requires x !in m
    ensures Sum(m[x := size]) == Sum(m) + size
  {
    SumWithout(m[x := size], x);
    assert m[x := size] - {x} == m;
  }

  lemma {:induction false} HighestKey(keys: set<nat>) returns (top: nat)
    requires keys != {}
    ensures top in keys && forall u :: u in keys ==> u <= top
    decreases |keys|
  {
    var u :| u in keys;
    top := u;
    var rest := keys - {u};
    if rest != {} {
      top := HighestKey(rest);
      if u > top { top := u; }
      assert forall v :: v in keys ==> v == u || v in rest;
    } else {
      assert forall v :: v in keys && v != u ==> v in rest;
    }
  }

  /** The whole block of user address `u`: header, user bytes, footer. */
  function Whole(u: nat, size: nat): Block
    requires u >= HDR
  {
    Block(u - HDR, HDR + size + FTR)
  }

  ghost predicate WholesApart(m: map<nat, nat>) {
    && (forall u :: u in m ==> u > HDR)
    && (forall u, v :: u in m && v in m && u != v ==> Apart(Whole(u, m[u]), Whole(v, m[v])))
  }

  /** Blocks that do not overlap fit into memory together, so neither their number nor their size wraps. */
  lemma {:induction false} SumFits(m: map<nat, nat>, limit: nat)
    requires WholesApart(m) && forall u :: u in m ==> u + m[u] + FTR <= limit
    ensures m == map[] || Sum(m) + (HDR + FTR) * |m| < limit
    decreases |m|
  {
    if m != map[] {
      var top := HighestKey(m.Keys);
      var rest := m - {top};
      assert rest.Keys == m.Keys - {top};
      assert |rest| == |m| - 1;
      forall u | u in rest ensures u + rest[u] + FTR <= top - HDR {
        assert Apart(Whole(u, m[u]), Whole(top, m[top]));
      }
      SumFits(rest, top - HDR);
      SumWithout(m, top);
    }
  }

  // ---- The recycling layer ----

  /** No two blocks overlap, whether in use or waiting to be recycled. */
  ghost predicate BaseOk(allocs: map<nat, nat>, frees: seq<Block>) {
    && (forall a :: a in allocs ==> InMemory(Block(a, allocs[a])))
    && (forall i: nat :: i < |frees| ==> InMemory(frees[i]))
    && (forall a, b :: a in allocs && b in allocs && a != b ==> Apart(Block(a, allocs[a]), Block(b, allocs[b])))
    && (forall a, i: nat :: a in allocs && i < |frees| ==> Apart(Block(a, allocs[a]), frees[i]))
    && (forall i: nat, j: nat :: i < j < |frees| ==> Apart(frees[i], frees[j]))
  }

  predicate CanPlace(allocs: map<nat, nat>, frees: seq<Block>, b: Block) {
    && InMemory(b)
    && (forall a :: a in allocs ==> Apart(Block(a, allocs[a]), b))
    && (forall i: nat :: i < |frees| ==> Apart(frees[i], b))
  }

  lemma PlaceOk(allocs: map<nat, nat>, frees: seq<Block>, b: Block)
    requires BaseOk(allocs, frees) && CanPlace(allocs, frees, b)
    ensures b.addr !in allocs && b.addr > 0 && BaseOk(allocs[b.addr := b.size], frees)
  {
    hide Aligned;
    assert b.addr in allocs ==> Apart(Block(b.addr, allocs[b.addr]), b);
  }

  lemma ShrinkOk(allocs: map<nat, nat>, frees: seq<Block>, a: nat, size: nat)
    requires BaseOk(allocs, frees) && a in allocs && size <= allocs[a]
    ensures BaseOk(allocs[a := size], frees)
  {
    hide Aligned;
    var allocs' := allocs[a := size];
    forall b | b in allocs' && b != a ensures Apart(Block(a, size), Block(b, allocs'[b])) {
      assert Apart(Block(a, allocs[a]), Block(b, allocs[b]));
    }
    forall i: nat | i < |frees| ensures Apart(Block(a, size), frees[i]) {
      assert Apart(Block(a, allocs[a]), frees[i]);
    }
    assert InMemory(Block(a, allocs[a]));
  }

  /** The freed blocks without the `i`th, whose place the last one takes. */
  function WithoutFree(frees: seq<Block>, i: nat): seq<Block>
    requires i < |frees|
  {
    frees[i := frees[|frees| - 1]][..|frees| - 1]
  }

  lemma RecycleOk(allocs: map<nat, nat>, frees: seq<Block>, i: nat)
    requires BaseOk(allocs, frees) && i < |frees|
    ensures frees[i].addr !in allocs && frees[i].addr > 0
    ensures BaseOk(allocs[frees[i].addr := frees[i].size], WithoutFree(frees, i))
  {
    hide Aligned;
    var f, rest := frees[i], WithoutFree(frees, i);
    assert f.addr in allocs ==> Apart(Block(f.addr, allocs[f.addr]), f);
    assert InMemory(f) && Block(f.addr, f.size) == f;
    forall j: nat | j < |rest| ensures Apart(f, rest[j]) && InMemory(rest[j]) {
      assert rest[j] == frees[if j == i then |frees| - 1 else j];
    }
    forall j: nat, k: nat | j < k < |rest| ensures Apart(rest[j], rest[k]) {
      assert rest[j] == frees[if j == i then |frees| - 1 else j];
      assert rest[k] == frees[if k == i then |frees| - 1 else k];
    }
    forall b, j: nat | b in allocs && j < |rest| ensures Apart(Block(b, allocs[b]), rest[j]) {
      assert rest[j] == frees[if j == i then |frees| - 1 else j];
    }
  }

  lemma FreeOk(allocs: map<nat, nat>, frees: seq<Block>, a: nat)
    requires BaseOk(allocs, frees) && a in allocs
    ensures BaseOk(allocs - {a}, frees + [Block(a, allocs[a])])
  {
    hide Aligned;
  }

  /** Block `ptr` was waiting, large enough, and is the only one taken. */
  ghost predicate Recycled(frees: seq<Block>, frees': seq<Block>, ptr: nat, sz: nat) {
    exists i: nat ::
      i < |frees| && frees[i].addr == ptr && frees[i].size >= sz && frees' == WithoutFree(frees, i)
  }

  class BaseAllocator {
    var allocs: map<nat, nat>
    var frees: seq<Block>

    ghost predicate Valid()
      reads this
    {
      BaseOk(allocs, frees)
    }

    constructor ()
      ensures Valid() && allocs == map[] && frees == []
    {
      allocs, frees := map[], [];
    }

    /** A new block overlaps none in use; zero is the null pointer. */
    method Malloc(sz: nat) returns (ptr: nat)
      requires Valid()
      modifies this
      ensures Valid()
      ensures ptr == 0 ==> allocs == old(allocs)
      ensures ptr != 0 ==> ptr !in old(allocs) && allocs == old(allocs)[ptr := sz]
      ensures frees == old(frees) || Recycled(old(frees), frees, ptr, sz)
    {
      hide BaseOk, CanPlace;
      ptr := 0;
      var r: nat := *;
      if r % 4 != 0 {
        var ntries := 0;
        while ntries < 10 && ntries < |frees|
          invariant Valid() && allocs == old(allocs) && frees == old(frees)
          decreases 10 - ntries
        {
          var i: nat := *;
          i := i % |frees|;
          if frees[i].size >= sz {
            ptr := Recycle(i);
            ShrinkOk(allocs, frees, ptr, sz);
            break;
          }
          ntries := ntries + 1;
        }
      }
      if ptr == 0 {
        var n := if sz != 0 then sz else 1;
        ptr := LibraryMalloc(n);
        if ptr != 0 {
          PlaceOk(allocs, frees, Block(ptr, n));
          ShrinkOk(allocs[ptr := n], frees, ptr, sz);
          assert allocs[ptr := n][ptr := sz] == allocs[ptr := sz];
        }
      }
      if ptr != 0 {
        allocs := allocs[ptr := sz];
      }
    }

    /** Moves a freed block back to the blocks in use. */
    method Recycle(i: nat) returns (ptr: nat)
      requires Valid() && i < |frees|
      modifies this
      ensures Valid() && ptr == old(frees)[i].addr != 0 && ptr !in old(allocs)
      ensures allocs == old(allocs)[ptr := old(frees)[i].size] && frees == WithoutFree(old(frees), i)
    {
      hide BaseOk;
      RecycleOk(allocs, frees, i);
      ptr := frees[i].addr;
      allocs := allocs[ptr := frees[i].size];
      frees := WithoutFree(frees, i);
    }

    /** The C library's `malloc`. */
    method LibraryMalloc(n: nat) returns (ptr: nat)
      ensures ptr != 0 ==> CanPlace(allocs, frees, Block(ptr, n))
    {
      ptr := *;
      if !CanPlace(allocs, frees, Block(ptr, n)) { ptr := 0; }
    }

    method Free(ptr: nat)
      requires Valid()
      modifies this
      ensures Valid() && allocs == old(allocs) - {ptr}
      ensures frees == if ptr != 0 && ptr in old(allocs) then old(frees) + [Block(ptr, old(allocs)[ptr])] else old(frees)
    {
      if ptr != 0 && ptr in allocs {
        FreeOk(allocs, frees, ptr);
        hide BaseOk;
        frees := frees + [Block(ptr, allocs[ptr])];
        allocs := allocs - {ptr};
      }
    }
  }

  // ---- The debugging layer ----

  datatype Header = Header(ptrVal: nat, allocSize: nat, isAllocated: nat)

  datatype Stats = Stats(nactive: nat, activeSize: nat, ntotal: nat, totalSize: nat, nfail: nat, failSize: nat,
                         heapMin: nat, heapMax: nat)

  function NoStats(): Stats { Stats(0, 0, 0, 0, 0, 0, WORD - 1, 0) }

  /** A request too large to be written down is recorded as the largest there is. */
  function Overflowed(s: Stats): Stats {
    s.(nfail := (s.nfail + 1) % WORD, failSize := WORD - 1)
  }

  function Failed(s: Stats, sz: nat): Stats {
    s.(nfail := (s.nfail + 1) % WORD, failSize := (s.failSize + sz) % WORD)
  }

  /** The totals wrap at 64 bits; the active ones cannot (see CountersFit). */
  function Taken(s: Stats, user: nat, sz: nat): Stats {
    Stats(s.nactive + 1, s.activeSize + sz, (s.ntotal + 1) % WORD, (s.totalSize + sz) % WORD, s.nfail, s.failSize,
          if user < s.heapMin then user else s.heapMin, if user + sz > s.heapMax then user + sz else s.heapMax)
  }

  // ---- What the statistics say of everything that happened ----

  /** What became of a call: a block of `size` bytes taken, a request for `size` bytes refused, one that
      cannot be written down, and a block given back. */
  datatype Entry = Took(user: nat, size: nat) | Refused(size: nat) | Endless | GaveBack(size: nat)

  function Recorded(s: Stats, e: Entry): Stats {
    match e
    case Took(user, size) => Taken(s, user, size)
    case Refused(size) => Failed(s, size)
    case Endless => Overflowed(s)
    case GaveBack(size) => if s.nactive > 0 && s.activeSize >= size then Returned(s, size) else s
  }

  function StatsAfter(log: seq<Entry>): Stats
    decreases |log|
  {
    if log == [] then NoStats() else Recorded(StatsAfter(log[..|log| - 1]), log[|log| - 1])
  }

  function Returned(s: Stats, size: nat): Stats
    requires s.nactive > 0 && s.activeSize >= size
  {
    s.(nactive := s.nactive - 1, activeSize := s.activeSize - size)
  }

  /** The entries of a kind: 0 for blocks taken, 1 for requests refused, whatever the reason. */
  function Kind(e: Entry): nat { if e.Took? then 0 else if e.GaveBack? then 2 else 1 }

  function Number(log: seq<Entry>, kind: nat): nat
    decreases |log|
  {
    if log == [] then 0
    else Number(log[..|log| - 1], kind) + if Kind(log[|log| - 1]) == kind then 1 else 0
  }

  /** The bytes of all entries of a kind. */
  function Bytes(log: seq<Entry>, kind: nat): nat
    decreases |log|
  {
    if log == [] then 0
    else Bytes(log[..|log| - 1], kind) + if Kind(log[|log| - 1]) == kind then SizeOf(log[|log| - 1]) else 0
  }

  /** A request that cannot be written down counts for nothing here. */
  function SizeOf(e: Entry): nat { if e.Endless? then 0 else e.size }

  lemma AddedBefore(a: nat, b: nat)
    ensures (a % 0x1_0000_0000_0000_0000 + b) % 0x1_0000_0000_0000_0000 == (a + b) % 0x1_0000_0000_0000_0000
  {
  }

  lemma TotalsStep(log: seq<Entry>)
    requires log != []
    ensures var s, t, e := StatsAfter(log[..|log| - 1]), StatsAfter(log), log[|log| - 1];
            && t.ntotal == (if Kind(e) == 0 then (s.ntotal + 1) % 0x1_0000_0000_0000_0000 else s.ntotal)
            && t.totalSize == (if Kind(e) == 0 then (s.totalSize + SizeOf(e)) % 0x1_0000_0000_0000_0000 else s.totalSize)
            && t.nfail == (if Kind(e) == 1 then (s.nfail + 1) % 0x1_0000_0000_0000_0000 else s.nfail)
  {
    hide StatsAfter;
    StatsLast(log);
  }

  lemma StatsLast(log: seq<Entry>)
    requires log != []
    ensures StatsAfter(log) == Recorded(StatsAfter(log[..|log| - 1]), log[|log| - 1])
  {
    hide Recorded;
  }

  lemma TotalsStart()
    ensures var s := StatsAfter([]);
            s.ntotal == 0 && s.totalSize == 0 && s.nfail == 0 && s.heapMin == 0xFFFF_FFFF_FFFF_FFFF && s.heapMax == 0 && s.failSize == 0
    ensures forall kind :: Number([], kind) == 0 && Bytes([], kind) == 0
  {
  }

  lemma CountStep(log: seq<Entry>, kind: nat)
    requires log != []
    ensures var before, e := log[..|log| - 1], log[|log| - 1];
            && Number(log, kind) == Number(before, kind) + (if Kind(e) == kind then 1 else 0)
            && Bytes(log, kind) == Bytes(before, kind) + (if Kind(e) == kind then SizeOf(e) else 0)
  {
  }

  /** The totals, over any sequence of calls, in numbers of 64 bits. */
  lemma {:induction false} TotalsExact(log: seq<Entry>)
    ensures var s := StatsAfter(log);
            && s.ntotal == Number(log, 0) % 0x1_0000_0000_0000_0000
            && s.totalSize == Bytes(log, 0) % 0x1_0000_0000_0000_0000
            && s.nfail == Number(log, 1) % 0x1_0000_0000_0000_0000
    decreases |log|
  {
    hide StatsAfter, Number, Bytes, Kind, SizeOf;
    TotalsStart();
    if log != [] {
      var before, e := log[..|log| - 1], log[|log| - 1];
      TotalsExact(before);
      TotalsStep(log);
      CountStep(log, 0);
      CountStep(log, 1);
      AddedBefore(Number(before, 0), 1);
      AddedBefore(Number(before, 1), 1);
      AddedBefore(Bytes(before, 0), SizeOf(e));
    }
  }

  lemma FailStep(log: seq<Entry>)
    requires log != []
    ensures var s, e := StatsAfter(log[..|log| - 1]), log[|log| - 1];
            && (e.Refused? ==> StatsAfter(log).failSize == (s.failSize + e.size) % 0x1_0000_0000_0000_0000)
            && (e.Endless? ==> StatsAfter(log).failSize == 0xFFFF_FFFF_FFFF_FFFF)
            && (e.Took? || e.GaveBack? ==> StatsAfter(log).failSize == s.failSize)
  {
    hide StatsAfter;
    StatsLast(log);
  }

  /** The bytes refused, in 64 bits; a request that cannot be written down makes them the largest number, from
      which they go on. */
  lemma {:induction false} RefusedExact(log: seq<Entry>, last: Option<nat>)
    requires last.Some? ==> last.value < |log| && log[last.value] == Endless
    requires forall j: nat :: (if last.Some? then last.value + 1 else 0) <= j < |log| ==> log[j] != Endless
    ensures StatsAfter(log).failSize ==
            (if last.Some? then 0xFFFF_FFFF_FFFF_FFFF + Bytes(log[last.value + 1..], 1) else Bytes(log, 1)) % 0x1_0000_0000_0000_0000
    decreases |log|
  {
    hide StatsAfter, Bytes;
    TotalsStart();
    if log != [] {
      var n := |log| - 1;
      FailStep(log);
      if last == Some(n) {
        assert log[n + 1..] == [];
      } else {
        RefusedExact(log[..n], last);
        var rest := if last.Some? then log[last.value + 1..] else log;
        assert rest[..|rest| - 1] == if last.Some? then log[..n][last.value + 1..] else log[..n];
        assert rest[|rest| - 1] == log[n];
        CountStep(rest, 1);
        AddedBefore((if last.Some? then 0xFFFF_FFFF_FFFF_FFFF else 0) + Bytes(rest[..|rest| - 1], 1), SizeOf(log[n]));
      }
    }
  }

  lemma BoundsStep(log: seq<Entry>)
    requires log != []
    ensures var s, t, e := StatsAfter(log[..|log| - 1]), StatsAfter(log), log[|log| - 1];
            && (e.Took? ==>
                  && t.heapMin <= s.heapMin && t.heapMin <= e.user && (t.heapMin == s.heapMin || t.heapMin == e.user)
                  && t.heapMax >= s.heapMax && t.heapMax >= e.user + e.size
                  && (t.heapMax == s.heapMax || t.heapMax == e.user + e.size))
            && (!e.Took? ==> t.heapMin == s.heapMin && t.heapMax == s.heapMax)
  {
    hide StatsAfter;
    StatsLast(log);
  }

  /** The heap bounds are the lowest address and the highest end of any block ever taken. */
  lemma {:induction false} BoundsExact(log: seq<Entry>)
    ensures var s := StatsAfter(log);
            && (forall i: nat :: i < |log| && log[i].Took? ==>
                  s.heapMin <= log[i].user && log[i].user + log[i].size <= s.heapMax)
            && (s.heapMin == 0xFFFF_FFFF_FFFF_FFFF || exists i: nat :: i < |log| && log[i].Took? && log[i].user == s.heapMin)
            && (s.heapMax == 0 || exists i: nat :: i < |log| && log[i].Took? && log[i].user + log[i].size == s.heapMax)
            && s.heapMin <= 0xFFFF_FFFF_FFFF_FFFF
    decreases |log|
  {
    hide StatsAfter;
    TotalsStart();
    if log != [] {
      var n, s, t := |log| - 1, StatsAfter(log[..|log| - 1]), StatsAfter(log);
      BoundsExact(log[..n]);
      BoundsStep(log);
      assert forall i: nat :: i < n ==> log[..n][i] == log[i];
      if t.heapMin == s.heapMin && s.heapMin != 0xFFFF_FFFF_FFFF_FFFF {
        var i: nat :| i < n && log[..n][i].Took? && log[..n][i].user == s.heapMin;
        assert log[i].Took? && log[i].user == t.heapMin;
      }
      if t.heapMax == s.heapMax && s.heapMax != 0 {
        var i: nat :| i < n && log[..n][i].Took? && log[..n][i].user + log[..n][i].size == s.heapMax;
        assert log[i].Took? && log[i].user + log[i].size == t.heapMax;
      }
    }
  }

  lemma StatsStep(log: seq<Entry>, e: Entry)
    ensures StatsAfter(log + [e]) == Recorded(StatsAfter(log), e)
  {
    assert (log + [e])[..|log|] == log;
  }

  datatype Inside = Inside(start: nat, size: nat, offset: nat)

  datatype Outcome =
    | Ignored
    | Released
    | BadAlignment
    | NotInHeap
    | DoubleFree
    | NotAllocated(inside: Option<Inside>)

  /** Every active address has its header and its block; only active blocks are marked allocated. */
  ghost predicate HeadersOk(active: map<nat, nat>, headers: map<nat, Header>, allocs: map<nat, nat>) {
    && (forall u :: u in active ==>
          && u > HDR && active[u] == u - HDR && active[u] in headers
          && headers[active[u]].ptrVal == u && headers[active[u]].isAllocated == IS_ALLOC
          && active[u] in allocs && allocs[active[u]] == HDR + headers[active[u]].allocSize + FTR)
    && (forall h :: h in headers ==> headers[h].ptrVal == h + HDR)
    && (forall h :: h in headers && headers[h].isAllocated == IS_ALLOC ==> headers[h].ptrVal in active)
  }

  /** The sizes asked for, by user address. */
  ghost function SizesOf(active: map<nat, nat>, headers: map<nat, Header>): map<nat, nat> {
    map u | u in active && active[u] in headers :: headers[active[u]].allocSize
  }

  lemma NoSizes()
    ensures SizesOf(map[], map[]) == map[] && Sum(map[]) == 0
    ensures BaseOk(map[], []) && HeadersOk(map[], map[], map[]) && InHeap(map[], WORD - 1, 0)
  {
  }

  ghost predicate InHeap(sizes: map<nat, nat>, heapMin: nat, heapMax: nat) {
    forall u :: u in sizes ==> heapMin <= u && u + sizes[u] <= heapMax
  }

  lemma InHeapWith(sizes: map<nat, nat>, heapMin: nat, heapMax: nat, u: nat, sz: nat)
    requires InHeap(sizes, heapMin, heapMax)
    ensures InHeap(sizes[u := sz], if u < heapMin then u else heapMin, if u + sz > heapMax then u + sz else heapMax)
    ensures InHeap(sizes - {u}, heapMin, heapMax)
  {
  }

  lemma SizesKeys(active: map<nat, nat>, headers: map<nat, Header>, allocs: map<nat, nat>)
    requires HeadersOk(active, headers, allocs)
    ensures SizesOf(active, headers).Keys == active.Keys && |SizesOf(active, headers)| == |active|
  {
    var m := SizesOf(active, headers);
    assert forall u :: u in m.Keys <==> u in active.Keys;
    assert m.Keys == active.Keys;
    assert |m.Keys| == |m| && |active.Keys| == |active|;
  }

  /** Live blocks, with header and footer, never overlap. */
  lemma LiveApart(active: map<nat, nat>, headers: map<nat, Header>, allocs: map<nat, nat>, frees: seq<Block>)
    requires BaseOk(allocs, frees) && HeadersOk(active, headers, allocs)
    ensures WholesApart(SizesOf(active, headers))
    ensures forall u :: u in active ==> Aligned(u) && u + SizesOf(active, headers)[u] + FTR <= WORD
  {
    hide HeadersOk, BaseOk, SizesOf, Aligned, Apart;
    var m := SizesOf(active, headers);
    SizesKeys(active, headers, allocs);
    forall u | u in active ensures u > HDR && Aligned(u) && u + m[u] + FTR <= WORD {
      LiveBounds(active, headers, allocs, frees, u);
    }
    forall u, v | u in m && v in m && u != v ensures Apart(Whole(u, m[u]), Whole(v, m[v])) {
      PairApart(active, headers, allocs, frees, u, v);
    }
  }

  lemma PairApart(active: map<nat, nat>, headers: map<nat, Header>, allocs: map<nat, nat>, frees: seq<Block>, u: nat, v: nat)
    requires BaseOk(allocs, frees) && HeadersOk(active, headers, allocs) && u in active && v in active && u != v
    ensures var m := SizesOf(active, headers);
            u in m && v in m && u > HDR && v > HDR && Apart(Whole(u, m[u]), Whole(v, m[v]))
  {
    hide Aligned, InMemory;
    assert Apart(Block(active[u], allocs[active[u]]), Block(active[v], allocs[active[v]]));
  }

  lemma LiveBounds(active: map<nat, nat>, headers: map<nat, Header>, allocs: map<nat, nat>, frees: seq<Block>, u: nat)
    requires BaseOk(allocs, frees) && HeadersOk(active, headers, allocs) && u in active
    ensures u > HDR && Aligned(u) && u in SizesOf(active, headers) && u + SizesOf(active, headers)[u] + FTR <= WORD
  {
    hide Aligned, Apart, InMemory;
    BlockBounds(Block(active[u], allocs[active[u]]));
  }

  lemma BlockBounds(b: Block)
    requires InMemory(b)
    ensures Aligned(b.addr + HDR) && Aligned(b.addr) && b.addr > 0 && b.addr + b.size <= WORD
  {
  }

  lemma HeaderOf(active: map<nat, nat>, headers: map<nat, Header>, allocs: map<nat, nat>, ptr: nat)
    requires HeadersOk(active, headers, allocs)
    ensures ptr in active ==>
              && HDR < ptr && active[ptr] == ptr - HDR && ptr - HDR in headers
              && headers[ptr - HDR].ptrVal == ptr && headers[ptr - HDR].isAllocated == IS_ALLOC
    ensures HDR < ptr && ptr - HDR in headers && ptr !in active ==>
              headers[ptr - HDR].ptrVal == ptr && headers[ptr - HDR].isAllocated != IS_ALLOC
  {
  }

  lemma HeapOf(sizes: map<nat, nat>, heapMin: nat, heapMax: nat, u: nat)
    requires InHeap(sizes, heapMin, heapMax) && u in sizes
    ensures heapMin <= u && u + sizes[u] <= heapMax
  {
  }

  lemma Registered(active: map<nat, nat>, headers: map<nat, Header>, allocs: map<nat, nat>, raw: nat, sz: nat)
    requires HeadersOk(active, headers, allocs) && raw !in allocs && raw > 0
    ensures var user := raw + HDR;
            && user !in active
            && HeadersOk(active[user := raw], headers[raw := Header(user, sz, IS_ALLOC)], allocs[raw := HDR + sz + FTR])
  {
    assert forall u :: u in active ==> active[u] != raw;
  }

  lemma RegisteredSizes(active: map<nat, nat>, headers: map<nat, Header>, raw: nat, sz: nat)
    requires raw + HDR !in active && forall u :: u in active ==> active[u] in headers && active[u] != raw
    ensures SizesOf(active[raw + HDR := raw], headers[raw := Header(raw + HDR, sz, IS_ALLOC)])
         == SizesOf(active, headers)[raw + HDR := sz]
  {
  }

  lemma Unregistered(active: map<nat, nat>, headers: map<nat, Header>, allocs: map<nat, nat>, user: nat)
    requires HeadersOk(active, headers, allocs) && user in active
    ensures var h := active[user];
            && h in headers
            && HeadersOk(active - {user}, headers[h := headers[h].(isAllocated := 0)], allocs - {h})
            && SizesOf(active - {user}, headers[h := headers[h].(isAllocated := 0)]) == SizesOf(active, headers) - {user}
            && SizesOf(active, headers)[user] == headers[h].allocSize
  {
    var h := active[user];
    assert forall u :: u in active && u != user ==> active[u] != h;
  }

  class DebugAllocator {
    const base: BaseAllocator
    var active: map<nat, nat>
    var headers: map<nat, Header>
    var stats: Stats
    ghost var log: seq<Entry>

    ghost function Sizes(): map<nat, nat>
      reads this
    {
      SizesOf(active, headers)
    }

    ghost predicate Valid()
      reads this, base
    {
      && BaseOk(base.allocs, base.frees) && HeadersOk(active, headers, base.allocs)
      && InHeap(Sizes(), stats.heapMin, stats.heapMax)
      && stats.nactive == |active| && stats.activeSize == Sum(Sizes())
      && stats == StatsAfter(log)
    }

    constructor ()
      ensures Valid() && fresh(base) && active == map[] && stats == NoStats() && log == []
    {
      hide BaseOk, HeadersOk, SizesOf, InHeap, Sum;
      base := new BaseAllocator();
      active, headers := map[], map[];
      stats, log := NoStats(), [];
      new;
      NoSizes();
    }

    /** The counters are the number and the size of the active blocks: neither ever wraps. */
    lemma CountersFit()
      requires Valid()
      ensures stats.nactive < WORD && stats.activeSize < WORD
    {
      hide BaseOk, HeadersOk, WholesApart, InHeap, Aligned, SizesOf, Sum;
      LiveApart(active, headers, base.allocs, base.frees);
      SizesKeys(active, headers, base.allocs);
      NoSizes();
      SumFits(Sizes(), WORD);
    }

    method Dmalloc(sz: nat) returns (user: nat)
      requires Valid() && sz < WORD
      modifies this, base
      ensures Valid()
      ensures user == 0 ==>
                active == old(active) && headers == old(headers) && log == old(log) + [Refused(sz)]
      ensures user != 0 ==>
                && user !in old(active) && user >= 48 && active == old(active)[user := user - 48]
                && Sizes() == old(Sizes())[user := sz] && log == old(log) + [Took(user, sz)]
                && base.allocs == old(base.allocs)[user - 48 := 48 + sz + 8]
                && headers == old(headers)[user - 48 := Header(user, sz, 0xf4ba49d1)]
      ensures sz > 0xFFFF_FFFF_FFFF_FFFF - 56 ==> user == 0
      ensures user == 0 <==> base.allocs == old(base.allocs)
    {
      hide BaseOk, HeadersOk, SizesOf, StatsAfter, InHeap, Sum, Recycled;
      if sz > WORD - 1 - HDR - FTR {
        Fail(sz);
        return 0;
      }
      var raw := base.Malloc(HDR + sz + FTR);
      if raw == 0 {
        Fail(sz);
        return 0;
      }
      RegisterReady(old(base.allocs), raw, sz);
      user := Register(raw, sz);
    }

    lemma RegisterReady(allocs: map<nat, nat>, raw: nat, sz: nat)
      requires HeadersOk(active, headers, allocs) && raw !in allocs && raw > 0
      ensures |Sizes()| == |active| && Sizes().Keys == active.Keys && raw + HDR !in active
      ensures var user := raw + HDR;
              && HeadersOk(active[user := raw], headers[raw := Header(user, sz, IS_ALLOC)], allocs[raw := HDR + sz + FTR])
              && SizesOf(active[user := raw], headers[raw := Header(user, sz, IS_ALLOC)]) == Sizes()[user := sz]
    {
      SizesKeys(active, headers, allocs);
      Registered(active, headers, allocs, raw, sz);
      assert forall u :: u in active ==> active[u] in headers && active[u] != raw;
      hide HeadersOk;
      RegisteredSizes(active, headers, raw, sz);
    }

    method Fail(sz: nat)
      requires stats == StatsAfter(log)
      modifies this`stats, this`log
      ensures stats == Failed(old(stats), sz) == StatsAfter(log) && log == old(log) + [Refused(sz)]
    {
      hide StatsAfter;
      StatsStep(log, Refused(sz));
      log := log + [Refused(sz)];
      stats := stats.(nfail := (stats.nfail + 1) % WORD, failSize := (stats.failSize + sz) % WORD);
    }

    /** Statistics, active map and header of a block just taken from the base layer. */
    method Register(raw: nat, sz: nat) returns (user: nat)
      requires raw > 0 && stats.nactive == |active| && stats.activeSize == Sum(Sizes()) && InHeap(Sizes(), stats.heapMin, stats.heapMax)
      requires stats == StatsAfter(log)
      requires raw + HDR !in active && Sizes().Keys == active.Keys
      requires SizesOf(active[raw + HDR := raw], headers[raw := Header(raw + HDR, sz, IS_ALLOC)]) == Sizes()[raw + HDR := sz]
      modifies this
      ensures user == raw + HDR && active == old(active)[user := raw]
      ensures headers == old(headers)[raw := Header(user, sz, IS_ALLOC)] && Sizes() == old(Sizes())[user := sz]
      ensures stats.nactive == |active| && stats.activeSize == Sum(Sizes()) && InHeap(Sizes(), stats.heapMin, stats.heapMax)
      ensures stats == StatsAfter(log) && log == old(log) + [Took(user, sz)]
    {
      hide SizesOf, InHeap, Sum, StatsAfter;
      StatsStep(log, Took(raw + HDR, sz));
      user := raw + HDR;
      log := log + [Took(user, sz)];
      SumWith(Sizes(), user, sz);
      InHeapWith(Sizes(), stats.heapMin, stats.heapMax, user, sz);
      stats := stats.(nactive := stats.nactive + 1, activeSize := stats.activeSize + sz,
                      ntotal := (stats.ntotal + 1) % WORD, totalSize := (stats.totalSize + sz) % WORD);
      active := active[user := raw];
      if user < stats.heapMin { stats := stats.(heapMin := user); }
      if user + sz > stats.heapMax { stats := stats.(heapMax := user + sz); }
      headers := headers[raw := Header(user, sz, IS_ALLOC)];
    }

    lemma UserBelowWord(user: nat)
      requires Valid() && user in active
      ensures user < WORD && Checked(user)
    {
      hide BaseOk, SizesOf, InHeap, Sum, Aligned, WholesApart, StatsAfter;
      LiveApart(active, headers, base.allocs, base.frees);
      SizesKeys(active, headers, base.allocs);
      HeaderOf(active, headers, base.allocs, user);
      HeaderPosition(user);
    }

    method Dcalloc(nmemb: nat, sz: nat) returns (user: nat)
      requires Valid() && nmemb < WORD && sz < WORD
      modifies this, base
      ensures Valid()
      ensures user != 0 ==>
                && user !in old(active) && user >= 48 && active == old(active)[user := user - 48]
                && Sizes() == old(Sizes())[user := Product(nmemb, sz)] && log == old(log) + [Took(user, Product(nmemb, sz))]
      ensures user == 0 ==>
                && active == old(active) && headers == old(headers)
                && log == old(log) + [if Product(nmemb, sz) >= 0x1_0000_0000_0000_0000 then Endless else Refused(Product(nmemb, sz))]
      ensures Product(nmemb, sz) > 0xFFFF_FFFF_FFFF_FFFF - 56 ==> user == 0
      ensures user == 0 <==> base.allocs == old(base.allocs)
    {
      hide BaseOk, HeadersOk, SizesOf, InHeap, Sum;
      ProductCheck(nmemb, sz);
      if TooLarge(nmemb, sz) {
        StatsStep(log, Endless);
        stats, log := Overflowed(stats), log + [Endless];
        return 0;
      }
      user := Dmalloc(Product(nmemb, sz));
    }

    /** `prev(upper_bound(p))`: the highest active address not above `p`. */
    method FloorKey(p: nat) returns (k: Option<nat>)
      ensures k.None? ==> forall u :: u in active ==> u > p
      ensures k.Some? ==> k.value in active && k.value <= p && forall u :: u in active && u <= p ==> u <= k.value
    {
      k := None;
      var rest := active.Keys;
      while rest != {}
        invariant rest <= active.Keys
        invariant k.None? ==> forall u :: u in active && u !in rest ==> u > p
        invariant k.Some? ==>
                    && k.value in active && k.value <= p
                    && forall u :: u in active && u !in rest && u <= p ==> u <= k.value
        decreases |rest|
      {
        var u :| u in rest;
        rest := rest - {u};
        if u <= p && (k.None? || u > k.value) { k := Some(u); }
      }
    }

    /** `stray` is what lies in memory before a pointer that has no header of ours.  An active pointer is
        released, unless nothing ever allocated ends above it: then the heap test refuses it. */
    method Dfree(ptr: nat, stray: Header) returns (outcome: Outcome)
      requires Valid() && ptr < WORD
      modifies this, base
      ensures Valid()
      ensures outcome == Ignored <==> ptr == 0
      ensures outcome == BadAlignment <==> ptr != 0 && (ptr - 48) % 0x1_0000_0000_0000_0000 % 16 != 0
      ensures outcome == NotInHeap <==> Checked(ptr) && !(old(stats).heapMin <= ptr < old(stats).heapMax)
      ensures outcome == DoubleFree <==>
                && Checked(ptr) && old(stats).heapMin <= ptr < old(stats).heapMax
                && var found := HeaderAt(old(headers), ptr, stray); found.ptrVal == ptr && found.isAllocated != 0xf4ba49d1
      ensures outcome == Released <==> ptr in old(active) && ptr < old(stats).heapMax
      ensures outcome.NotAllocated? ==> ptr !in old(active)
      ensures outcome.NotAllocated? ==>
                if outcome.inside.Some? then IsInside(old(Sizes()), ptr, outcome.inside.value) else NotInside(old(Sizes()), ptr)
      ensures WasFreed(old(active), old(headers), ptr) && old(stats).heapMin <= ptr < old(stats).heapMax ==>
                outcome == DoubleFree
      ensures outcome == Released ==>
                && active == old(active) - {ptr} && Sizes() == old(Sizes()) - {ptr} && base.allocs == old(base.allocs) - {ptr - 48}
                && ptr in old(Sizes()) && log == old(log) + [GaveBack(old(Sizes())[ptr])]
      ensures outcome != Released ==>
                && active == old(active) && headers == old(headers) && stats == old(stats) && log == old(log)
                && base.allocs == old(base.allocs) && base.frees == old(base.frees)
    {
      hide BaseOk, HeadersOk, SizesOf, InHeap, Sum, Aligned;
      KnownHeader(ptr);
      if ptr == 0 { return Ignored; }
      HeaderPosition(ptr);
      var hdr := (ptr - HDR) % WORD;
      if hdr % 16 != 0 { return BadAlignment; }
      if ptr < stats.heapMin || ptr >= stats.heapMax { return NotInHeap; }
      var info := if hdr in headers then headers[hdr] else stray;
      if info.ptrVal == ptr && info.isAllocated != IS_ALLOC { return DoubleFree; }
      if info.ptrVal != ptr || ptr !in active {
        var k := FloorKey(ptr);
        OnlyFloor(k, ptr);
        if k.Some? {
          var size := headers[active[k.value]].allocSize;
          if ptr > k.value && ptr < k.value + size {
            return NotAllocated(Some(Inside(k.value, size, ptr - k.value)));
          }
        }
        return NotAllocated(None);
      }
      Release(ptr);
      return Released;
    }

    /** Only the highest active block that starts at or below `p` can contain `p`. */
    lemma OnlyFloor(k: Option<nat>, p: nat)
      requires Valid()
      requires k.None? ==> forall u :: u in active ==> u > p
      requires k.Some? ==> k.value in active && k.value <= p && forall u :: u in active && u <= p ==> u <= k.value
      ensures k.None? ==> NotInside(Sizes(), p)
      ensures k.Some? ==>
                && k.value in active && active[k.value] in headers && k.value in Sizes()
                && Sizes()[k.value] == headers[active[k.value]].allocSize
                && (!(k.value < p < k.value + Sizes()[k.value]) ==> NotInside(Sizes(), p))
    {
      hide BaseOk, Aligned, InHeap, Sum;
      LiveApart(active, headers, base.allocs, base.frees);
      SizesKeys(active, headers, base.allocs);
      var m := Sizes();
      forall u | u in m && k.Some? && u != k.value && u <= p ensures p >= u + m[u] {
        assert Apart(Whole(u, m[u]), Whole(k.value, m[k.value]));
      }
    }

    /** What is found at the header position of an active pointer, and of one freed earlier. */
    lemma KnownHeader(ptr: nat)
      requires Valid()
      ensures ptr in active ==>
                && HDR < ptr < WORD && Aligned(ptr) && active[ptr] == ptr - HDR && ptr - HDR in headers
                && headers[ptr - HDR].ptrVal == ptr && headers[ptr - HDR].isAllocated == IS_ALLOC && stats.heapMin <= ptr
      ensures HDR < ptr && ptr - HDR in headers && ptr !in active ==>
                headers[ptr - HDR].ptrVal == ptr && headers[ptr - HDR].isAllocated != IS_ALLOC
    {
      hide BaseOk, Sum, Aligned, HeadersOk, SizesOf, InHeap;
      HeaderOf(active, headers, base.allocs, ptr);
      if ptr in active {
        SizesKeys(active, headers, base.allocs);
        LiveApart(active, headers, base.allocs, base.frees);
        HeapOf(Sizes(), stats.heapMin, stats.heapMax, ptr);
      }
    }

    method Release(ptr: nat)
      requires Valid() && ptr in active
      modifies this, base
      ensures Valid() && active == old(active) - {ptr} && Sizes() == old(Sizes()) - {ptr}
      ensures ptr >= 48 && base.allocs == old(base.allocs) - {ptr - 48}
      ensures ptr in old(Sizes()) && log == old(log) + [GaveBack(old(Sizes())[ptr])]
    {
      hide BaseOk, HeadersOk, SizesOf, InHeap, Sum, StatsAfter;
      KnownHeader(ptr);
      SizesKeys(active, headers, base.allocs);
      Unregistered(active, headers, base.allocs, ptr);
      ghost var m := Sizes();
      SumWithout(m, ptr);
      InHeapWith(m, stats.heapMin, stats.heapMax, ptr, 0);
      var hdr := active[ptr];
      var info := headers[hdr];
      headers := headers[hdr := info.(isAllocated := 0)];
      base.Free(hdr);
      active := active - {ptr};
      StatsStep(log, GaveBack(info.allocSize));
      log := log + [GaveBack(info.allocSize)];
      stats := stats.(nactive := stats.nactive - 1, activeSize := stats.activeSize - info.allocSize);
    }
  }

  /** The address was handed out once, and is not active now. */
  predicate WasFreed(active: map<nat, nat>, headers: map<nat, Header>, ptr: nat) {
    ptr > HDR && Aligned(ptr) && ptr - HDR in headers && ptr !in active
  }

  /** The pointer is not null and its header would be aligned. */
  predicate Checked(ptr: nat) {
    ptr != 0 && (ptr - 48) % 0x1_0000_0000_0000_0000 % 16 == 0
  }

  /** The header that is found before `ptr`: one written earlier, or whatever else lies there. */
  function HeaderAt(headers: map<nat, Header>, ptr: nat, stray: Header): Header {
    var place := (ptr - 48) % 0x1_0000_0000_0000_0000;
    if place in headers then headers[place] else stray
  }

  ghost predicate IsInside(sizes: map<nat, nat>, p: nat, i: Inside) {
    i.start in sizes && i.size == sizes[i.start] && i.offset == p - i.start && i.start < p < i.start + i.size
  }

  ghost predicate NotInside(sizes: map<nat, nat>, p: nat) {
    forall u :: u in sizes ==> !(u < p < u + sizes[u])
  }

  lemma HeaderPosition(ptr: nat)
    requires ptr < WORD
    ensures HDR < ptr ==> (ptr - HDR) % WORD == ptr - HDR
    ensures HDR < ptr && Aligned(ptr) ==> (ptr - HDR) % WORD % 16 == 0
  {
  }

  function Product(n: nat, sz: nat): nat { n * sz }

  /** The overflow test of `dcalloc`. */
  predicate TooLarge(n: nat, sz: nat) {
    !(n == 0 || sz == 0) && sz > (WORD - 1) / n
  }

  /** It is exact. */
  lemma ProductCheck(n: nat, sz: nat)
    ensures TooLarge(n, sz) <==> Product(n, sz) >= WORD
  {
    if n > 0 {
      var q: int, r: int := (WORD - 1) / n, (WORD - 1) % n;
      DivisionTest(WORD - 1, n, q, r, sz);
      assert sz * n == n * sz;
    }
  }

  /** The C library has places for the zero-sized first block of a program, at every aligned address that
      leaves room for header and footer. */
  lemma EmptyBlockFits(ptr: nat)
    ensures CanPlace(map[], [], Block(ptr, HDR + FTR)) <==> InMemory(Block(ptr, HDR + FTR))
    ensures CanPlace(map[], [], Block(0x1000, HDR + FTR))
  {
  }

  lemma FirstTaken(user: nat)
    ensures StatsAfter([Took(user, 0)]).heapMax == user
  {
    assert [Took(user, 0)][..0] == [];
  }

  /** The refusal is real: freeing the zero-sized first block of a program is reported as a bug. */
  method FreeEmptyBlock() returns (user: nat, outcome: Outcome)
    ensures user != 0 ==> outcome == NotInHeap
  {
    hide BaseOk, HeadersOk, SizesOf, InHeap, Sum, StatsAfter;
    var d := new DebugAllocator();
    user := d.Dmalloc(0);
    outcome := Ignored;
    if user != 0 {
      FirstTaken(user);
      assert d.log == [Took(user, 0)];
      d.UserBelowWord(user);
      outcome := d.Dfree(user, Header(0, 0, 0));
    }
  }
}

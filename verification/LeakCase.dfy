/**
 From every boot state there is a run in which a failed fork leaves a page counted for ever
 (weensyos/kernel.cc:483-493): one program start fills memory so far that the fork runs out between
 the page for the copy of the stack and the table to map it in.
 */
module LeakCase {
  import opened Wrappers
  import opened Paging
  import opened PhysMem
  import opened Kernel
  import opened Invariant
  import opened Mapping
  import opened Forking
  import opened Calls
  import opened Setup
  import opened Budget
  import opened ForkCost
  import opened StartCost
  import opened Runs

  lemma {:induction false} EntryAt(pages: seq<(nat, bool)>, i: nat)
    requires i < |pages| && forall j, k :: 0 <= j < k < |pages| ==> pages[j].0 != pages[k].0
    ensures ImageEntry(pages, pages[i].0) == Some(pages[i].1)
  {
    if i > 0 {
      assert pages[1..][i - 1] == pages[i];
      EntryAt(pages[1..], i - 1);
    } else {
      NoEntry(pages[1..], pages[0].0);
    }
  }

  lemma {:induction false} NoEntry(pages: seq<(nat, bool)>, v: nat)
    requires forall i :: 0 <= i < |pages| ==> pages[i].0 != v
    ensures ImageEntry(pages, v) == None
  {
    if pages != [] { NoEntry(pages[1..], v); }
  }

  /** An image of `n` pages, the first `a` of them writable. */
  function Image(n: nat, a: nat): (pages: seq<(nat, bool)>)
    ensures |pages| == n
  {
    seq(n, i requires 0 <= i < n => (USER_FIRST + i, i < a))
  }

  lemma ImageEntries(n: nat, a: nat, v: nat)
    requires n < ENTRIES - USER_FIRST && v < USER_END
    ensures ImageEntry(Image(n, a) + [(USER_END - 1, true)], v)
         == if USER_FIRST <= v < USER_FIRST + n then Some(v - USER_FIRST < a)
            else if v == USER_END - 1 then Some(true) else None
    ensures UserPages(Image(n, a))
  {
    var pages := Image(n, a) + [(USER_END - 1, true)];
    assert forall i :: 0 <= i < n ==> pages[i] == (USER_FIRST + i, i < a);
    assert pages[n] == (USER_END - 1, true);
    if USER_FIRST <= v < USER_FIRST + n {
      EntryAt(pages, v - USER_FIRST);
    } else if v == USER_END - 1 {
      EntryAt(pages, n);
    } else {
      NoEntry(pages, v);
    }
  }

  /** What the process that was started with that image maps. */
  lemma ImageLoaded(mem: Memory, root: nat, n: nat, a: nat)
    requires n < ENTRIES - USER_FIRST && a <= n && Loaded(mem, root, Image(n, a) + [(USER_END - 1, true)])
    ensures FirstData(mem, root, HIGH_FIRST) == Some(USER_END - 1) && MapsWritable(mem, root, USER_END - 1)
    ensures |Writables(mem, root, 0, HIGH_FIRST)| == a
  {
    hide Leaf, Image;
    forall v: nat | v < USER_END
      ensures MapsData(mem, root, v) <==> DataPage(v) && (USER_FIRST <= v < USER_FIRST + n || v == USER_END - 1)
      ensures MapsWritable(mem, root, v) <==> DataPage(v) && (USER_FIRST <= v < USER_FIRST + a || v == USER_END - 1)
    {
      ImageEntries(n, a, v);
    }
    assert MapsData(mem, root, USER_END - 1);
    assert Writables(mem, root, 0, HIGH_FIRST) == Range(USER_FIRST, a);
  }

  /** A start, then a fork that fails and loses a page. */
  lemma LeakFromBoot(s: State) returns (pages: seq<(nat, bool)>, s1: State, s2: State)
    requires Boot(s)
    ensures Run(s, [Event.Start(1, pages)], s1) && Run(s, [Event.Start(1, pages), Fork(1)], s2)
    ensures SafeState(s1) && Running(s1, 1) && SysFork(s1, 1) == Ret(-1, s2)
    ensures s2.procs == s1.procs && exists p: nat :: p < NPAGES && s1.m.rc[p] == 0 && s2.m.rc == s1.m.rc[p := 1]
  {
    hide Good, ProcessSetup, SysFork, FreeCount, Loaded, LosesPage, UserPages, Image;
    BootPages(s);
    var a, b := (FreeCount(s.m) - 11) / 2, (FreeCount(s.m) - 11) % 2;
    pages := Image(a + b, a);
    ImageEntries(a + b, a, 0);
    var role1;
    s1, role1 := StartFromBoot(s, pages);
    FillsUp(s1, a, a + b);
    ForkFailureExact(s1, role1, 1);
    var role2, leak := ForkCorrect(s1, role1, 1);
    s2 := SysFork(s1, 1).s;
    TwoSteps(s, Event.Start(1, pages), s1, Fork(1), s2);
  }

  lemma FillsUp(s: State, a: nat, n: nat)
    requires Running(s, 1) && n < ENTRIES - USER_FIRST && a <= n && FreeCount(s.m) == 5 + a
    requires Loaded(s.m.mem, s.procs[1].root, Image(n, a) + [(USER_END - 1, true)])
    ensures LosesPage(s, 1)
  {
    hide FreeCount, Loaded, FirstData, Writables, Image;
    ImageLoaded(s.m.mem, s.procs[1].root, n, a);
  }
}

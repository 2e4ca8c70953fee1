/**
 Address spaces in plain page numbers (weensyos/kernel.hh:39-53, weensyos/kernel.cc:180-249, 436-446): what a
 program finds mapped when it starts, which process a fork makes, and what a store does.
 */
module Layout {
  import opened Wrappers
  import opened Paging
  import opened PhysMem
  import opened Kernel
  import opened Invariant
  import opened Mapping
  import opened Calls
  import opened Allocation
  import opened Setup

  /** Entry `i` of the image is the one that counts for page `v`: there is none for it behind. */
  predicate LastFor(pages: seq<(nat, bool)>, i: nat, v: nat) {
    i < |pages| && pages[i].0 == v && forall j: nat :: i < j < |pages| ==> pages[j].0 != v
  }

  lemma {:induction false} ImageExact(pages: seq<(nat, bool)>, v: nat)
    ensures forall i: nat :: LastFor(pages, i, v) ==> ImageEntry(pages, v) == Some(pages[i].1)
    ensures ImageEntry(pages, v).Some? ==> exists i: nat :: LastFor(pages, i, v)
    decreases |pages|
  {
    if pages != [] {
      var rest := pages[1..];
      ImageExact(rest, v);
      forall i: nat | i + 1 < |pages| ensures LastFor(rest, i, v) <==> LastFor(pages, i + 1, v) {
        assert forall j: nat :: 1 <= j < |pages| ==> pages[j] == rest[j - 1];
        if LastFor(rest, i, v) {
          forall j: nat | i + 1 < j < |pages| ensures pages[j].0 != v { assert rest[j - 1].0 != v; }
        }
      }
      forall i: nat | LastFor(pages, i, v) ensures ImageEntry(pages, v) == Some(pages[i].1) {
        if i > 0 {
          assert LastFor(rest, i - 1, v) && rest[i - 1] == pages[i];
        } else {
          forall j: nat | j < |rest| ensures rest[j].0 != v { assert pages[j + 1].0 != v; }
          assert ImageEntry(rest, v).None?;
        }
      }
      if ImageEntry(pages, v).Some? {
        if ImageEntry(rest, v).Some? {
          var i: nat :| LastFor(rest, i, v);
          assert LastFor(pages, i + 1, v);
        } else {
          forall j: nat | 0 < j < |pages| ensures pages[j].0 != v { NoEntryBehind(rest, j - 1, v); }
          assert LastFor(pages, 0, v);
        }
      }
    }
  }

  lemma {:induction false} NoEntryBehind(pages: seq<(nat, bool)>, j: nat, v: nat)
    requires j < |pages| && ImageEntry(pages, v).None?
    ensures pages[j].0 != v
    decreases j
  {
    if j > 0 { NoEntryBehind(pages[1..], j - 1, v); }
  }

  /** A program that has just started maps the kernel's pages [0x40, 0x80) to themselves for the kernel only, the
      console, its image with the rights of the last entry for each page, and the stack page 0x2FF, writable.
      Each page of image and stack has a page of its own that was not in use; nothing else is mapped. */
  lemma StartLayout(s: State, role: Roles, pid: nat, pages: seq<(nat, bool)>, v: nat)
    requires Safe(s, role) && pid < 16 && s.procs[pid].FreeSlot? && v < 0x300
    requires forall i: nat :: i < |pages| ==> 0x100 <= pages[i].0 < 0x300
    requires ProcessSetup(s, pid, pages).Some?
    ensures var s' := ProcessSetup(s, pid, pages).value;
            && Running(s', pid)
            && var perm, frame := ItPerm(s'.m.mem, s'.procs[pid].root, v), ItFrame(s'.m.mem, s'.procs[pid].root, v);
            && (0x40 <= v < 0x80 ==> perm == Perm(true, true, false) && frame == v)
            && (v == 0xB8 ==> perm == Perm(true, true, true) && frame == 0xB8)
            && (v == 0x2FF ==> perm == Perm(true, true, true))
            && (forall i: nat :: v != 0x2FF && LastFor(pages, i, v) ==> perm == Perm(true, pages[i].1, true))
            && (perm.p <==> 0x40 <= v < 0x80 || v == 0xB8 || v == 0x2FF || exists i: nat :: LastFor(pages, i, v))
            && (perm.p && v >= 0x100 ==>
                  && frame < 512 && !KernelOwned(s.m.kend, frame) && s.m.rc[frame] == 0 && s'.m.rc[frame] == 1
                  && forall v': nat :: 0x80 <= v' < 0x300 && v' != v && ItPerm(s'.m.mem, s'.procs[pid].root, v').p ==>
                       ItFrame(s'.m.mem, s'.procs[pid].root, v') != frame)
  {
    hide Good, Leaf, ProcessSetup, ItPerm, ItFrame, Uses, Allocatable, KernelOwned, LastFor, SameEntries, AllPrivate, Loaded;
    assert UserPages(pages);
    var role' := ProcessSetupCorrect(s, role, pid, pages);
    var s' := ProcessSetup(s, pid, pages).value;
    ItLeaf(s'.m, Roots(s'.procs), role', pid, v);
    EntryOf(s'.m.mem, s'.procs[pid].root, pages, v);
    if v >= 0x100 && Leaf(s'.m.mem, s'.procs[pid].root, v).perm.p {
      OwnFrame(s, s', role', pid, v);
    }
  }

  /** The entry for page `v` of a new process. */
  lemma EntryOf(mem: Memory, root: nat, pages: seq<(nat, bool)>, v: nat)
    requires Loaded(mem, root, pages + [(0x2FF, true)]) && v < 0x300
    requires forall i: nat :: i < |pages| ==> 0x100 <= pages[i].0 < 0x300
    ensures var e := Leaf(mem, root, v);
            && (0x40 <= v < 0x80 ==> e == EntryWord(v, Perm(true, true, false)))
            && (v == 0xB8 ==> e == EntryWord(0xB8, Perm(true, true, true)))
            && (v == 0x2FF ==> e.perm == Perm(true, true, true))
            && (forall i: nat :: v != 0x2FF && LastFor(pages, i, v) ==> e.perm == Perm(true, pages[i].1, true))
            && (e.perm.p <==> 0x40 <= v < 0x80 || v == 0xB8 || v == 0x2FF || exists i: nat :: LastFor(pages, i, v))
  {
    hide Leaf, ImageEntry;
    ImageExact(pages, v);
    AllEntries(pages, v);
    if v < 0x100 { assert forall i: nat :: !LastFor(pages, i, v); }
  }

  /** The image with the stack page behind it. */
  lemma AllEntries(pages: seq<(nat, bool)>, v: nat)
    ensures ImageEntry(pages + [(0x2FF, true)], v) == if v == 0x2FF then Some(true) else ImageEntry(pages, v)
    decreases |pages|
  {
    var all := pages + [(0x2FF, true)];
    if pages == [] {
      assert all == [(0x2FF, true)] && all[1..] == [];
    } else {
      AllEntries(pages[1..], v);
      assert all[1..] == pages[1..] + [(0x2FF, true)];
    }
  }

  lemma OwnFrame(s: State, s': State, role': Roles, pid: nat, v: nat)
    requires Safe(s', role') && Running(s', pid) && 0x100 <= v < 0x300 && s'.m.kend == s.m.kend
    requires Leaf(s'.m.mem, s'.procs[pid].root, v).perm.p
    requires AllPrivate(s'.m, s'.procs[pid].root)
    requires forall p: nat :: p < NPAGES && s.m.rc[p] != 0 ==> !Uses(role'[p], pid)
    ensures var root, frame := s'.procs[pid].root, Leaf(s'.m.mem, s'.procs[pid].root, v).frame;
            && frame < 512 && !KernelOwned(s.m.kend, frame) && s.m.rc[frame] == 0 && s'.m.rc[frame] == 1
            && forall v': nat :: 0x80 <= v' < 0x300 && v' != v && ItPerm(s'.m.mem, root, v').p ==> ItFrame(s'.m.mem, root, v') != frame
  {
    hide Leaf, ItPerm, ItFrame, KernelOwned;
    var root := s'.procs[pid].root;
    var frame := Leaf(s'.m.mem, root, v).frame;
    ItLeaf(s'.m, Roots(s'.procs), role', pid, v);
    assert Private(s'.m, root, v);
    AllocatableExact(s.m.kend, frame);
    forall v': nat | 0x80 <= v' < 0x300 && v' != v && ItPerm(s'.m.mem, root, v').p ensures ItFrame(s'.m.mem, root, v') != frame {
      ItLeaf(s'.m, Roots(s'.procs), role', pid, v');
    }
  }

  /** A fork takes the lowest free process number from 1 to 15. */
  lemma ForkNumber(s: State, role: Roles, pid: nat)
    requires Safe(s, role) && Running(s, pid)
    ensures var o := SysFork(s, pid);
            && |s.procs| == 16
            && (o.Ret? && o.value >= 0 ==>
                  && 1 <= o.value < 16 && s.procs[o.value].FreeSlot?
                  && forall q: nat :: 1 <= q < o.value ==> Running(s, q))
            && ((forall q: nat :: 1 <= q < 16 ==> Running(s, q)) ==> o == Ret(-1, s))
  {
    hide CopyAll, FreePagetable;
    var slot := FindSlot(s.procs, 1);
    if slot.Some? { assert !Running(s, slot.value); }
  }

  /** A store changes the word it names in the page that its address is mapped to, if that is writable for the
      user, and nothing else; otherwise it faults. */
  lemma StoreExact(s: State, role: Roles, pid: nat, vpn: nat, i: nat, word: Word)
    requires Safe(s, role) && Running(s, pid) && vpn < 0x300 && i < 512
    ensures var o, perm := UserStore(s, pid, vpn, i, word), ItPerm(s.m.mem, s.procs[pid].root, vpn);
            && (o.Some? <==> perm.p && perm.w && perm.u)
            && (o.Some? ==>
                  var frame := ItFrame(s.m.mem, s.procs[pid].root, vpn);
                  && frame < 512 && o.value.procs == s.procs && o.value.m.rc == s.m.rc && o.value.m.mem[frame][i] == word
                  && forall p: nat, j: nat :: p < 512 && j < 512 && !(p == frame && j == i) ==>
                       o.value.m.mem[p][j] == s.m.mem[p][j])
  {
    hide Good, Leaf, ItPerm, ItFrame;
    ItLeaf(s.m, Roots(s.procs), role, pid, vpn);
  }
}

/**
 The order in which `ptiter` must visit the page-table pages below a root
 (weensyos/k-vmiter.hh:122-131): depth first, every page after all pages below it.
 */
module PostOrder {
  import opened Wrappers
  import opened Paging

  predicate HasTable(mem: Memory, root: nat, path: Path) {
    Node(mem, root, path).Some?
  }

  /** The table pages below `q` whose first step from `q` is entry `i` or a later one. */
  function Below(mem: Memory, root: nat, q: Path, i: nat): seq<Path>
    requires Depth(q) <= 2 && i <= ENTRIES
    decreases 3 - Depth(q), ENTRIES - i
  {
    if i == ENTRIES then []
    else Subtree(mem, root, q, i) + Below(mem, root, q, i + 1)
  }

  /** The table at entry `i` of `q`, if any, preceded by everything below it. */
  function Subtree(mem: Memory, root: nat, q: Path, i: nat): seq<Path>
    requires Depth(q) <= 2 && i < ENTRIES
    decreases 3 - Depth(q), ENTRIES - i, 0
  {
    if !HasTable(mem, root, Sub(q, i)) then []
    else if Depth(q) == 2 then [Sub(q, i)]
    else Below(mem, root, Sub(q, i), 0) + [Sub(q, i)]
  }

  function Tables(mem: Memory, root: nat): seq<Path> {
    Below(mem, root, Root, 0)
  }

  /** The entry of `q` through which `x` hangs below `q`, if it does. */
  function Branch(x: Path, q: Path): Option<nat> {
    match x
    case Root => None
    case Sub(up, j) => if up == q then Some(j) else Branch(up, q)
  }

  lemma {:induction false} BranchStep(x: Path, q: Path, i: nat)
    ensures Branch(x, Sub(q, i)).Some? ==> Branch(x, q) == Some(i)
    ensures Branch(x, q) == Some(i) ==> x == Sub(q, i) || Branch(x, Sub(q, i)).Some?
    ensures Branch(x, q).Some? ==> Depth(x) > Depth(q)
  {
    match x
    case Root =>
    case Sub(up, j) => BranchStep(up, q, i);
  }

  lemma {:induction false} TableDepth(mem: Memory, root: nat, x: Path)
    requires HasTable(mem, root, x)
    ensures Depth(x) <= 3
    ensures x.Sub? ==> x.i < ENTRIES && HasTable(mem, root, x.up)
  {
  }

  lemma {:induction false} BranchTable(mem: Memory, root: nat, x: Path, q: Path)
    requires HasTable(mem, root, x) && Branch(x, q).Some?
    ensures Branch(x, q).value < ENTRIES && HasTable(mem, root, Sub(q, Branch(x, q).value))
  {
    TableDepth(mem, root, x);
    if x.up != q { BranchTable(mem, root, x.up, q); }
  }

  /** Exactly the tables below `q` at entry `i` or later are listed. */
  lemma {:induction false} BelowMembers(mem: Memory, root: nat, q: Path, i: nat, x: Path)
    requires Depth(q) <= 2 && i <= ENTRIES
    ensures x in Below(mem, root, q, i)
       <==> HasTable(mem, root, x) && Branch(x, q).Some? && Branch(x, q).value >= i
    decreases 3 - Depth(q), ENTRIES - i
  {
    if i == ENTRIES {
      if HasTable(mem, root, x) && Branch(x, q).Some? { BranchTable(mem, root, x, q); }
    } else {
      SubtreeMembers(mem, root, q, i, x);
      BelowMembers(mem, root, q, i + 1, x);
    }
  }

  lemma {:induction false} SubtreeMembers(mem: Memory, root: nat, q: Path, i: nat, x: Path)
    requires Depth(q) <= 2 && i < ENTRIES
    ensures x in Subtree(mem, root, q, i) <==> HasTable(mem, root, x) && Branch(x, q) == Some(i)
    decreases 3 - Depth(q), ENTRIES - i, 0
  {
    BranchStep(x, q, i);
    var c := Sub(q, i);
    assert Branch(c, q) == Some(i);
    if HasTable(mem, root, x) && Branch(x, q) == Some(i) {
      BranchTable(mem, root, x, q);
      TableDepth(mem, root, x);
      BranchStep(x, c, 0);
    }
    if HasTable(mem, root, c) && Depth(q) < 2 {
      BelowMembers(mem, root, c, 0, x);
    }
  }

  ghost predicate NoDuplicates<T(!new)>(s: seq<T>) {
    forall i, j :: 0 <= i < j < |s| ==> s[i] != s[j]
  }

  /** Each listed table comes after every listed table below it. */
  ghost predicate ChildrenFirst(s: seq<Path>) {
    forall i, j :: 0 <= i < j < |s| ==> Branch(s[j], s[i]).None?
  }

  lemma ConcatOrder(s: seq<Path>, t: seq<Path>)
    requires NoDuplicates(s) && NoDuplicates(t) && ChildrenFirst(s) && ChildrenFirst(t)
    requires forall x, y :: x in s && y in t ==> x != y && Branch(y, x).None?
    ensures NoDuplicates(s + t) && ChildrenFirst(s + t)
  {
    forall i, j | 0 <= i < j < |s + t| ensures (s + t)[i] != (s + t)[j] && Branch((s + t)[j], (s + t)[i]).None? {
      if i < |s| <= j {
        assert (s + t)[i] in s && (s + t)[j] in t;
      }
    }
  }

  lemma {:induction false} BelowOrder(mem: Memory, root: nat, q: Path, i: nat)
    requires Depth(q) <= 2 && i <= ENTRIES
    ensures NoDuplicates(Below(mem, root, q, i)) && ChildrenFirst(Below(mem, root, q, i))
    decreases 3 - Depth(q), ENTRIES - i
  {
    if i < ENTRIES {
      var s, t := Subtree(mem, root, q, i), Below(mem, root, q, i + 1);
      SubtreeOrder(mem, root, q, i);
      BelowOrder(mem, root, q, i + 1);
      forall x, y | x in s && y in t ensures x != y && Branch(y, x).None? {
        SubtreeMembers(mem, root, q, i, x);
        BelowMembers(mem, root, q, i + 1, y);
        if Branch(y, x).Some? { BranchThrough(y, x, q); }
      }
      ConcatOrder(s, t);
    }
  }

  lemma {:induction false} BranchThrough(y: Path, x: Path, q: Path)
    requires Branch(y, x).Some? && Branch(x, q).Some?
    ensures Branch(y, q) == Branch(x, q)
  {
    if y.up != x {
      BranchThrough(y.up, x, q);
    }
    BranchStep(x, q, 0);
    if y.up == q {
      BranchStep(q, x, 0);
    }
  }

  lemma {:induction false} SubtreeOrder(mem: Memory, root: nat, q: Path, i: nat)
    requires Depth(q) <= 2 && i < ENTRIES
    ensures NoDuplicates(Subtree(mem, root, q, i)) && ChildrenFirst(Subtree(mem, root, q, i))
    decreases 3 - Depth(q), ENTRIES - i, 0
  {
    var c := Sub(q, i);
    if HasTable(mem, root, c) && Depth(q) < 2 {
      var s := Below(mem, root, c, 0);
      BelowOrder(mem, root, c, 0);
      forall x | x in s ensures x != c && Branch(c, x).None? {
        BelowMembers(mem, root, c, 0, x);
        BranchStep(x, c, 0);
        BranchStep(c, x, 0);
      }
      ConcatOrder(s, [c]);
    }
  }

  /** `Tables` lists every table page below the root exactly once, descendants first. */
  lemma TablesExact(mem: Memory, root: nat)
    ensures forall x :: x in Tables(mem, root) <==> HasTable(mem, root, x) && x != Root
    ensures NoDuplicates(Tables(mem, root)) && ChildrenFirst(Tables(mem, root))
  {
    forall x ensures x in Tables(mem, root) <==> HasTable(mem, root, x) && x != Root {
      BelowMembers(mem, root, Root, 0, x);
      BelowRoot(x);
    }
    BelowOrder(mem, root, Root, 0);
  }

  lemma {:induction false} BelowRoot(x: Path)
    ensures Branch(x, Root).Some? <==> x != Root
  {
    match x
    case Root =>
    case Sub(up, _) => BelowRoot(up);
  }
}

/**
 Doubly linked lists (snake/src/linked_list.c:28-308), changed in place.  `nodes` is the list from the
 head on; each operation is stated on the sequence of its data.
 */
module LinkedLists {
  import opened Wrappers

  class Node {
    var data: nat
    var next: Node?
    var prev: Node?

    constructor (data: nat, next: Node?)
      ensures this.data == data && this.next == next && this.prev == null
    {
      this.data, this.next, this.prev := data, next, null;
    }
  }

  function Reversed(s: seq<nat>): (r: seq<nat>)
    ensures |r| == |s| && forall i: nat :: i < |s| ==> r[i] == s[|s| - 1 - i]
  {
    if s == [] then [] else Reversed(s[1..]) + [s[0]]
  }

  predicate Mirrors(s: seq<nat>, r: seq<nat>) {
    |r| == |s| && forall i: nat :: i < |s| ==> r[i] == s[|s| - 1 - i]
  }

  lemma ReversedIs(s: seq<nat>, r: seq<nat>)
    requires Mirrors(s, r)
    ensures r == Reversed(s)
  {
  }

  /** `s` without its first `x`. */
  function Without(s: seq<nat>, x: nat): seq<nat> {
    if s == [] then [] else if s[0] == x then s[1..] else [s[0]] + Without(s[1..], x)
  }

  lemma {:induction false} WithoutAt(s: seq<nat>, x: nat, i: nat)
    requires i < |s| && s[i] == x && forall j: nat :: j < i ==> s[j] != x
    ensures Without(s, x) == s[..i] + s[i + 1..]
  {
    if i > 0 {
      WithoutAt(s[1..], x, i - 1);
      assert s[..i] == [s[0]] + s[1..][..i - 1] && s[1..][i..] == s[i + 1..];
    }
  }

  lemma {:induction false} WithoutAbsent(s: seq<nat>, x: nat)
    requires forall j: nat :: j < |s| ==> s[j] != x
    ensures Without(s, x) == s
  {
    if s != [] { WithoutAbsent(s[1..], x); }
  }

  /** The node at place `i`, if there is one. */
  function At(nodes: seq<Node>, i: int): Node? {
    if 0 <= i < |nodes| then nodes[i] else null
  }

  ghost function Backwards(nodes: seq<Node>): (r: seq<Node>)
    ensures |r| == |nodes| && forall k: nat :: k < |nodes| ==> r[k] == nodes[|nodes| - 1 - k]
  {
    seq(|nodes|, k requires 0 <= k < |nodes| => nodes[|nodes| - 1 - k])
  }

  lemma BackwardsFacts(nodes: seq<Node>)
    requires forall i: nat, j: nat :: i < j < |nodes| ==> nodes[i] != nodes[j]
    ensures forall i: nat, j: nat :: i < j < |nodes| ==> Backwards(nodes)[i] != Backwards(nodes)[j]
    ensures |Backwards(nodes)| == |nodes| && At(Backwards(nodes), 0) == At(nodes, |nodes| - 1)
  {
  }

  lemma BackwardsAt(nodes: seq<Node>, k: nat)
    requires k < |nodes|
    ensures |Backwards(nodes)| == |nodes| && Backwards(nodes)[k] == nodes[|nodes| - 1 - k]
    ensures SwappedAt(nodes, |nodes| - 1 - k) ==> LinkedAt(Backwards(nodes), k)
  {
  }

  lemma BackwardsData(nodes: seq<Node>, s: seq<nat>, r: seq<nat>)
    requires |s| == |nodes| == |r| == |Backwards(nodes)|
    requires forall i: nat :: i < |nodes| ==> s[i] == nodes[i].data
    requires forall i: nat :: i < |nodes| ==> r[i] == Backwards(nodes)[i].data
    ensures Mirrors(s, r)
  {
    hide Reversed, Backwards, SwappedAt, LinkedAt;
    forall i: nat | i < |nodes| ensures r[i] == s[|s| - 1 - i] {
      BackwardsAt(nodes, i);
    }
  }

  ghost predicate Linked(node: Node, before: Node?, after: Node?)
    reads node
  {
    node.prev == before && node.next == after
  }

  /** The node at place `i` points to its neighbours. */
  ghost predicate LinkedAt(nodes: seq<Node>, i: nat)
    requires i < |nodes|
    reads nodes
  {
    Linked(nodes[i], At(nodes, i - 1), At(nodes, i + 1))
  }

  ghost predicate SwappedAt(nodes: seq<Node>, i: nat)
    requires i < |nodes|
    reads nodes
  {
    Linked(nodes[i], At(nodes, i + 1), At(nodes, i - 1))
  }

  /** As LinkedAt, but past the node at place `i`. */
  ghost predicate BypassedAt(nodes: seq<Node>, i: nat, k: nat)
    requires k < |nodes|
    reads nodes
  {
    Linked(nodes[k], At(nodes, if k == i + 1 then i - 1 else k - 1), At(nodes, if k == i - 1 then i + 1 else k + 1))
  }

  class List {
    var head: Node?
    ghost var nodes: seq<Node>

    ghost predicate Valid()
      reads this, nodes
    {
      && head == At(nodes, 0)
      && (forall i: nat, j: nat :: i < j < |nodes| ==> nodes[i] != nodes[j])
      && (forall i: nat :: i < |nodes| ==> LinkedAt(nodes, i))
    }

    ghost function Elements(): (s: seq<nat>)
      reads this, nodes
      ensures |s| == |nodes| && forall i: nat :: i < |nodes| ==> s[i] == nodes[i].data
    {
      seq(|nodes|, i requires 0 <= i < |nodes| reads this, nodes => nodes[i].data)
    }

    /** Where following `next` leads from place `i`. */
    lemma Follow(i: nat)
      requires Valid() && i < |nodes|
      ensures nodes[i].next == At(nodes, i + 1) && nodes[i].prev == At(nodes, i - 1)
    {
      assert LinkedAt(nodes, i);
    }

    constructor ()
      ensures Valid() && nodes == [] && Elements() == []
    {
      head := null;
      nodes := [];
    }

    method Length() returns (len: nat)
      requires Valid()
      ensures len == |Elements()|
    {
      len := 0;
      var current := head;
      while current != null
        invariant len <= |nodes| && current == At(nodes, len)
        decreases |nodes| - len
      {
        Follow(len);
        len := len + 1;
        current := current.next;
      }
    }

    method GetFirst() returns (data: Option<nat>)
      requires Valid()
      ensures data == if Elements() == [] then None else Some(Elements()[0])
    {
      if head == null { return None; }
      return Some(head.data);
    }

    /** The last node and, as a ghost, its place. */
    method Last() returns (curr: Node)
      requires Valid() && head != null
      ensures curr == nodes[|nodes| - 1]
    {
      curr := head;
      ghost var i: nat := 0;
      Follow(0);
      while curr.next != null
        invariant i < |nodes| && curr == nodes[i] && curr.next == At(nodes, i + 1)
        decreases |nodes| - i
      {
        curr := curr.next;
        i := i + 1;
        Follow(i);
      }
    }

    method GetLast() returns (data: Option<nat>)
      requires Valid()
      ensures data == if Elements() == [] then None else Some(Elements()[|Elements()| - 1])
    {
      if head == null { return None; }
      var curr := Last();
      return Some(curr.data);
    }

    method Get(index: int) returns (data: Option<nat>)
      requires Valid()
      ensures data == if 0 <= index < |Elements()| then Some(Elements()[index]) else None
    {
      if index < 0 { return None; }
      var curr, k := head, index;
      ghost var i: nat := 0;
      while curr != null
        invariant i <= |nodes| && curr == At(nodes, i) && k == index - i && k >= 0
        decreases |nodes| - i
      {
        Follow(i);
        if k == 0 { return Some(curr.data); }
        k := k - 1;
        curr := curr.next;
        i := i + 1;
      }
      return None;
    }

    method InsertFirst(data: nat)
      requires Valid()
      modifies this, nodes
      ensures Valid() && Elements() == [data] + old(Elements())
      ensures |nodes| == |old(nodes)| + 1 && fresh(nodes[0]) && nodes[1..] == old(nodes)
    {
      ghost var was := nodes;
      if head != null { Follow(0); }
      var node := new Node(data, head);
      if head != null {
        head.prev := node;
      }
      head := node;
      nodes := [node] + nodes;
      forall i: nat | i < |nodes| ensures LinkedAt(nodes, i) {
        assert i > 0 ==> nodes[i] == was[i - 1] && old(LinkedAt(was, i - 1));
      }
    }

    method RemoveFirst() returns (data: Option<nat>)
      requires Valid()
      modifies this, nodes
      ensures Valid()
      ensures old(Elements()) == [] ==> data == None && Elements() == []
      ensures old(Elements()) != [] ==>
                data == Some(old(Elements())[0]) && Elements() == old(Elements())[1..] && nodes == old(nodes)[1..]
    {
      if head == null { return None; }
      Follow(0);
      ghost var was := nodes;
      var curr := head;
      head := head.next;
      if head != null {
        head.prev := null;
      }
      nodes := nodes[1..];
      forall i: nat | i < |nodes| ensures LinkedAt(nodes, i) {
        assert nodes[i] == was[i + 1] && old(LinkedAt(was, i + 1));
      }
      return Some(curr.data);
    }

    method RemoveLast() returns (data: Option<nat>)
      requires Valid()
      modifies this, nodes
      ensures Valid()
      ensures old(Elements()) == [] ==> data == None && Elements() == []
      ensures var n := |old(Elements())|;
              n > 0 ==>
                && data == Some(old(Elements())[n - 1]) && Elements() == old(Elements())[..n - 1]
                && nodes == old(nodes)[..n - 1]
    {
      if head == null { return None; }
      Follow(0);
      var curr := head;
      if curr.next == null {
        data := Some(curr.data);
        head := null;
        nodes := [];
        return;
      }
      ghost var was := nodes;
      curr := Last();
      Follow(|nodes| - 1);
      curr.prev.next := null;
      data := Some(curr.data);
      nodes := nodes[..|nodes| - 1];
      forall i: nat | i < |nodes| ensures LinkedAt(nodes, i) {
        assert nodes[i] == was[i] && old(LinkedAt(was, i));
      }
    }

    method RemoveElement(x: nat) returns (found: bool)
      requires Valid()
      modifies this, nodes
      ensures Valid() && found == (x in old(Elements())) && Elements() == Without(old(Elements()), x)
    {
      ghost var was := Elements();
      var curr := head;
      ghost var i: nat := 0;
      while curr != null
        invariant i <= |nodes| && nodes == old(nodes) && curr == At(nodes, i)
        invariant Valid() && Elements() == was
        invariant forall j: nat :: j < i ==> was[j] != x
        decreases |nodes| - i
      {
        Follow(i);
        if curr.data == x {
          WithoutAt(was, x, i);
          Unlink(curr, i);
          assert was[i] == x;
          return true;
        }
        curr := curr.next;
        i := i + 1;
      }
      WithoutAbsent(was, x);
      return false;
    }

    /** Takes the node at place `i` out of the list. */
    method Unlink(curr: Node, ghost i: nat)
      requires Valid() && i < |nodes| && curr == nodes[i]
      modifies this, nodes
      ensures Valid() && nodes == old(nodes)[..i] + old(nodes)[i + 1..]
      ensures Elements() == old(Elements())[..i] + old(Elements())[i + 1..]
    {
      Bypass(curr, i);
      Forget(i);
    }

    /** Once bypassed, the node at place `i` is no longer of the list. */
    ghost method Forget(i: nat)
      requires i < |nodes| && head == (if i == 0 then At(nodes, 1) else nodes[0])
      requires forall i: nat, j: nat :: i < j < |nodes| ==> nodes[i] != nodes[j]
      requires forall k: nat :: k < |nodes| && k != i ==> BypassedAt(nodes, i, k)
      modifies this`nodes
      ensures Valid() && nodes == old(nodes)[..i] + old(nodes)[i + 1..]
    {
      ghost var was := nodes;
      nodes := nodes[..i] + nodes[i + 1..];
      forall j: nat | j < |nodes| ensures LinkedAt(nodes, j) {
        var k := if j < i then j else j + 1;
        assert nodes[j] == was[k] && BypassedAt(was, i, k);
      }
    }

    /** The pointers around place `i` lead past it; the node itself keeps its own. */
    method Bypass(curr: Node, ghost i: nat)
      requires Valid() && i < |nodes| && curr == nodes[i]
      modifies this`head, nodes
      ensures head == if i == 0 then At(nodes, 1) else nodes[0]
      ensures forall k: nat :: k < |nodes| && k != i ==> BypassedAt(nodes, i, k)
      ensures forall k: nat :: k < |nodes| ==> nodes[k].data == old(nodes[k].data)
    {
      Follow(i);
      if curr.next != null {
        curr.next.prev := curr.prev;
      }
      if curr == head {
        head := curr.next;
      } else {
        curr.prev.next := curr.next;
      }
      forall k: nat | k < |nodes| && k != i
        ensures BypassedAt(nodes, i, k)
      {
        assert old(LinkedAt(nodes, k));
      }
    }

    method InsertLast(data: nat)
      requires Valid()
      modifies this, nodes
      ensures Valid() && Elements() == old(Elements()) + [data]
    {
      var node := new Node(data, null);
      if head == null {
        head := node;
        nodes := [node];
        return;
      }
      var curr := Last();
      Attach(curr, node);
    }

    /** Links the fresh `node` behind the last one. */
    method Attach(curr: Node, node: Node)
      requires Valid() && nodes != [] && curr == nodes[|nodes| - 1] && node !in nodes && node.next == null
      modifies curr, node, this`nodes
      ensures Valid() && nodes == old(nodes) + [node] && node.data == old(node.data) && curr.data == old(curr.data)
    {
      ghost var was := nodes;
      curr.next := node;
      node.prev := curr;
      nodes := nodes + [node];
      forall i: nat | i < |was| ensures LinkedAt(nodes, i) {
        assert old(LinkedAt(was, i));
        assert nodes[i] == was[i] && At(nodes, i - 1) == At(was, i - 1);
      }
      assert LinkedAt(nodes, |was|);
    }

    /** Each node has its pointers swapped, from the front to the back. */
    method Reverse()
      requires Valid()
      modifies this, nodes
      ensures Valid() && Elements() == Reversed(old(Elements()))
    {
      hide Reversed;
      if head != null { Follow(0); }
      if head == null || head.next == null {
        ReversedIs(Elements(), Elements());
        return;
      }
      SwapAll();
      assert Elements() == old(Elements());
      TurnRound();
    }

    /** With every node's pointers swapped, the list is the nodes from the back. */
    ghost method TurnRound()
      requires nodes != [] && head == nodes[|nodes| - 1]
      requires forall i: nat, j: nat :: i < j < |nodes| ==> nodes[i] != nodes[j]
      requires forall j: nat :: j < |nodes| ==> SwappedAt(nodes, j)
      modifies this`nodes
      ensures Valid() && Elements() == Reversed(old(Elements()))
    {
      hide Reversed, Backwards, SwappedAt, LinkedAt, Mirrors;
      ghost var was, elements := nodes, Elements();
      BackwardsFacts(was);
      nodes := Backwards(was);
      forall k: nat | k < |nodes| ensures LinkedAt(nodes, k) {
        BackwardsAt(was, k);
      }
      BackwardsData(was, elements, Elements());
      ReversedIs(elements, Elements());
    }

    method SwapAll()
      requires Valid() && head != null
      modifies this`head, nodes
      ensures head == nodes[|nodes| - 1]
      ensures forall j: nat :: j < |nodes| ==> SwappedAt(nodes, j)
      ensures forall j: nat :: j < |nodes| ==> nodes[j].data == old(nodes[j].data)
    {
      var curr := head;
      var placeholder: Node? := null;
      ghost var i: nat := 0;
      while curr != null
        invariant i <= |nodes| && curr == At(nodes, i) && placeholder == At(nodes, i - 1)
        invariant forall j: nat :: j < i ==> SwappedAt(nodes, j)
        invariant forall j: nat :: i <= j < |nodes| ==> LinkedAt(nodes, j)
        invariant i == |nodes| ==> head == nodes[i - 1]
        invariant forall j: nat :: j < |nodes| ==> nodes[j].data == old(nodes[j].data)
        decreases |nodes| - i
      {
        assert LinkedAt(nodes, i);
        if curr.next == null {
          head := curr;
        }
        SwapOne(curr, placeholder, i);
        placeholder := curr;
        curr := curr.prev;
        i := i + 1;
      }
    }

    /** Swaps the pointers of the node at place `i`. */
    method SwapOne(curr: Node, before: Node?, ghost i: nat)
      requires i < |nodes| && curr == nodes[i] && before == At(nodes, i - 1) && LinkedAt(nodes, i)
      requires forall i: nat, j: nat :: i < j < |nodes| ==> nodes[i] != nodes[j]
      modifies curr
      ensures SwappedAt(nodes, i) && curr.data == old(curr.data)
      ensures forall j: nat :: j < i && old(SwappedAt(nodes, j)) ==> SwappedAt(nodes, j)
      ensures forall j: nat :: i < j < |nodes| && old(LinkedAt(nodes, j)) ==> LinkedAt(nodes, j)
    {
      curr.prev := curr.next;
      curr.next := before;
    }
  }
}

/**
 The six operations on a plain map, after kvstore/kvstore/simple_kvstore.cpp:5-94, and the steps that
 kvstore/kvstore/concurrent_kvstore.cpp:6-126 takes for them on the store.
 */
module KvOps {
  import opened Wrappers
  import opened DbMap

  datatype Op =
    | Get(key: string)
    | Put(key: string, value: string)
    | Append(key: string, value: string)
    | Delete(key: string)
    | MultiGet(keys: seq<string>)
    | MultiPut(keys: seq<string>, values: seq<string>)

  datatype Reply = Reply(ok: bool, values: seq<string>)

  function PutAll(m: map<string, string>, keys: seq<string>, values: seq<string>): map<string, string>
    requires |keys| == |values|
    decreases |keys|
  {
    if keys == [] then m else PutAll(m[keys[0] := values[0]], keys[1..], values[1..])
  }

  function Apply(m: map<string, string>, op: Op): (map<string, string>, Reply) {
    match op
    case Get(k) => (m, if k in m then Reply(true, [m[k]]) else Reply(false, []))
    case Put(k, v) => (m[k := v], Reply(true, []))
    case Append(k, v) => (m[k := if k in m then m[k] + v else v], Reply(true, []))
    case Delete(k) => if k in m then (m - {k}, Reply(true, [m[k]])) else (m, Reply(false, []))
    case MultiGet(keys) =>
      if forall k :: k in keys ==> k in m then
        (m, Reply(true, seq(|keys|, i requires 0 <= i < |keys| && keys[i] in m => m[keys[i]])))
      else (m, Reply(false, []))
    case MultiPut(keys, values) =>
      if |keys| == |values| then (PutAll(m, keys, values), Reply(true, [])) else (m, Reply(false, []))
  }

  // ---- The body of an operation, once it has its locks ----

  /** `i` store accesses are done; `got` holds the values found by reads. */
  datatype Local = Local(i: nat, got: seq<string>)

  const START := Local(0, [])

  datatype Action = Read(key: string) | Write(key: string, value: string) | Remove(key: string) | Answer(reply: Reply)

  /** The most accesses an operation makes. */
  function Accesses(op: Op): nat {
    match op
    case Get(_) => 1
    case Put(_, _) => 1
    case Append(_, _) => 2
    case Delete(_) => 2
    case MultiGet(keys) => |keys|
    case MultiPut(keys, _) => |keys|
  }

  function Next(op: Op, l: Local): (a: Action)
    ensures l.i >= Accesses(op) ==> a.Answer?
  {
    match op
    case Get(k) =>
      if l.i == 0 then Read(k) else if l.got == [] then Answer(Reply(false, [])) else Answer(Reply(true, l.got))
    case Put(k, v) => if l.i == 0 then Write(k, v) else Answer(Reply(true, []))
    case Append(k, v) =>
      if l.i == 0 then Read(k)
      else if l.i == 1 then Write(k, if l.got == [] then v else l.got[0] + v)
      else Answer(Reply(true, []))
    case Delete(k) =>
      if l.i == 0 then Read(k)
      else if l.got == [] then Answer(Reply(false, []))
      else if l.i == 1 then Remove(k)
      else Answer(Reply(true, l.got))
    case MultiGet(keys) =>
      if |l.got| < l.i then Answer(Reply(false, []))
      else if l.i < |keys| then Read(keys[l.i])
      else Answer(Reply(true, l.got))
    case MultiPut(keys, values) =>
      if |keys| != |values| then Answer(Reply(false, []))
      else if l.i < |keys| then Write(keys[l.i], values[l.i])
      else Answer(Reply(true, []))
  }

  function Continue(l: Local, found: Option<string>): Local {
    Local(l.i + 1, if found.Some? then l.got + [found.value] else l.got)
  }

  /** What the rest of the body does when nothing else touches the map. */
  function Finish(op: Op, l: Local, m: map<string, string>): (map<string, string>, Reply)
    decreases if l.i > Accesses(op) then 0 else Accesses(op) - l.i
  {
    match Next(op, l)
    case Read(k) => Finish(op, Continue(l, Find(m, k)), m)
    case Write(k, v) => Finish(op, Continue(l, None), m[k := v])
    case Remove(k) => Finish(op, Continue(l, None), m - {k})
    case Answer(r) => (m, r)
  }

  /** The steps of an operation, run alone, do what the plain map does. */
  lemma BodyIsApply(op: Op, m: map<string, string>)
    ensures Finish(op, START, m) == Apply(m, op)
  {
    match op
    case Get(k) =>
      var l1 := Continue(START, Find(m, k));
      assert l1 == if k in m then Local(1, [m[k]]) else Local(1, []);
      assert Finish(op, START, m) == Finish(op, l1, m);
    case Put(k, v) =>
    case Append(k, v) =>
      var l1 := Continue(START, Find(m, k));
      assert Finish(op, START, m) == Finish(op, l1, m);
      assert Finish(op, l1, m) == Finish(op, Continue(l1, None), m[k := if l1.got == [] then v else l1.got[0] + v]);
    case Delete(k) =>
      var l1 := Continue(START, Find(m, k));
      assert Finish(op, START, m) == Finish(op, l1, m);
      var l2 := Continue(l1, None);
      if k in m {
        assert l1.got == [m[k]] && l2.got == [m[k]];
        assert Finish(op, l1, m) == Finish(op, l2, m - {k});
        assert Finish(op, l2, m - {k}) == (m - {k}, Reply(true, l2.got));
      }
    case MultiGet(keys) => MultiGetFrom(op, START, m);
    case MultiPut(keys, values) => if |keys| == |values| { MultiPutFrom(op, START, m); }
  }

  lemma {:induction false} MultiGetFrom(op: Op, l: Local, m: map<string, string>)
    requires op.MultiGet? && l.i <= |op.keys| && |l.got| == l.i
    requires forall j: nat :: j < l.i ==> op.keys[j] in m && l.got[j] == m[op.keys[j]]
    ensures Finish(op, l, m) == Apply(m, op)
    decreases |op.keys| - l.i
  {
    if l.i < |op.keys| {
      var k := op.keys[l.i];
      if k in m {
        MultiGetFrom(op, Continue(l, Find(m, k)), m);
      } else {
        assert k in op.keys;
      }
    } else {
      assert forall k :: k in op.keys ==> k in m;
      assert Apply(m, op).1.values == l.got;
    }
  }

  lemma {:induction false} MultiPutFrom(op: Op, l: Local, m: map<string, string>)
    requires op.MultiPut? && |op.keys| == |op.values| && l.i <= |op.keys|
    ensures Finish(op, l, m) == (PutAll(m, op.keys[l.i..], op.values[l.i..]), Reply(true, []))
    decreases |op.keys| - l.i
  {
    if l.i < |op.keys| {
      MultiPutFrom(op, Continue(l, None), m[op.keys[l.i] := op.values[l.i]]);
      assert op.keys[l.i..][1..] == op.keys[l.i + 1..] && op.values[l.i..][1..] == op.values[l.i + 1..];
    }
  }

  // ---- Which keys and which locks ----

  /** The bucket of a key is the remainder of its hash by 60. */
  lemma BucketExact(h: Hasher, key: string, b: nat)
    ensures b == BucketOf(h, key) <==> b < 60 && (h(key) - b) % 60 == 0
  {
  }

  function KeysOf(op: Op): seq<string> {
    match op
    case Get(k) => [k]
    case Put(k, _) => [k]
    case Append(k, _) => [k]
    case Delete(k) => [k]
    case MultiGet(keys) => keys
    case MultiPut(keys, values) => keys
  }

  /** Whether the operation takes its locks exclusively. */
  predicate Exclusive(op: Op) { !op.Get? && !op.MultiGet? }

  /** The buckets that some key falls into, from `b` on, in ascending order. */
  function NeededFrom(h: Hasher, keys: seq<string>, b: nat): seq<nat>
    decreases BUCKET_COUNT - b
  {
    if b >= BUCKET_COUNT then []
    else (if exists k :: k in keys && BucketOf(h, k) == b then [b] else []) + NeededFrom(h, keys, b + 1)
  }

  function Upto(a: nat, b: nat): seq<nat>
    decreases b - a
  {
    if a >= b then [] else [a] + Upto(a + 1, b)
  }

  function AllButFirst(): seq<nat> { Upto(1, BUCKET_COUNT) }

  /** The locks of an operation in the order it takes them.  `MultiPut` takes every bucket but the first. */
  function Locks(h: Hasher, op: Op): seq<nat> {
    match op
    case Get(k) => [BucketOf(h, k)]
    case Put(k, _) => [BucketOf(h, k)]
    case Append(k, _) => [BucketOf(h, k)]
    case Delete(k) => [BucketOf(h, k)]
    case MultiGet(keys) => NeededFrom(h, keys, 0)
    case MultiPut(_, _) => AllButFirst()
  }

  ghost predicate Ascending(s: seq<nat>) {
    forall i, j :: 0 <= i < j < |s| ==> s[i] < s[j]
  }

  lemma {:induction false} NeededMembers(h: Hasher, keys: seq<string>, b: nat, x: nat)
    ensures x in NeededFrom(h, keys, b)
       <==> b <= x < BUCKET_COUNT && exists k :: k in keys && BucketOf(h, k) == x
    decreases BUCKET_COUNT - b
  {
    if b < BUCKET_COUNT { NeededMembers(h, keys, b + 1, x); }
  }

  lemma {:induction false} NeededAbove(h: Hasher, keys: seq<string>, b: nat, x: nat)
    ensures x in NeededFrom(h, keys, b) ==> x >= b
    decreases BUCKET_COUNT - b
  {
    if b < BUCKET_COUNT { NeededAbove(h, keys, b + 1, x); }
  }

  lemma AscendingFront(x: nat, rest: seq<nat>)
    requires Ascending(rest) && forall y: nat :: y in rest ==> y > x
    ensures Ascending([x] + rest)
  {
    var s := [x] + rest;
    forall i, j | 0 <= i < j < |s| ensures s[i] < s[j] {
      assert s[j] == rest[j - 1] && rest[j - 1] in rest;
    }
  }

  lemma {:induction false} NeededAscending(h: Hasher, keys: seq<string>, b: nat)
    ensures Ascending(NeededFrom(h, keys, b))
    decreases BUCKET_COUNT - b
  {
    if b < BUCKET_COUNT {
      hide Ascending;
      var rest := NeededFrom(h, keys, b + 1);
      NeededAscending(h, keys, b + 1);
      forall y: nat | y in rest ensures y > b { NeededAbove(h, keys, b + 1, y); }
      AscendingFront(b, rest);
    }
  }

  lemma {:induction false} UptoMembers(a: nat, b: nat, x: nat)
    ensures x in Upto(a, b) <==> a <= x < b
    ensures Ascending(Upto(a, b))
    decreases b - a
  {
    if a < b {
      var rest := Upto(a + 1, b);
      UptoMembers(a + 1, b, x);
      forall i: nat | i < |rest| ensures rest[i] > a {
        UptoMembers(a + 1, b, rest[i]);
        assert rest[i] in rest;
      }
    }
  }

  /** Locks are taken in strictly ascending order, so none twice. */
  lemma LocksAscend(h: Hasher, op: Op)
    ensures Ascending(Locks(h, op))
  {
    match op
    case MultiGet(keys) => NeededAscending(h, keys, 0);
    case MultiPut(_, _) => UptoMembers(1, BUCKET_COUNT, 0);
    case _ => assert |Locks(h, op)| == 1;
  }

  /** The locks in terms of the hash alone. */
  lemma LocksExact(h: Hasher, op: Op, b: nat)
    ensures b in Locks(h, op) <==> if op.MultiPut? then 1 <= b < 60 else b < 60 && exists k :: k in KeysOf(op) && (h(k) - b) % 60 == 0
  {
    forall k ensures b == BucketOf(h, k) <==> b < 60 && (h(k) - b) % 60 == 0 { BucketExact(h, k, b); }
    match op
    case MultiGet(keys) => NeededMembers(h, keys, 0, b);
    case MultiPut(_, _) => UptoMembers(1, BUCKET_COUNT, b);
    case _ => assert KeysOf(op) == [op.key];
  }

  /** Every key the operation touches is in a bucket it locks; only `MultiPut` can fail this. */
  predicate Covered(h: Hasher, op: Op) {
    op.MultiPut? && |op.keys| == |op.values| ==> forall k :: k in op.keys ==> BucketOf(h, k) != 0
  }

  /** The keys that the body may still touch. */
  predicate Touches(op: Op, k: string) {
    k in KeysOf(op) && (op.MultiPut? ==> |op.keys| == |op.values|)
  }

  lemma CoveredLocks(h: Hasher, op: Op)
    ensures Covered(h, op) <==> forall k :: Touches(op, k) ==> BucketOf(h, k) in Locks(h, op)
  {
    forall k | k in KeysOf(op) && op.MultiGet? ensures BucketOf(h, k) in Locks(h, op) {
      NeededMembers(h, op.keys, 0, BucketOf(h, k));
    }
    forall x: nat ensures x in Upto(1, BUCKET_COUNT) <==> 1 <= x < BUCKET_COUNT {
      UptoMembers(1, BUCKET_COUNT, x);
    }
  }

  /** The rest of a body depends only on the keys it touches, and changes no other. */
  lemma {:induction false} FinishFrame(op: Op, l: Local, m: map<string, string>, m': map<string, string>)
    requires forall k :: Touches(op, k) ==> Find(m, k) == Find(m', k)
    ensures Finish(op, l, m).1 == Finish(op, l, m').1
    ensures forall k :: Find(m, k) == Find(m', k) ==> Find(Finish(op, l, m).0, k) == Find(Finish(op, l, m').0, k)
    ensures forall k :: !Touches(op, k) || !Exclusive(op) ==> Find(Finish(op, l, m).0, k) == Find(m, k)
    decreases if l.i > Accesses(op) then 0 else Accesses(op) - l.i
  {
    match Next(op, l)
    case Read(k) =>
      assert Touches(op, k);
      FinishFrame(op, Continue(l, Find(m, k)), m, m');
    case Write(k, v) =>
      assert Touches(op, k) && Exclusive(op);
      FinishFrame(op, Continue(l, None), m[k := v], m'[k := v]);
    case Remove(k) =>
      assert Touches(op, k) && Exclusive(op);
      FinishFrame(op, Continue(l, None), m - {k}, m' - {k});
    case Answer(r) =>
  }
}

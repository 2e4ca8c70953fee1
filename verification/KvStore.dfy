/**
 The store as an object: the list loops of kvstore/kvstore/concurrent_kvstore.hpp:59-92 and the
 operations of kvstore/kvstore/concurrent_kvstore.cpp:6-135, each as one thread runs it while it
 holds its locks.  What other threads do in between is the subject of `KvThreads`.
 */
module KvStore {
  import opened Wrappers
  import opened DbMap
  import opened KvOps

  /** Every item is in the bucket its key names, and no bucket has a key twice. */
  ghost predicate Placed(h: Hasher, s: Store) {
    forall b: nat :: b < BUCKET_COUNT ==> BucketPlaced(h, s[b], b)
  }

  ghost predicate BucketPlaced(h: Hasher, items: Bucket, b: nat) {
    && (forall i: nat :: i < |items| ==> BucketOf(h, items[i].key) == b)
    && (forall i: nat, j: nat :: i < j < |items| ==> items[i].key != items[j].key)
  }

  /** A lookup succeeds exactly on the keys of the list. */
  lemma {:induction false} HasKey(items: Bucket, k: string)
    ensures GetIfExists(items, k).Some? <==> exists i: nat :: i < |items| && items[i].key == k
  {
    if items != [] {
      HasKey(items[1..], k);
      if i: nat :| i < |items[1..]| && items[1..][i].key == k { assert items[i + 1].key == k; }
      if i: nat :| i < |items| && items[i].key == k && items[0].key != k { assert items[1..][i - 1].key == k; }
    }
  }

  /** An item may go in front of a list that lacks its key; and a list without its first item lacks its key. */
  lemma PlacedFront(h: Hasher, x: Item, rest: Bucket, b: nat)
    ensures BucketPlaced(h, [x] + rest, b)
       <==> BucketPlaced(h, rest, b) && BucketOf(h, x.key) == b && GetIfExists(rest, x.key).None?
  {
    HasKey(rest, x.key);
    var all := [x] + rest;
    if BucketPlaced(h, all, b) {
      forall i: nat | i < |rest| ensures rest[i].key != x.key && BucketOf(h, rest[i].key) == b { assert all[i + 1] == rest[i]; }
      forall i: nat, j: nat | i < j < |rest| ensures rest[i].key != rest[j].key {
        assert all[i + 1] == rest[i] && all[j + 1] == rest[j];
      }
      assert all[0] == x;
    }
  }

  lemma {:induction false} InsertPlaced(h: Hasher, items: Bucket, key: string, value: string, b: nat)
    requires BucketPlaced(h, items, b) && BucketOf(h, key) == b
    ensures BucketPlaced(h, InsertItem(items, key, value), b)
  {
    if items != [] && items[0].key != key {
      hide BucketPlaced, GetIfExists;
      assert [items[0]] + items[1..] == items;
      PlacedFront(h, items[0], items[1..], b);
      InsertPlaced(h, items[1..], key, value, b);
      GetAfterInsert(items[1..], key, value, items[0].key);
      PlacedFront(h, items[0], InsertItem(items[1..], key, value), b);
    }
  }

  lemma {:induction false} RemovePlaced(h: Hasher, items: Bucket, key: string, b: nat)
    requires BucketPlaced(h, items, b)
    ensures BucketPlaced(h, RemoveItem(items, key), b)
  {
    if items != [] {
      hide BucketPlaced, GetIfExists;
      assert [items[0]] + items[1..] == items;
      PlacedFront(h, items[0], items[1..], b);
      RemovePlaced(h, items[1..], key, b);
      GetAfterRemove(items[1..], key, items[0].key);
      PlacedFront(h, items[0], RemoveItem(items[1..], key), b);
    }
  }

  lemma PutPlaced(h: Hasher, s: Store, key: string, value: string)
    requires Placed(h, s)
    ensures Placed(h, DbMap.Put(s, h, key, value))
  {
    hide BucketPlaced, InsertItem;
    assert BucketPlaced(h, s[BucketOf(h, key)], BucketOf(h, key));
    InsertPlaced(h, s[BucketOf(h, key)], key, value, BucketOf(h, key));
  }

  ghost predicate NoRepeats(s: seq<string>) {
    forall i: nat, j: nat :: i < j < |s| ==> s[i] != s[j]
  }

  // ---- The loops over one list ----

  lemma {:induction false} GetFrom(items: Bucket, i: nat, key: string)
    requires i <= |items| && forall j: nat :: j < i ==> items[j].key != key
    ensures GetIfExists(items, key) == GetIfExists(items[i..], key)
  {
    if i > 0 {
      GetFrom(items[1..], i - 1, key);
      assert items[1..][i - 1..] == items[i..];
    } else {
      assert items[0..] == items;
    }
  }

  lemma {:induction false} InsertFrom(items: Bucket, i: nat, key: string, value: string)
    requires i <= |items| && forall j: nat :: j < i ==> items[j].key != key
    ensures InsertItem(items, key, value) == items[..i] + InsertItem(items[i..], key, value)
  {
    if i > 0 {
      InsertFrom(items[1..], i - 1, key, value);
      assert items[1..][i - 1..] == items[i..] && items[..i] == [items[0]] + items[1..][..i - 1];
    } else {
      assert items[0..] == items;
    }
  }

  lemma {:induction false} RemoveStep(items: Bucket, i: nat, key: string)
    requires i < |items|
    ensures RemoveItem(items[..i + 1], key)
         == RemoveItem(items[..i], key) + if items[i].key == key then [] else [items[i]]
  {
    if i > 0 {
      RemoveStep(items[1..], i - 1, key);
      assert items[..i + 1][1..] == items[1..][..i] && items[..i][1..] == items[1..][..i - 1];
    }
  }

  class BucketMap {
    const buckets: array<Bucket>
    const h: Hasher
    ghost var contents: map<string, string>

    ghost predicate Valid()
      reads this, buckets
    {
      && buckets.Length == BUCKET_COUNT
      && Holds(buckets[..], h, contents) && Placed(h, buckets[..])
    }

    constructor (h: Hasher)
      ensures Valid() && contents == map[] && this.h == h && fresh(buckets)
    {
      this.h := h;
      this.buckets := new Bucket[BUCKET_COUNT](_ => []);
      this.contents := map[];
    }

    method GetIfExists(b: nat, key: string) returns (r: Option<string>)
      requires Valid() && b == BucketOf(h, key)
      ensures r == Find(contents, key)
    {
      var items := buckets[b];
      assert Look(buckets[..], h, key) == Find(contents, key);
      var i: nat := 0;
      while i < |items|
        invariant i <= |items| && forall j: nat :: j < i ==> items[j].key != key
      {
        GetFrom(items, i, key);
        if items[i].key == key { return Some(items[i].value); }
        i := i + 1;
      }
      GetFrom(items, i, key);
      return None;
    }

    method InsertItem(b: nat, key: string, value: string)
      requires Valid() && b == BucketOf(h, key)
      modifies this, buckets
      ensures Valid() && contents == old(contents)[key := value]
      ensures buckets[..] == DbMap.Put(old(buckets[..]), h, key, value)
    {
      hide Holds, Placed, DbMap.InsertItem;
      ghost var was, m := buckets[..], contents;
      var items := buckets[b];
      var items' := Inserted(items, key, value);
      buckets[b] := items';
      assert buckets[..] == DbMap.Put(was, h, key, value);
      PutHolds(was, h, m, key, value);
      PutPlaced(h, was, key, value);
      contents := m[key := value];
    }

    /** The list loop: the first entry of the key is replaced, or a new one goes to the end. */
    static method Inserted(items: Bucket, key: string, value: string) returns (items': Bucket)
      ensures items' == DbMap.InsertItem(items, key, value)
    {
      var i: nat := 0;
      while i < |items| && items[i].key != key
        invariant i <= |items| && forall j: nat :: j < i ==> items[j].key != key
      {
        i := i + 1;
      }
      InsertFrom(items, i, key, value);
      items' := if i < |items| then items[i := Item(key, value)] else items + [Item(key, value)];
    }

    method RemoveItem(b: nat, key: string) returns (removed: bool)
      requires Valid() && b == BucketOf(h, key)
      modifies this, buckets
      ensures Valid() && contents == old(contents) - {key} && removed == (key in old(contents))
      ensures buckets[..] == Drop(old(buckets[..]), h, key)
    {
      ghost var was, m := buckets[..], contents;
      assert Look(was, h, key) == Find(m, key);
      var items := buckets[b];
      HasKey(items, key);
      var kept: Bucket := [];
      removed := false;
      var i: nat := 0;
      while i < |items|
        invariant i <= |items| && kept == DbMap.RemoveItem(items[..i], key) && buckets[..] == was
        invariant removed <==> exists j: nat :: j < i && items[j].key == key
      {
        RemoveStep(items, i, key);
        if items[i].key == key { removed := true; } else { kept := kept + [items[i]]; }
        i := i + 1;
      }
      assert items[..i] == items;
      buckets[b] := kept;
      assert kept == DbMap.RemoveItem(items, key) && items == was[BucketOf(h, key)];
      assert buckets[..] == was[b := kept];
      DropHolds(was, h, m, key);
      RemovePlaced(h, items, key, b);
      contents := m - {key};
    }
  }

  // ---- The operations ----

  /** Every bucket below `b` that some key falls into, as the flags say. */
  function Flagged(needed: seq<bool>, b: nat): seq<nat>
    requires |needed| == BUCKET_COUNT
    decreases BUCKET_COUNT - b
  {
    if b >= BUCKET_COUNT then [] else (if needed[b] then [b] else []) + Flagged(needed, b + 1)
  }

  lemma FlaggedStep(guards: seq<nat>, needed: seq<bool>, b: nat)
    requires |needed| == BUCKET_COUNT && b < BUCKET_COUNT
    ensures guards + Flagged(needed, b) == (if needed[b] then guards + [b] else guards) + Flagged(needed, b + 1)
  {
    var rest := Flagged(needed, b + 1);
    assert [] + rest == rest && guards + ([b] + rest) == (guards + [b]) + rest;
  }

  lemma UptoStep(guards: seq<nat>, a: nat, b: nat)
    requires a < b
    ensures guards + Upto(a, b) == (guards + [a]) + Upto(a + 1, b)
  {
  }

  lemma ListEnds(guards: seq<nat>, needed: seq<bool>)
    requires |needed| == BUCKET_COUNT
    ensures guards + Flagged(needed, BUCKET_COUNT) == guards && guards + Upto(BUCKET_COUNT, BUCKET_COUNT) == guards
  {
    assert guards + [] == guards;
  }

  lemma {:induction false} FlaggedIsNeeded(h: Hasher, keys: seq<string>, needed: seq<bool>, b: nat)
    requires |needed| == BUCKET_COUNT
    requires forall x: nat :: x < BUCKET_COUNT ==> (needed[x] <==> exists k :: k in keys && BucketOf(h, k) == x)
    ensures Flagged(needed, b) == NeededFrom(h, keys, b)
    decreases BUCKET_COUNT - b
  {
    if b < BUCKET_COUNT { FlaggedIsNeeded(h, keys, needed, b + 1); }
  }

  lemma AllReply(m: map<string, string>, keys: seq<string>, values: seq<string>)
    requires |values| == |keys| && forall j: nat :: j < |keys| ==> keys[j] in m && values[j] == m[keys[j]]
    ensures Apply(m, Op.MultiGet(keys)) == (m, Reply(true, values))
  {
    assert forall k :: k in keys ==> k in m;
    assert Apply(m, Op.MultiGet(keys)).1.values == values;
  }

  lemma MissReply(m: map<string, string>, keys: seq<string>, i: nat)
    requires i < |keys| && keys[i] !in m
    ensures Apply(m, Op.MultiGet(keys)) == (m, Reply(false, []))
  {
    assert keys[i] in keys;
  }

  /** Each method also reports the locks it took, in order. */
  class ConcurrentKvStore {
    const store: BucketMap

    constructor (h: Hasher)
      ensures store.Valid() && store.contents == map[] && fresh(store) && fresh(store.buckets)
    {
      store := new BucketMap(h);
    }

    method Get(key: string) returns (guards: seq<nat>, reply: Reply)
      requires store.Valid()
      ensures guards == Locks(store.h, Op.Get(key)) && (store.contents, reply) == Apply(store.contents, Op.Get(key))
      ensures |guards| == 1 && guards[0] < 60 && (store.h(key) - guards[0]) % 60 == 0
    {
      BucketExact(store.h, key, BucketOf(store.h, key));
      var bkt := BucketOf(store.h, key);
      guards := [bkt];
      var item := store.GetIfExists(bkt, key);
      if item.None? { return guards, Reply(false, []); }
      return guards, Reply(true, [item.value]);
    }

    method Put(key: string, value: string) returns (guards: seq<nat>, reply: Reply)
      requires store.Valid()
      modifies store, store.buckets
      ensures store.Valid() && guards == Locks(store.h, Op.Put(key, value))
      ensures (store.contents, reply) == Apply(old(store.contents), Op.Put(key, value))
      ensures |guards| == 1 && guards[0] < 60 && (store.h(key) - guards[0]) % 60 == 0
    {
      BucketExact(store.h, key, BucketOf(store.h, key));
      var bkt := BucketOf(store.h, key);
      guards := [bkt];
      store.InsertItem(bkt, key, value);
      return guards, Reply(true, []);
    }

    method Append(key: string, value: string) returns (guards: seq<nat>, reply: Reply)
      requires store.Valid()
      modifies store, store.buckets
      ensures store.Valid() && guards == Locks(store.h, Op.Append(key, value))
      ensures (store.contents, reply) == Apply(old(store.contents), Op.Append(key, value))
      ensures |guards| == 1 && guards[0] < 60 && (store.h(key) - guards[0]) % 60 == 0
    {
      BucketExact(store.h, key, BucketOf(store.h, key));
      var bkt := BucketOf(store.h, key);
      guards := [bkt];
      var item := store.GetIfExists(bkt, key);
      if item.None? {
        store.InsertItem(bkt, key, value);
      } else {
        store.InsertItem(bkt, key, item.value + value);
      }
      return guards, Reply(true, []);
    }

    method Delete(key: string) returns (guards: seq<nat>, reply: Reply)
      requires store.Valid()
      modifies store, store.buckets
      ensures store.Valid() && guards == Locks(store.h, Op.Delete(key))
      ensures (store.contents, reply) == Apply(old(store.contents), Op.Delete(key))
      ensures |guards| == 1 && guards[0] < 60 && (store.h(key) - guards[0]) % 60 == 0
    {
      BucketExact(store.h, key, BucketOf(store.h, key));
      var bkt := BucketOf(store.h, key);
      guards := [bkt];
      var item := store.GetIfExists(bkt, key);
      if item.None? { return guards, Reply(false, []); }
      var _ := store.RemoveItem(BucketOf(store.h, key), key);
      return guards, Reply(true, [item.value]);
    }

    /** The locks of `MultiGet`, from its flags. */
    method GuardNeeded(keys: seq<string>) returns (guards: seq<nat>)
      ensures guards == NeededFrom(store.h, keys, 0)
    {
      hide NeededFrom, Flagged;
      var needed := NeededBuckets(keys);
      guards := [];
      ghost var order := Flagged(needed, 0);
      var b: nat := 0;
      assert guards + order == order;
      while b < BUCKET_COUNT
        invariant b <= BUCKET_COUNT && guards + Flagged(needed, b) == order
      {
        FlaggedStep(guards, needed, b);
        if needed[b] { guards := guards + [b]; }
        b := b + 1;
      }
      FlaggedIsNeeded(store.h, keys, needed, 0);
      ListEnds(guards, needed);
    }

    method MultiGet(keys: seq<string>) returns (guards: seq<nat>, reply: Reply)
      requires store.Valid()
      ensures guards == Locks(store.h, Op.MultiGet(keys))
      ensures forall b: nat :: b in guards <==> b < 60 && exists k :: k in keys && (store.h(k) - b) % 60 == 0
      ensures (store.contents, reply) == Apply(store.contents, Op.MultiGet(keys))
    {
      hide NeededFrom, Holds, Placed, Apply;
      forall b: nat
        ensures b in Locks(store.h, Op.MultiGet(keys)) <==> b < 60 && exists k :: k in keys && (store.h(k) - b) % 60 == 0
      {
        LocksExact(store.h, Op.MultiGet(keys), b);
      }
      guards := GuardNeeded(keys);
      var values := Values(keys);
      if |values| < |keys| {
        MissReply(store.contents, keys, |values|);
        return guards, Reply(false, []);
      }
      AllReply(store.contents, keys, values);
      return guards, Reply(true, values);
    }

    /** The values of the keys, up to the first that is missing. */
    method Values(keys: seq<string>) returns (values: seq<string>)
      requires store.Valid()
      ensures |values| <= |keys| && (|values| < |keys| ==> keys[|values|] !in store.contents)
      ensures forall j: nat :: j < |values| ==> keys[j] in store.contents && values[j] == store.contents[keys[j]]
    {
      hide NeededFrom, Holds, Placed;
      values := [];
      while |values| < |keys|
        invariant |values| <= |keys|
        invariant forall j: nat :: j < |values| ==> keys[j] in store.contents && values[j] == store.contents[keys[j]]
        decreases |keys| - |values|
      {
        var key := keys[|values|];
        var item := store.GetIfExists(BucketOf(store.h, key), key);
        if item.None? { return; }
        values := values + [item.value];
      }
    }

    method NeededBuckets(keys: seq<string>) returns (needed: seq<bool>)
      ensures |needed| == BUCKET_COUNT
      ensures forall x: nat :: x < BUCKET_COUNT ==> (needed[x] <==> exists k :: k in keys && BucketOf(store.h, k) == x)
    {
      needed := seq(BUCKET_COUNT, _ => false);
      var i: nat := 0;
      while i < |keys|
        invariant i <= |keys| && |needed| == BUCKET_COUNT
        invariant forall x: nat :: x < BUCKET_COUNT ==>
                    (needed[x] <==> exists k :: k in keys[..i] && BucketOf(store.h, k) == x)
      {
        assert keys[..i + 1] == keys[..i] + [keys[i]];
        needed := needed[BucketOf(store.h, keys[i]) := true];
        i := i + 1;
      }
      assert keys[..i] == keys;
    }

    /** Locks every bucket but the first, whatever the keys. */
    method MultiPut(keys: seq<string>, values: seq<string>) returns (guards: seq<nat>, reply: Reply)
      requires store.Valid()
      modifies store, store.buckets
      ensures store.Valid() && guards == Locks(store.h, Op.MultiPut(keys, values))
      ensures forall b: nat :: b in guards <==> 1 <= b < 60
      ensures (store.contents, reply) == Apply(old(store.contents), Op.MultiPut(keys, values))
    {
      forall b: nat ensures b in Locks(store.h, Op.MultiPut(keys, values)) <==> 1 <= b < 60 {
        LocksExact(store.h, Op.MultiPut(keys, values), b);
      }
      guards := GuardAllButFirst();
      if |keys| != |values| { return guards, Reply(false, []); }
      var i: nat := 0;
      while i < |keys|
        invariant i <= |keys| && store.Valid()
        invariant PutAll(store.contents, keys[i..], values[i..]) == PutAll(old(store.contents), keys, values)
      {
        assert keys[i..][1..] == keys[i + 1..] && values[i..][1..] == values[i + 1..];
        store.InsertItem(BucketOf(store.h, keys[i]), keys[i], values[i]);
        i := i + 1;
      }
      return guards, Reply(true, []);
    }

    method GuardAllButFirst() returns (guards: seq<nat>)
      ensures guards == AllButFirst()
    {
      hide Upto;
      guards := [];
      assert [] + AllButFirst() == AllButFirst();
      var b: nat := 0;
      while b < BUCKET_COUNT
        invariant b <= BUCKET_COUNT && (b == 0 ==> guards == []) && guards + Upto(if b == 0 then 1 else b, BUCKET_COUNT) == AllButFirst()
      {
        UptoStep(guards, b, BUCKET_COUNT);
        UptoStep(guards, 1, BUCKET_COUNT);
        if b != 0 { guards := guards + [b]; }
        b := b + 1;
      }
      ListEnds(guards, seq(BUCKET_COUNT, _ => false));
    }

    /** While nobody else is active: every key once.  It takes no lock. */
    method AllKeys() returns (keys: seq<string>)
      requires store.Valid()
      ensures NoRepeats(keys) && forall k :: k in keys <==> k in store.contents
    {
      keys := [];
      var b: nat := 0;
      while b < BUCKET_COUNT
        invariant b <= BUCKET_COUNT && NoRepeats(keys)
        invariant forall k :: k in keys <==> k in store.contents && BucketOf(store.h, k) < b
      {
        var items := store.buckets[b];
        assert BucketPlaced(store.h, store.buckets[..][b], b);
        ghost var before := keys;
        var i: nat := 0;
        while i < |items|
          invariant i <= |items| && NoRepeats(keys)
          invariant forall k :: k in keys <==> k in before || exists j: nat :: j < i && items[j].key == k
        {
          assert items[i].key !in keys;
          keys := keys + [items[i].key];
          i := i + 1;
        }
        forall k | BucketOf(store.h, k) == b
          ensures k in store.contents <==> exists j: nat :: j < i && items[j].key == k
        {
          assert Look(store.buckets[..], store.h, k) == Find(store.contents, k);
          HasKey(items, k);
        }
        b := b + 1;
      }
    }
  }
}

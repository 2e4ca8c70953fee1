/**
 The bucketed map of kvstore/kvstore/concurrent_kvstore.hpp:38-96: sixty lists of items, looked up by
 the bucket that the hash of a key names.
 */
module DbMap {
  import opened Wrappers

  const BUCKET_COUNT := 60

  datatype Item = Item(key: string, value: string)
  type Bucket = seq<Item>
  type Hasher = string -> nat
  type Store = s: seq<Bucket> | |s| == BUCKET_COUNT witness seq(BUCKET_COUNT, _ => [])

  function BucketOf(h: Hasher, key: string): nat { h(key) % BUCKET_COUNT }

  /** The value of the first item with this key. */
  function GetIfExists(b: Bucket, key: string): Option<string> {
    if b == [] then None else if b[0].key == key then Some(b[0].value) else GetIfExists(b[1..], key)
  }

  function InsertItem(b: Bucket, key: string, value: string): Bucket {
    if b == [] then [Item(key, value)]
    else if b[0].key == key then [Item(key, value)] + b[1..]
    else [b[0]] + InsertItem(b[1..], key, value)
  }

  function RemoveItem(b: Bucket, key: string): Bucket {
    if b == [] then []
    else if b[0].key == key then RemoveItem(b[1..], key)
    else [b[0]] + RemoveItem(b[1..], key)
  }

  lemma {:induction false} GetAfterInsert(b: Bucket, key: string, value: string, k: string)
    ensures GetIfExists(InsertItem(b, key, value), k) == if k == key then Some(value) else GetIfExists(b, k)
  {
    if b != [] && b[0].key != key {
      GetAfterInsert(b[1..], key, value, k);
      assert InsertItem(b, key, value)[1..] == InsertItem(b[1..], key, value);
    }
  }

  lemma {:induction false} GetAfterRemove(b: Bucket, key: string, k: string)
    ensures GetIfExists(RemoveItem(b, key), k) == if k == key then None else GetIfExists(b, k)
  {
    if b != [] {
      GetAfterRemove(b[1..], key, k);
      if b[0].key != key {
        assert RemoveItem(b, key)[1..] == RemoveItem(b[1..], key);
      }
    }
  }

  // ---- The store as a map ----

  function Look(s: Store, h: Hasher, key: string): Option<string> {
    GetIfExists(s[BucketOf(h, key)], key)
  }

  function Put(s: Store, h: Hasher, key: string, value: string): Store {
    s[BucketOf(h, key) := InsertItem(s[BucketOf(h, key)], key, value)]
  }

  function Drop(s: Store, h: Hasher, key: string): Store {
    s[BucketOf(h, key) := RemoveItem(s[BucketOf(h, key)], key)]
  }

  function Find(m: map<string, string>, key: string): Option<string> {
    if key in m then Some(m[key]) else None
  }

  /** The store holds exactly the map `m`. */
  ghost predicate Holds(s: Store, h: Hasher, m: map<string, string>) {
    forall k :: Look(s, h, k) == Find(m, k)
  }

  lemma PutHolds(s: Store, h: Hasher, m: map<string, string>, key: string, value: string)
    requires Holds(s, h, m)
    ensures Holds(Put(s, h, key, value), h, m[key := value])
  {
    forall k ensures Look(Put(s, h, key, value), h, k) == Find(m[key := value], k) {
      assert Look(s, h, k) == Find(m, k);
      GetAfterInsert(s[BucketOf(h, key)], key, value, k);
    }
  }

  lemma DropHolds(s: Store, h: Hasher, m: map<string, string>, key: string)
    requires Holds(s, h, m)
    ensures Holds(Drop(s, h, key), h, m - {key})
  {
    forall k ensures Look(Drop(s, h, key), h, k) == Find(m - {key}, k) {
      assert Look(s, h, k) == Find(m, k);
      GetAfterRemove(s[BucketOf(h, key)], key, k);
    }
  }
}

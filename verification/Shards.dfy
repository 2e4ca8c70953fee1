/**
 Key ranges: base-36 bucket names and the shards between them (kvstore/common/shard.hpp:38-86,
 kvstore/common/shard.cpp:3-13, 100-195).
 */
module Shards {
  import opened Wrappers
  import opened Arithmetic

  const VALID_CHARS := "0123456789ABCDEFGHIJKLMNOPQRSTUVWXYZ"
  const MAX_GRANULARITY := 4

  function Power(g: nat): nat {
    if g == 0 then 1 else 36 * Power(g - 1)
  }

  predicate ValidChar(c: char) { '0' <= c <= '9' || 'A' <= c <= 'Z' }

  predicate ValidKey(s: string) {
    forall i :: 0 <= i < |s| ==> ValidChar(s[i])
  }

  /** The index of an upper-case character in VALID_CHARS. */
  function IndexOf(c: char): (i: nat)
    requires ValidChar(c)
    ensures i < 36
  {
    if c <= '9' then c as int - '0' as int else c as int - 'A' as int + 10
  }

  function CharAt(i: nat): (c: char)
    requires i < 36
    ensures ValidChar(c) && IndexOf(c) == i && c == VALID_CHARS[i]
  {
    if i < 10 then (i + '0' as int) as char else (i - 10 + 'A' as int) as char
  }

  // ---- bucket_to_str and str_to_bucket ----

  function BucketToStr(bucket: nat, g: nat): (s: string)
    requires bucket < Power(g)
    ensures |s| == g && ValidKey(s)
    decreases g
  {
    if g == 0 then ""
    else
      DigitBound(bucket, Power(g - 1));
      [CharAt(bucket / Power(g - 1))] + BucketToStr(bucket % Power(g - 1), g - 1)
  }

  function StrToBucket(s: string): (b: nat)
    requires ValidKey(s)
    ensures b < Power(|s|)
    decreases |s|
  {
    if s == "" then 0
    else
      ProductBound(IndexOf(s[0]), StrToBucket(s[1..]), Power(|s| - 1));
      IndexOf(s[0]) * Power(|s| - 1) + StrToBucket(s[1..])
  }

  lemma DigitBound(n: nat, p: nat)
    requires p > 0 && n < 36 * p
    ensures 0 <= n / p < 36 && n == n / p * p + n % p
  {
    var d := n / p;
    assert d >= 36 ==> d * p >= 36 * p;
  }

  lemma ProductBound(i: nat, r: nat, p: nat)
    requires i < 36 && r < p
    ensures i * p + r < 36 * p && i * p >= 0
    ensures (i * p + r) / p == i && (i * p + r) % p == r
  {
    assert i * p <= 35 * p;
    Quotient(i * p + r, p, i, r);
  }

  lemma {:induction false} PowerPositive(g: nat)
    ensures Power(g) > 0
  {
    if g > 0 { PowerPositive(g - 1); }
  }

  /** The name of a bucket from its first digit and the rest. */
  lemma StrStep(bucket: nat, g: nat)
    requires g > 0 && bucket < Power(g)
    ensures var p := Power(g - 1);
            && p > 0 && 0 <= bucket / p < 36 && 0 <= bucket % p < p && bucket == bucket / p * p + bucket % p
            && BucketToStr(bucket, g) == [CharAt(bucket / p)] + BucketToStr(bucket % p, g - 1)
  {
    hide CharAt;
    PowerPositive(g - 1);
    DigitBound(bucket, Power(g - 1));
  }

  /** The two conversions undo each other. */
  lemma {:induction false} BucketRoundTrip(bucket: nat, g: nat)
    requires bucket < Power(g)
    ensures StrToBucket(BucketToStr(bucket, g)) == bucket
    decreases g
  {
    if g > 0 {
      StrStep(bucket, g);
      hide BucketToStr, StrToBucket, CharAt, IndexOf, Power;
      var p := Power(g - 1);
      BucketRoundTrip(bucket % p, g - 1);
      var s := BucketToStr(bucket, g);
      assert s[1..] == BucketToStr(bucket % p, g - 1);
      StrValue(s);
    }
  }

  lemma {:induction false} StrRoundTrip(s: string)
    requires ValidKey(s)
    ensures BucketToStr(StrToBucket(s), |s|) == s
    decreases |s|
  {
    hide BucketToStr, StrToBucket, Power, IndexOf, CharAt, ValidKey, ValidChar;
    if s == "" {
      NothingLeft();
    } else {
      TailValid(s);
      StrRoundTrip(s[1..]);
      StrDigits(s);
      StrStep(StrToBucket(s), |s|);
      CharOfIndex(s[0]);
      assert [s[0]] + s[1..] == s;
    }
  }

  lemma NothingLeft()
    ensures ValidKey("") && StrToBucket("") < Power(0) && BucketToStr(StrToBucket(""), 0) == ""
  {
  }

  lemma TailValid(s: string)
    requires ValidKey(s) && s != ""
    ensures ValidKey(s[1..]) && ValidChar(s[0])
  {
  }

  lemma CharOfIndex(c: char)
    requires ValidChar(c)
    ensures CharAt(IndexOf(c)) == c
  {
  }

  lemma StrDigits(s: string)
    requires ValidKey(s) && s != ""
    ensures var p := Power(|s| - 1);
            && p > 0 && StrToBucket(s) / p == IndexOf(s[0]) && StrToBucket(s) % p == StrToBucket(s[1..])
  {
    hide Power, IndexOf;
    PowerPositive(|s| - 1);
    var p, i, r := Power(|s| - 1), IndexOf(s[0]), StrToBucket(s[1..]);
    StrValue(s);
    hide StrToBucket;
    ProductBound(i, r, p);
  }

  lemma StrValue(s: string)
    requires ValidKey(s) && s != ""
    ensures StrToBucket(s[1..]) < Power(|s| - 1)
    ensures StrToBucket(s) == IndexOf(s[0]) * Power(|s| - 1) + StrToBucket(s[1..])
  {
    hide Power, IndexOf;
  }

  /** The loop of `bucket_to_str`, largest digit first. */
  method BucketToStrLoop(bucket: nat, g: nat) returns (res: string)
    requires bucket < Power(g)
    ensures res == BucketToStr(bucket, g)
  {
    hide Power, BucketToStr, CharAt;
    res := "";
    var left: nat := bucket;
    var i: nat := 0;
    while i < g
      invariant i <= g && left < Power(g - i)
      invariant res + BucketToStr(left, g - i) == BucketToStr(bucket, g)
    {
      NextDigit(res, left, g - i);
      var index: nat := left / Power(g - i - 1);
      res := res + [CharAt(index)];
      left := left % Power(g - i - 1);
      i := i + 1;
    }
    NoDigits(left);
  }

  lemma NoDigits(n: nat)
    ensures n < Power(0) ==> BucketToStr(n, 0) == ""
  {
  }

  lemma NextDigit(res: string, n: nat, g: nat)
    requires g > 0 && n < Power(g)
    ensures var p := Power(g - 1);
            && p > 0 && 0 <= n / p < 36 && 0 <= n % p < p
            && res + BucketToStr(n, g) == (res + [CharAt(n / p)]) + BucketToStr(n % p, g - 1)
  {
    PowerPositive(g - 1);
    DigitBound(n, Power(g - 1));
  }

  function ToUpper(c: char): char {
    if 'a' <= c <= 'z' then (c as int - 'a' as int + 'A' as int) as char else c
  }

  function Upper(s: string): (u: string)
    ensures |u| == |s|
  {
    seq(|s|, i requires 0 <= i < |s| => ToUpper(s[i]))
  }

  /** `s` is `t` with some letters in lower case. */
  predicate Spells(s: string, t: string) {
    && ValidKey(t) && |s| == |t|
    && forall i :: 0 <= i < |s| ==> s[i] == t[i] || ('A' <= t[i] <= 'Z' && s[i] as int == t[i] as int + 32)
  }

  /** Changing the case is taking the one name that is spelled so. */
  lemma UpperExact(s: string, t: string)
    ensures Spells(s, t) ==> t == Upper(s)
    ensures ValidKey(s) ==> Spells(s, s) && Upper(s) == s
    ensures ValidKey(Upper(s)) ==> Spells(s, Upper(s))
  {
    if Spells(s, t) {
      forall i | 0 <= i < |s| ensures Upper(s)[i] == t[i] {}
      assert Upper(s) == t;
    }
    if ValidKey(s) { assert Upper(s) == s; }
    if ValidKey(Upper(s)) {
      forall i | 0 <= i < |s|
        ensures s[i] == Upper(s)[i] || ('A' <= Upper(s)[i] <= 'Z' && s[i] as int == Upper(s)[i] as int + 32)
      {
      }
    }
  }

  lemma StrFrom(u: string, i: nat)
    requires ValidKey(u) && i < |u|
    ensures IndexOf(u[i]) * Power(|u| - i - 1) >= 0
    ensures StrToBucket(u[i..]) == IndexOf(u[i]) * Power(|u| - i - 1) + StrToBucket(u[i + 1..])
  {
    hide Power;
    assert u[i..][1..] == u[i + 1..];
  }

  /** The loop of `str_to_bucket`, which takes lower case for upper case. */
  method StrToBucketLoop(s: string) returns (bucket: nat)
    requires ValidKey(Upper(s))
    ensures bucket == StrToBucket(Upper(s))
    ensures Spells(s, Upper(s)) && forall t :: Spells(s, t) ==> bucket == StrToBucket(t)
  {
    hide StrToBucket, Power, Spells;
    forall t ensures Spells(s, t) ==> t == Upper(s) { UpperExact(s, t); }
    UpperExact(s, s);
    ghost var u := Upper(s);
    bucket := 0;
    var i: nat := 0;
    assert u[0..] == u;
    while i < |s|
      invariant i <= |s| && bucket + StrToBucket(u[i..]) == StrToBucket(u)
    {
      StrFrom(u, i);
      bucket := bucket + IndexOf(ToUpper(s[i])) * Power(|s| - i - 1);
      i := i + 1;
    }
    EmptyStr(u[i..]);
  }

  lemma EmptyStr(s: string)
    ensures s == "" ==> StrToBucket(s) == 0
  {
  }

  // ---- Order ----

  /** `std::string` comparison. */
  predicate Leq(a: string, b: string)
    decreases |a|
  {
    a == "" || (b != "" && (a[0] < b[0] || (a[0] == b[0] && Leq(a[1..], b[1..]))))
  }

  /** Character by character: `a` is a prefix of `b`, or is below it at the first character where they differ. */
  lemma {:induction false} LeqExact(a: string, b: string)
    ensures Leq(a, b) <==> a <= b || exists i: nat :: i < |a| && i < |b| && a[..i] == b[..i] && a[i] < b[i]
    decreases |a|
  {
    if a != "" && b != "" {
      LeqExact(a[1..], b[1..]);
      if a[0] == b[0] {
        assert a <= b <==> a[1..] <= b[1..] by { FirstAndRest(a, b); }
        forall i: nat | i < |a| - 1 && i < |b| - 1
          ensures a[1..][..i] == b[1..][..i] <==> a[..i + 1] == b[..i + 1]
        {
          assert a[..i + 1] == [a[0]] + a[1..][..i] && b[..i + 1] == [b[0]] + b[1..][..i];
        }
        if j: nat :| j < |a| - 1 && j < |b| - 1 && a[1..][..j] == b[1..][..j] && a[1..][j] < b[1..][j] {
          assert a[..j + 1] == b[..j + 1] && a[j + 1] < b[j + 1];
        }
        if j: nat :| j < |a| && j < |b| && a[..j] == b[..j] && a[j] < b[j] {
          assert j > 0 && a[1..][..j - 1] == b[1..][..j - 1] && a[1..][j - 1] < b[1..][j - 1];
        }
      } else {
        assert a[..0] == b[..0];
        forall i: nat | 0 < i < |a| && i < |b| ensures a[..i] != b[..i] {
          assert a[..i][0] == a[0] && b[..i][0] == b[0];
        }
      }
    }
  }

  lemma FirstAndRest(a: string, b: string)
    requires a != "" && b != "" && a[0] == b[0]
    ensures a <= b <==> a[1..] <= b[1..]
  {
    assert a == [a[0]] + a[1..] && b == [b[0]] + b[1..];
    if a <= b { assert b[1..][..|a| - 1] == b[..|a|][1..]; }
    if a[1..] <= b[1..] { assert b[..|a|] == [b[0]] + b[1..][..|a| - 1]; }
  }

  /** On names of the same length the order of the strings is the order of the buckets. */
  lemma {:induction false} OrderKept(a: string, b: string)
    requires ValidKey(a) && ValidKey(b) && |a| == |b|
    ensures Leq(a, b) <==> StrToBucket(a) <= StrToBucket(b)
    decreases |a|
  {
    if a != "" {
      var p, x, y := Power(|a| - 1), StrToBucket(a[1..]), StrToBucket(b[1..]);
      OrderKept(a[1..], b[1..]);
      DigitOrder(IndexOf(a[0]), x, IndexOf(b[0]), y, p);
      assert a[0] < b[0] <==> IndexOf(a[0]) < IndexOf(b[0]);
    }
  }

  lemma DigitOrder(i: nat, x: nat, j: nat, y: nat, p: nat)
    requires x < p && y < p
    ensures i * p + x <= j * p + y <==> i < j || (i == j && x <= y)
  {
    if i < j { MulGap(i, j, p); }
    if j < i { MulGap(j, i, p); }
  }

  lemma MulGap(i: nat, j: nat, p: nat)
    requires i < j
    ensures i * p + p <= j * p
  {
    var d := j - i - 1;
    assert d * p >= 0;
    assert j * p == (d + i + 1) * p == d * p + i * p + p;
  }

  // ---- Shards ----

  datatype Shard = Shard(lower: string, upper: string)

  predicate ShardOk(s: Shard, g: nat) {
    ValidKey(s.lower) && ValidKey(s.upper) && |s.lower| == g && |s.upper| == g
  }

  function Size(s: Shard): int
    requires ValidKey(s.lower) && ValidKey(s.upper)
  {
    StrToBucket(s.upper) - StrToBucket(s.lower) + 1
  }

  /** `contains` looks at the first `granularity` characters of the key. */
  predicate Contains(s: Shard, key: string) {
    var prefix := if |key| <= |s.lower| then key else key[..|s.lower|];
    Leq(s.lower, prefix) && Leq(prefix, s.upper)
  }

  lemma ContainsBucket(s: Shard, g: nat, key: string)
    requires ShardOk(s, g) && ValidKey(key) && |key| >= g
    ensures Contains(s, key) <==> StrToBucket(s.lower) <= StrToBucket(key[..g]) <= StrToBucket(s.upper)
  {
    OrderKept(s.lower, key[..g]);
    OrderKept(key[..g], s.upper);
    assert |key| == g ==> key[..g] == key;
  }

  /** The midpoint split: two adjacent shards that cover the old one, the first at most one larger. */
  function SplitShard(s: Shard): (r: (Shard, Shard))
    requires ShardOk(s, |s.lower|) && StrToBucket(s.lower) < StrToBucket(s.upper)
  {
    var lower, upper := StrToBucket(s.lower), StrToBucket(s.upper);
    var midpoint := lower + (upper - lower) / 2;
    (Shard(s.lower, BucketToStr(midpoint, |s.lower|)), Shard(BucketToStr(midpoint + 1, |s.lower|), s.upper))
  }

  lemma SplitShardCorrect(s: Shard)
    requires ShardOk(s, |s.lower|) && StrToBucket(s.lower) < StrToBucket(s.upper)
    ensures var (a, b) := SplitShard(s);
            && ShardOk(a, |s.lower|) && ShardOk(b, |s.lower|)
            && StrToBucket(b.lower) == StrToBucket(a.upper) + 1
            && Size(a) >= 1 && Size(b) >= 1 && Size(a) + Size(b) == Size(s) && 0 <= Size(a) - Size(b) <= 1
            && forall key :: ValidKey(key) && |key| >= |s.lower| ==>
                 (Contains(s, key) <==> Contains(a, key) || Contains(b, key)) && !(Contains(a, key) && Contains(b, key))
  {
    hide BucketToStr, StrToBucket, Contains, Power;
    var g := |s.lower|;
    var lower, upper := StrToBucket(s.lower), StrToBucket(s.upper);
    var midpoint := lower + (upper - lower) / 2;
    var (a, b) := SplitShard(s);
    BucketRoundTrip(midpoint, g);
    BucketRoundTrip(midpoint + 1, g);
    hide SplitShard, ValidKey;
    forall key | ValidKey(key) && |key| >= g
      ensures (Contains(s, key) <==> Contains(a, key) || Contains(b, key)) && !(Contains(a, key) && Contains(b, key))
    {
      KeySplit(s, a, b, g, key);
    }
  }

  lemma KeySplit(s: Shard, a: Shard, b: Shard, g: nat, key: string)
    requires ShardOk(s, g) && ShardOk(a, g) && ShardOk(b, g) && ValidKey(key) && |key| >= g
    requires a.lower == s.lower && b.upper == s.upper && StrToBucket(b.lower) == StrToBucket(a.upper) + 1
    requires StrToBucket(a.lower) <= StrToBucket(a.upper) && StrToBucket(b.lower) <= StrToBucket(b.upper)
    ensures (Contains(s, key) <==> Contains(a, key) || Contains(b, key)) && !(Contains(a, key) && Contains(b, key))
  {
    hide StrToBucket, Contains;
    ContainsBucket(s, g, key);
    ContainsBucket(a, g, key);
    ContainsBucket(b, g, key);
  }

  // ---- get_overlap ----

  datatype OverlapStatus = NoOverlap | OverlapStart | OverlapEnd | CompletelyContains | CompletelyContained

  predicate Less(a: string, b: string) { !Leq(b, a) }

  /** `None` is the exception. */
  function GetOverlap(a: Shard, b: Shard): Option<OverlapStatus> {
    if Less(a.upper, b.lower) || Less(b.upper, a.lower) then Some(NoOverlap)
    else if Leq(b.lower, a.lower) && Leq(a.upper, b.upper) then Some(CompletelyContained)
    else if Less(a.lower, b.lower) && Less(b.upper, a.upper) then Some(CompletelyContains)
    else if Leq(b.lower, a.lower) && Less(b.upper, a.upper) then Some(OverlapStart)
    else if Less(a.lower, b.lower) && Leq(a.upper, b.upper) then Some(OverlapEnd)
    else None
  }

  predicate InRange(x: string, s: Shard) { Leq(s.lower, x) && Leq(x, s.upper) }

  lemma {:induction false} LeqTotal(a: string, b: string)
    ensures Leq(a, b) || Leq(b, a)
    ensures Leq(a, b) && Leq(b, a) ==> a == b
    ensures Leq(a, a)
    decreases |a|
  {
    if a != "" && b != "" {
      LeqTotal(a[1..], b[1..]);
      if a[0] == b[0] && a[1..] == b[1..] { assert a == [a[0]] + a[1..] && b == [b[0]] + b[1..]; }
    }
    if a != "" { LeqTotal(a[1..], a[1..]); }
  }

  lemma {:induction false} LeqTrans(a: string, b: string, c: string)
    requires Leq(a, b) && Leq(b, c)
    ensures Leq(a, c)
    decreases |a|
  {
    if a != "" && b[0] == a[0] && c[0] == b[0] { LeqTrans(a[1..], b[1..], c[1..]); }
  }

  ghost predicate Meet(a: Shard, b: Shard) { exists x :: InRange(x, a) && InRange(x, b) }

  ghost predicate RangeWithin(a: Shard, b: Shard) { forall x :: InRange(x, a) ==> InRange(x, b) }

  /** The classification never fails.  "None" says that the ranges are disjoint; "contained" that the first
      is within the second; "contains" that the second lies inside the first, away from both its ends;
      the last two that they meet and that only the first's start, or only its end, is in the second. */
  lemma OverlapMeaning(a: Shard, b: Shard)
    requires Leq(a.lower, a.upper) && Leq(b.lower, b.upper)
    ensures GetOverlap(a, b).Some?
    ensures GetOverlap(a, b) == Some(NoOverlap) <==> !Meet(a, b)
    ensures GetOverlap(a, b) == Some(CompletelyContained) <==> RangeWithin(a, b)
    ensures GetOverlap(a, b) == Some(CompletelyContains)
       <==> RangeWithin(b, a) && !InRange(a.lower, b) && !InRange(a.upper, b)
    ensures GetOverlap(a, b) == Some(OverlapStart) <==> InRange(a.lower, b) && !InRange(a.upper, b)
    ensures GetOverlap(a, b) == Some(OverlapEnd) <==> !InRange(a.lower, b) && InRange(a.upper, b)
  {
    hide Leq;
    LeqTotal(a.lower, b.lower);
    LeqTotal(a.upper, b.upper);
    LeqTotal(a.upper, b.lower);
    LeqTotal(b.upper, a.lower);
    LeqTotal(a.lower, a.upper);
    LeqTotal(b.lower, b.upper);
    assert InRange(a.lower, a) && InRange(a.upper, a) && InRange(b.lower, b) && InRange(b.upper, b);
    if Leq(b.lower, a.lower) { LeqTrans(b.lower, a.lower, a.upper); }
    if Leq(a.upper, b.upper) { LeqTrans(a.lower, a.upper, b.upper); }
    forall x | InRange(x, a) && InRange(x, b) ensures GetOverlap(a, b) != Some(NoOverlap) {
      LeqTrans(a.lower, x, b.upper);
      LeqTrans(b.lower, x, a.upper);
    }
    if GetOverlap(a, b) != Some(NoOverlap) {
      var x := if Leq(a.lower, b.lower) then b.lower else a.lower;
      assert InRange(x, a) && InRange(x, b);
    }
    if Leq(b.lower, a.lower) && Leq(a.upper, b.upper) { Within(a, b); }
    if Leq(a.lower, b.lower) && Leq(b.upper, a.upper) { Within(b, a); }
  }

  lemma Within(a: Shard, b: Shard)
    requires Leq(b.lower, a.lower) && Leq(a.upper, b.upper)
    ensures forall x :: InRange(x, a) ==> InRange(x, b)
  {
    forall x | InRange(x, a) ensures InRange(x, b) {
      LeqTrans(b.lower, a.lower, x);
      LeqTrans(x, a.upper, b.upper);
    }
  }

  // ---- split_into ----

  /** Where shard `i` of `n` begins: the first shards take one of the left-over buckets each. */
  function StartOf(buckets: nat, n: nat, i: nat): nat
    requires n > 0
  {
    i * (buckets / n) + if i < buckets % n then i else buckets % n
  }

  lemma StartStep(buckets: nat, n: nat, i: nat)
    requires n > 0
    ensures StartOf(buckets, n, i + 1) == StartOf(buckets, n, i) + buckets / n + (if i < buckets % n then 1 else 0)
    ensures StartOf(buckets, n, 0) == 0 && StartOf(buckets, n, n) == buckets
  {
    assert (i + 1) * (buckets / n) == i * (buckets / n) + buckets / n;
    assert n * (buckets / n) + buckets % n == buckets;
  }

  lemma {:induction false} StartGrows(buckets: nat, n: nat, i: nat, j: nat)
    requires 0 < n <= buckets && i <= j
    ensures StartOf(buckets, n, i) + (j - i) <= StartOf(buckets, n, j)
    decreases j - i
  {
    if i < j {
      StartStep(buckets, n, i);
      AtLeastOne(buckets, n);
      StartGrows(buckets, n, i + 1, j);
    }
  }

  lemma AtLeastOne(buckets: nat, n: nat)
    requires 0 < n <= buckets
    ensures buckets / n >= 1
  {
    var q := buckets / n;
    assert q < 1 ==> n * q <= 0;
    assert n * q + buckets % n == buckets;
  }

  /** The least number of characters that tell `n` shards apart. */
  function GranularityFor(n: nat, g: nat): (r: nat)
    requires g <= MAX_GRANULARITY && n <= Power(MAX_GRANULARITY)
    ensures g <= r <= MAX_GRANULARITY && n <= Power(r) && forall k: nat :: g <= k < r ==> Power(k) < n
    decreases MAX_GRANULARITY - g
  {
    if n <= Power(g) || g == MAX_GRANULARITY then g else GranularityFor(n, g + 1)
  }

  /** A table of shards that follows StartOf. */
  ghost predicate EvenTable(shards: seq<Shard>, g: nat) {
    && |shards| > 0 && |shards| <= Power(g)
    && forall i: nat :: i < |shards| ==> EvenShard(shards[i], g, |shards|, i)
  }

  ghost predicate EvenShard(s: Shard, g: nat, n: nat, i: nat)
    requires n > 0
  {
    && ShardOk(s, g)
    && StrToBucket(s.lower) == StartOf(Power(g), n, i)
    && StrToBucket(s.upper) == StartOf(Power(g), n, i + 1) - 1
  }

  method SplitInto(n: nat) returns (shards: seq<Shard>, ghost g: nat)
    requires 1 <= n <= 1_679_616
    ensures |shards| == n && g == GranularityFor(n, 1) && EvenTable(shards, g)
    ensures g == if n <= 36 then 1 else if n <= 1296 then 2 else if n <= 46_656 then 3 else 4
  {
    Powers();
    hide Power, GranularityFor;
    var granularity := Granularity(n);
    g := granularity;
    var sizes := Sizes(Power(granularity), n);
    shards := Table(n, granularity, sizes);
  }

  /** The table of powers, and with it the granularity. */
  lemma Powers()
    ensures Power(MAX_GRANULARITY) == 1_679_616
    ensures forall n: nat :: 1 <= n <= 1_679_616 ==>
              GranularityFor(n, 1) == if n <= 36 then 1 else if n <= 1296 then 2 else if n <= 46_656 then 3 else 4
  {
    assert Power(1) == 36 && Power(2) == 1296 && Power(3) == 46_656 && Power(4) == 1_679_616;
  }

  method Granularity(n: nat) returns (granularity: nat)
    requires 1 <= n <= Power(MAX_GRANULARITY)
    ensures granularity == GranularityFor(n, 1)
  {
    hide Power;
    granularity := 1;
    while granularity < MAX_GRANULARITY && n > Power(granularity)
      invariant 1 <= granularity <= MAX_GRANULARITY && GranularityFor(n, 1) == GranularityFor(n, granularity)
    {
      granularity := granularity + 1;
    }
  }

  /** Even sizes, the left-over buckets one each to the first shards. */
  method Sizes(buckets: nat, n: nat) returns (sizes: seq<nat>)
    requires n > 0
    ensures |sizes| == n
    ensures forall j: nat :: j < n ==> sizes[j] == buckets / n + if j < buckets % n then 1 else 0
  {
    var size, remainder := buckets / n, buckets % n;
    sizes := seq(n, _ => size);
    var i: nat := 0;
    while i < remainder
      invariant i <= remainder < n && |sizes| == n
      invariant forall j: nat :: j < n ==> sizes[j] == size + if j < i then 1 else 0
    {
      sizes := sizes[i := sizes[i] + 1];
      i := i + 1;
    }
  }

  /** The shards one after the other. */
  method Table(n: nat, granularity: nat, sizes: seq<nat>) returns (shards: seq<Shard>)
    requires 0 < n <= Power(granularity) && |sizes| == n
    requires var buckets := Power(granularity);
             forall j: nat :: j < n ==> sizes[j] == buckets / n + if j < buckets % n then 1 else 0
    ensures |shards| == n && EvenTable(shards, granularity)
  {
    hide BucketToStr, StrToBucket, StartOf, Power;
    var buckets := Power(granularity);
    shards := [];
    var lower: nat := 0;
    StartStep(buckets, n, 0);
    while |shards| < n
      invariant |shards| <= n && lower == StartOf(buckets, n, |shards|)
      invariant forall j: nat :: j < |shards| ==> EvenShard(shards[j], granularity, n, j)
    {
      var k := |shards|;
      var upper := lower + sizes[k] - 1;
      ShardBounds(buckets, n, k);
      BucketRoundTrip(lower, granularity);
      BucketRoundTrip(upper, granularity);
      shards := shards + [Shard(BucketToStr(lower, granularity), BucketToStr(upper, granularity))];
      lower := lower + sizes[k];
    }
  }

  /** Shard `k` of `n` lies within the buckets and has at least one. */
  lemma ShardBounds(buckets: nat, n: nat, k: nat)
    requires 0 < n <= buckets && k < n
    ensures StartOf(buckets, n, k + 1) == StartOf(buckets, n, k) + buckets / n + (if k < buckets % n then 1 else 0)
    ensures StartOf(buckets, n, k) < StartOf(buckets, n, k + 1) <= buckets
  {
    hide StartOf;
    StartStep(buckets, n, k);
    AtLeastOne(buckets, n);
    StartGrows(buckets, n, k + 1, n);
  }

  /** The shard of a bucket, searched from shard `i` on. */
  lemma {:induction false} ShardOfBucket(buckets: nat, n: nat, b: nat, i: nat) returns (k: nat)
    requires 0 < n <= buckets && b < buckets && i < n && StartOf(buckets, n, i) <= b
    ensures i <= k < n && StartOf(buckets, n, k) <= b < StartOf(buckets, n, k + 1)
    decreases n - i
  {
    StartStep(buckets, n, i);
    if b < StartOf(buckets, n, i + 1) { return i; }
    k := ShardOfBucket(buckets, n, b, i + 1);
  }

  /** Every upper-case alphanumeric key at least as long as the granularity is in exactly one shard,
      and the shard sizes differ by at most one. */
  lemma SplitPartitions(shards: seq<Shard>, g: nat, key: string)
    requires EvenTable(shards, g) && ValidKey(key) && |key| >= g
    ensures exists i: nat :: i < |shards| && Contains(shards[i], key)
    ensures forall i: nat, j: nat :: i < |shards| && j < |shards| && Contains(shards[i], key) && Contains(shards[j], key) ==> i == j
    ensures forall i: nat, j: nat :: i < |shards| && j < |shards| ==> Size(shards[i]) - Size(shards[j]) <= 1
  {
    hide StrToBucket, StartOf, Contains, Power;
    var buckets, n, b := Power(g), |shards|, StrToBucket(key[..g]);
    StartStep(buckets, n, 0);
    var k := ShardOfBucket(buckets, n, b, 0);
    ContainsBucket(shards[k], g, key);
    forall i: nat, j: nat | i < j < n ensures !(Contains(shards[i], key) && Contains(shards[j], key)) {
      StartGrows(buckets, n, i + 1, j);
      ContainsBucket(shards[i], g, key);
      ContainsBucket(shards[j], g, key);
    }
    forall i: nat, j: nat | i < n && j < n ensures Size(shards[i]) - Size(shards[j]) <= 1 {
      StartStep(buckets, n, i);
      StartStep(buckets, n, j);
    }
  }

  // ---- Keys shorter than the granularity ----

  function Padded(key: string, g: nat): (s: string)
    ensures |key| <= g ==> |s| == g
    decreases g - |key|
  {
    if |key| >= g then key else Padded(key + "0", g)
  }

  lemma {:induction false} PaddedValid(key: string, g: nat)
    requires ValidKey(key) && |key| <= g
    ensures ValidKey(Padded(key, g)) && |Padded(key, g)| == g
    decreases g - |key|
  {
    if |key| < g { PaddedValid(key + "0", g); }
  }

  /** One zero more does not change the order to a longer name. */
  lemma {:induction false} ZeroOrder(key: string, a: string)
    requires ValidKey(a) && |key| < |a|
    ensures Leq(key, a) <==> Leq(key + "0", a)
    decreases |key|
  {
    if key == "" {
      assert ValidChar(a[0]);
      assert ("" + "0")[1..] == "";
    } else {
      ZeroOrder(key[1..], a[1..]);
      assert (key + "0")[1..] == key[1..] + "0";
    }
  }

  lemma {:induction false} PadOrder(key: string, a: string)
    requires ValidKey(a) && |key| <= |a|
    ensures Leq(key, a) <==> Leq(Padded(key, |a|), a)
    decreases |a| - |key|
  {
    if |key| < |a| {
      ZeroOrder(key, a);
      PadOrder(key + "0", a);
    }
  }

  /** A short key is in the shard if its padded name is, and is not the shard's first name. */
  lemma ShortContains(s: Shard, g: nat, key: string)
    requires ShardOk(s, g) && ValidKey(key) && |key| < g
    ensures ValidKey(Padded(key, g)) && |Padded(key, g)| == g
    ensures Contains(s, key) <==> StrToBucket(s.lower) < StrToBucket(Padded(key, g)) <= StrToBucket(s.upper)
  {
    hide Padded, Leq, StrToBucket;
    PaddedValid(key, g);
    PadOrder(key, s.lower);
    PadOrder(key, s.upper);
    LeqTotal(s.lower, key);
    OrderKept(Padded(key, g), s.lower);
    OrderKept(Padded(key, g), s.upper);
  }

  /** A key shorter than the granularity is in at most one shard, and in none exactly if its name, padded with
      zeros, is the first of a shard.  The empty key is in none. */
  lemma ShortKeys(shards: seq<Shard>, g: nat, key: string)
    requires EvenTable(shards, g) && ValidKey(key) && |key| < g
    ensures (exists i: nat :: i < |shards| && Contains(shards[i], key))
       <==> forall i: nat :: i < |shards| ==> shards[i].lower != Padded(key, g)
    ensures forall i: nat, j: nat :: i < |shards| && j < |shards| && Contains(shards[i], key) && Contains(shards[j], key) ==> i == j
    ensures key == "" ==> forall i: nat :: i < |shards| ==> !Contains(shards[i], key)
  {
    hide StrToBucket, BucketToStr, StartOf, Contains, Power, Padded;
    PaddedValid(key, g);
    var buckets, n, b := Power(g), |shards|, StrToBucket(Padded(key, g));
    StartStep(buckets, n, 0);
    var k := ShardOfBucket(buckets, n, b, 0);
    forall i: nat | i < n
      ensures Contains(shards[i], key) <==> i == k && shards[k].lower != Padded(key, g)
      ensures shards[i].lower == Padded(key, g) ==> i == k
    {
      assert EvenShard(shards[i], g, n, i) && EvenShard(shards[k], g, n, k);
      ShortContains(shards[i], g, key);
      StrRoundTrip(shards[i].lower);
      StrRoundTrip(shards[k].lower);
      StrRoundTrip(Padded(key, g));
      ShardBounds(buckets, n, i);
      if i < k { StartGrows(buckets, n, i + 1, k); }
      if k < i { StartGrows(buckets, n, k + 1, i); }
    }
    assert Contains(shards[k], key) <==> shards[k].lower != Padded(key, g);
    if key == "" {
      ZeroBucket(g);
      assert EvenShard(shards[k], g, n, k);
      StrRoundTrip(shards[k].lower);
      StrRoundTrip(Padded(key, g));
    }
  }

  lemma {:induction false} ZeroFirst(key: string, g: nat)
    requires |key| <= g && forall i :: 0 <= i < |key| ==> key[i] == '0'
    ensures forall i :: 0 <= i < |Padded(key, g)| ==> Padded(key, g)[i] == '0'
    decreases g - |key|
  {
    if |key| < g { ZeroFirst(key + "0", g); }
  }

  lemma {:induction false} ZeroValue(s: string)
    requires forall i :: 0 <= i < |s| ==> s[i] == '0'
    ensures ValidKey(s) && StrToBucket(s) == 0
    decreases |s|
  {
    if s != "" { ZeroValue(s[1..]); }
  }

  lemma ZeroBucket(g: nat)
    ensures ValidKey(Padded("", g)) && StrToBucket(Padded("", g)) == 0
  {
    ZeroFirst("", g);
    ZeroValue(Padded("", g));
  }
}

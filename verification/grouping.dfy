/**
 * The aggregation vocabulary the scripts share: `defaultdict(list)` buckets
 * and `defaultdict(int)` counters filled in input order (a Python `dict`
 * keeps its keys in insertion order), `list(set(xs))`, and Python's stable
 * `sorted`.
 */
module Grouping {
  import opened Text

  /** The elements of `xs` whose key is `k`, in their original order. */
  function Bucket<T(==,!new), K(==,!new)>(xs: seq<T>, key: T -> K, k: K): (b: seq<T>)
    ensures |b| <= |xs|
    ensures forall x :: x in b <==> x in xs && key(x) == k
  {
    if xs == [] then []
    else
      var init, x := xs[..|xs| - 1], xs[|xs| - 1];
      assert xs == init + [x];
      var b := Bucket(init, key, k);
      if key(x) == k then b + [x] else b
  }

  /** Bucket of a sequence extended by one element. */
  lemma BucketSnoc<T(!new), K(!new)>(xs: seq<T>, x: T, key: T -> K, k: K)
    ensures Bucket(xs + [x], key, k) == if key(x) == k then Bucket(xs, key, k) + [x] else Bucket(xs, key, k)
  {
    assert (xs + [x])[..|xs|] == xs;
  }

  /** Filtering distributes over concatenation. */
  lemma {:induction false} BucketAppend<T(!new), K(!new)>(xs: seq<T>, ys: seq<T>, key: T -> K, k: K)
    ensures Bucket(xs + ys, key, k) == Bucket(xs, key, k) + Bucket(ys, key, k)
  {
    if ys == [] {
      assert xs + ys == xs;
    } else {
      var init, y := ys[..|ys| - 1], ys[|ys| - 1];
      assert ys == init + [y];
      assert xs + ys == (xs + init) + [y];
      BucketAppend(xs, init, key, k);
      BucketSnoc(xs + init, y, key, k);
      BucketSnoc(init, y, key, k);
    }
  }

  /** A sequence whose elements all have key `k` is its own bucket under `k`, and has an empty one under any other key. */
  lemma {:induction false} BucketOfUniform<T(!new), K(!new)>(xs: seq<T>, key: T -> K, k: K, j: K)
    requires forall x :: x in xs ==> key(x) == k
    ensures Bucket(xs, key, k) == xs
    ensures j != k ==> Bucket(xs, key, j) == []
  {
    if xs != [] {
      var init, x := xs[..|xs| - 1], xs[|xs| - 1];
      assert xs == init + [x];
      BucketOfUniform(init, key, k, j);
    }
  }

  /** Appending a block of elements that all have key `n` adds the block to bucket `n` and leaves every other bucket alone. */
  lemma AppendUniformBlock<T(!new)>(prev: seq<T>, block: seq<T>, key: T -> int, n: int, k: int)
    requires forall x :: x in block ==> key(x) == n
    ensures k != n ==> Bucket(prev + block, key, k) == Bucket(prev, key, k)
    ensures k == n ==> Bucket(prev + block, key, k) == Bucket(prev, key, k) + block
    ensures k == n && Bucket(prev, key, k) == [] ==> Bucket(prev + block, key, k) == block
  {
    BucketAppend(prev, block, key, k);
    BucketOfUniform(block, key, n, k);
    assert Bucket(prev, key, k) + [] == Bucket(prev, key, k);
    assert [] + block == block;
  }

  /** One more element of a prefix. */
  lemma PrefixSnoc<T>(s: seq<T>, k: nat)
    requires k < |s|
    ensures s[..k + 1] == s[..k] + [s[k]]
  {
  }

  lemma AppendAssoc<T>(a: seq<T>, b: seq<T>, c: seq<T>)
    ensures (a + b) + c == a + (b + c)
  {
  }

  /** `[f(x) for x in xs]`. */
  function MapEach<T, U>(xs: seq<T>, f: T -> U): (r: seq<U>)
    ensures |r| == |xs|
  {
    if xs == [] then [] else MapEach(xs[..|xs| - 1], f) + [f(xs[|xs| - 1])]
  }

  lemma {:induction false} MapEachAt<T, U>(xs: seq<T>, f: T -> U)
    ensures forall k :: 0 <= k < |xs| ==> MapEach(xs, f)[k] == f(xs[k])
  {
    if xs != [] {
      MapEachAt(xs[..|xs| - 1], f);
    }
  }

  /** The whole prefix. */
  lemma PrefixAll<T>(s: seq<T>)
    ensures s[..|s|] == s
  {
  }

  /** The blocks one after the other: what appending each block's elements in turn builds. */
  function Flatten<T>(blocks: seq<seq<T>>): seq<T> {
    if blocks == [] then [] else Flatten(blocks[..|blocks| - 1]) + blocks[|blocks| - 1]
  }

  lemma FlattenSnoc<T>(blocks: seq<seq<T>>, b: seq<T>)
    ensures Flatten(blocks + [b]) == Flatten(blocks) + b
  {
    assert (blocks + [b])[..|blocks|] == blocks;
  }

  /**
   * When the elements of block `i` all have key `i + 1`, the bucket of key
   * `j + 1` of the flattened sequence is block `j`, and keys outside
   * `1..|blocks|` have empty buckets.
   */
  lemma {:induction false} BucketOfFlatten<T(!new)>(blocks: seq<seq<T>>, key: T -> int, j: int)
    requires forall i, x :: 0 <= i < |blocks| && x in blocks[i] ==> key(x) == i + 1
    ensures 0 <= j < |blocks| ==> Bucket(Flatten(blocks), key, j + 1) == blocks[j]
    ensures !(0 <= j < |blocks|) ==> Bucket(Flatten(blocks), key, j + 1) == []
  {
    if blocks != [] {
      var init, last := blocks[..|blocks| - 1], blocks[|blocks| - 1];
      assert Flatten(blocks) == Flatten(init) + last;
      forall i, x | 0 <= i < |init| && x in init[i] ensures key(x) == i + 1 {
        assert init[i] == blocks[i];
      }
      BucketOfFlatten(init, key, j);
      AppendUniformBlock(Flatten(init), last, key, |blocks|, j + 1);
      if 0 <= j < |init| {
        assert blocks[j] == init[j];
      }
    }
  }

  /** An element of the flattened sequence comes from some block, and every element of every block is in it. */
  lemma {:induction false} FlattenMembers<T>(blocks: seq<seq<T>>)
    ensures forall x :: x in Flatten(blocks) <==> exists i :: 0 <= i < |blocks| && x in blocks[i]
  {
    if blocks != [] {
      var init, last := blocks[..|blocks| - 1], blocks[|blocks| - 1];
      FlattenMembers(init);
      forall x ensures x in Flatten(blocks) <==> exists i :: 0 <= i < |blocks| && x in blocks[i] {
        if x in Flatten(init) {
          var i :| 0 <= i < |init| && x in init[i];
          assert blocks[i] == init[i];
        }
        if exists i :: 0 <= i < |blocks| && x in blocks[i] {
          var i :| 0 <= i < |blocks| && x in blocks[i];
          if i < |init| {
            assert init[i] == blocks[i];
          }
        }
      }
    }
  }

  /** When the elements of block `i` all have key `i + 1`, the flattened sequence is ordered by key. */
  lemma {:induction false} FlattenOrdered<T>(blocks: seq<seq<T>>, key: T -> int)
    requires forall i, x :: 0 <= i < |blocks| && x in blocks[i] ==> key(x) == i + 1
    ensures forall a, b :: 0 <= a < b < |Flatten(blocks)| ==> key(Flatten(blocks)[a]) <= key(Flatten(blocks)[b])
    ensures forall x :: x in Flatten(blocks) ==> 1 <= key(x) <= |blocks|
  {
    if blocks != [] {
      var init, last := blocks[..|blocks| - 1], blocks[|blocks| - 1];
      FlattenOrdered(init, key);
      var prev, all := Flatten(init), Flatten(blocks);
      assert all == prev + last;
      forall a, b | 0 <= a < b < |all| ensures key(all[a]) <= key(all[b]) {
        if a < |prev| {
          assert all[a] in prev;
        } else {
          assert all[a] in last;
        }
        if b < |prev| {
          assert all[b] in prev;
        } else {
          assert all[b] in last;
        }
      }
    }
  }

  /** The distinct keys of `xs`, in order of first appearance. */
  function Keys<T(==,!new), K(==,!new)>(xs: seq<T>, key: T -> K): (ks: seq<K>)
    ensures |ks| <= |xs|
    ensures NoDuplicates(ks)
    ensures forall k :: k in ks <==> Bucket(xs, key, k) != []
  {
    if xs == [] then []
    else
      var init, x := xs[..|xs| - 1], xs[|xs| - 1];
      assert xs == init + [x];
      var ks := Keys(init, key);
      forall k ensures k in ks <==> Bucket(init, key, k) != [] {
      }
      if key(x) in ks then ks else ks + [key(x)]
  }

  lemma KeysSnoc<T(!new), K(!new)>(xs: seq<T>, x: T, key: T -> K)
    ensures Keys(xs + [x], key) == if key(x) in Keys(xs, key) then Keys(xs, key) else Keys(xs, key) + [key(x)]
  {
    assert (xs + [x])[..|xs|] == xs;
  }

  /** A `defaultdict(list)`: the keys in insertion order and the list under each key. */
  datatype Groups<K, T> = Groups(keys: seq<K>, lists: map<K, seq<T>>)

  /** `d[k].append(x)`: a missing key starts out as an empty list and goes last in the key order. */
  function Append<K(!new), T>(g: Groups<K, T>, k: K, x: T): (g': Groups<K, T>)
    ensures k in g'.lists && g'.lists[k] == (if k in g.lists then g.lists[k] else []) + [x]
    ensures forall j :: j != k ==> (j in g'.lists <==> j in g.lists)
    ensures forall j :: j != k && j in g.lists ==> g'.lists[j] == g.lists[j]
    ensures g'.keys == if k in g.lists then g.keys else g.keys + [k]
  {
    if k in g.lists then Groups(g.keys, g.lists[k := g.lists[k] + [x]])
    else Groups(g.keys + [k], g.lists[k := [x]])
  }

  /** The dictionary that `for x in xs: d[key(x)].append(x)` leaves behind, starting from an empty `defaultdict(list)`. */
  function GroupBy<T(==,!new), K(==,!new)>(xs: seq<T>, key: T -> K): (g: Groups<K, T>)
    ensures g.keys == Keys(xs, key)
    ensures forall k :: k in g.lists <==> k in g.keys
    ensures forall k :: k in g.lists ==> g.lists[k] == Bucket(xs, key, k)
  {
    Groups(Keys(xs, key), map k | k in Keys(xs, key) :: Bucket(xs, key, k))
  }

  /** One more `append` turns the grouping of `xs` into the grouping of `xs + [x]`. */
  lemma GroupByStep<T(!new), K(!new)>(xs: seq<T>, x: T, key: T -> K)
    ensures GroupBy(xs + [x], key) == Append(GroupBy(xs, key), key(x), x)
  {
    var g, h := GroupBy(xs + [x], key), Append(GroupBy(xs, key), key(x), x);
    KeysSnoc(xs, x, key);
    assert g.keys == h.keys;
    forall k ensures (k in g.lists <==> k in h.lists) && (k in g.lists ==> g.lists[k] == h.lists[k]) {
      BucketSnoc(xs, x, key, k);
    }
    assert g.lists == h.lists;
  }

  /** Grouping one more element of `xs` appends it to the list of its key. */
  lemma GroupPrefixStep<T(!new), K(!new)>(xs: seq<T>, i: nat, key: T -> K)
    requires i < |xs|
    ensures GroupBy(xs[..i + 1], key) == Append(GroupBy(xs[..i], key), key(xs[i]), xs[i])
  {
    PrefixSnoc(xs, i);
    GroupByStep(xs[..i], xs[i], key);
  }

  /** `for x in xs: by_a[a(x)].append(x); by_b[b(x)].append(x)`, from two empty `defaultdict(list)`s. */
  method GroupTwice<T(==,!new), K(==,!new)>(xs: seq<T>, a: T -> K, b: T -> K) returns (byA: Groups<K, T>, byB: Groups<K, T>)
    ensures byA == GroupBy(xs, a)
    ensures byB == GroupBy(xs, b)
  {
    byA, byB := Groups([], map[]), Groups([], map[]);
    for i := 0 to |xs|
      invariant byA == GroupBy(xs[..i], a)
      invariant byB == GroupBy(xs[..i], b)
    {
      GroupPrefixStep(xs, i, a);
      GroupPrefixStep(xs, i, b);
      byA := Append(byA, a(xs[i]), xs[i]);
      byB := Append(byB, b(xs[i]), xs[i]);
    }
    PrefixAll(xs);
  }

  /** `for x in xs: d[key(x)].append(x)`, from an empty `defaultdict(list)`. */
  method GroupAll<T(==,!new), K(==,!new)>(xs: seq<T>, key: T -> K) returns (g: Groups<K, T>)
    ensures g == GroupBy(xs, key)
  {
    g := Groups([], map[]);
    for i := 0 to |xs|
      invariant g == GroupBy(xs[..i], key)
    {
      GroupPrefixStep(xs, i, key);
      g := Append(g, key(xs[i]), xs[i]);
    }
    PrefixAll(xs);
  }

  /** `dict.items()` of a `defaultdict(list)`, in key order. */
  function GroupItems<K, T>(g: Groups<K, T>): (items: seq<(K, seq<T>)>)
    requires forall k :: k in g.keys ==> k in g.lists
    ensures |items| == |g.keys|
    ensures forall i :: 0 <= i < |items| ==> items[i] == (g.keys[i], g.lists[g.keys[i]])
  {
    seq(|g.keys|, i requires 0 <= i < |g.keys| => (g.keys[i], g.lists[g.keys[i]]))
  }

  /** Every element lies in exactly one bucket of the grouping: the one under its own key. */
  lemma {:induction false} ExactlyOneBucket<T(!new), K(!new)>(xs: seq<T>, key: T -> K, x: T)
    requires x in xs
    ensures key(x) in GroupBy(xs, key).lists && x in GroupBy(xs, key).lists[key(x)]
    ensures forall k :: k in GroupBy(xs, key).lists && x in GroupBy(xs, key).lists[k] ==> k == key(x)
  {
    assert x in Bucket(xs, key, key(x));
  }

  /** ExactlyOneBucket for every element at once. */
  lemma EveryElementInOneBucket<T(!new), K(!new)>(xs: seq<T>, key: T -> K)
    ensures forall x :: x in xs ==>
      key(x) in GroupBy(xs, key).lists && x in GroupBy(xs, key).lists[key(x)] &&
      forall k :: k in GroupBy(xs, key).lists && x in GroupBy(xs, key).lists[k] ==> k == key(x)
  {
    forall x | x in xs
      ensures key(x) in GroupBy(xs, key).lists && x in GroupBy(xs, key).lists[key(x)]
      ensures forall k :: k in GroupBy(xs, key).lists && x in GroupBy(xs, key).lists[k] ==> k == key(x)
    {
      ExactlyOneBucket(xs, key, x);
    }
  }

  /** Total length of the buckets under the keys `ks`. */
  function SizeSum<T(==,!new), K(==,!new)>(xs: seq<T>, key: T -> K, ks: seq<K>): nat
  {
    if ks == [] then 0 else SizeSum(xs, key, ks[..|ks| - 1]) + |Bucket(xs, key, ks[|ks| - 1])|
  }

  lemma {:induction false} SizeSumSnoc<T(!new), K(!new)>(xs: seq<T>, x: T, key: T -> K, ks: seq<K>)
    requires NoDuplicates(ks)
    ensures SizeSum(xs + [x], key, ks) == SizeSum(xs, key, ks) + if key(x) in ks then 1 else 0
  {
    if ks != [] {
      var init, last := ks[..|ks| - 1], ks[|ks| - 1];
      assert ks == init + [last];
      SizeSumSnoc(xs, x, key, init);
      BucketSnoc(xs, x, key, last);
      assert key(x) == last ==> key(x) !in init;
    }
  }

  lemma {:induction false} SizeSumOfNothing<T(!new), K(!new)>(key: T -> K, ks: seq<K>)
    ensures SizeSum([], key, ks) == 0
  {
    if ks != [] {
      SizeSumOfNothing(key, ks[..|ks| - 1]);
    }
  }

  lemma SizeSumSnocKey<T(!new), K(!new)>(xs: seq<T>, key: T -> K, ks: seq<K>, k: K)
    ensures SizeSum(xs, key, ks + [k]) == SizeSum(xs, key, ks) + |Bucket(xs, key, k)|
  {
    assert (ks + [k])[..|ks|] == ks;
  }

  /** `len(d[k])` for a key that may be missing (a `defaultdict` would create it empty). */
  function SizeOf<K, T>(g: Groups<K, T>, k: K): nat
  {
    if k in g.lists then |g.lists[k]| else 0
  }

  /** The size of a key's list is the number of elements with that key. */
  lemma SizeOfGroup<T(!new), K(!new)>(xs: seq<T>, key: T -> K, k: K)
    ensures SizeOf(GroupBy(xs, key), k) == |Bucket(xs, key, k)|
  {
  }

  /** Buckets under distinct keys are disjoint, so together they hold at most `|xs|` elements. */
  lemma {:induction false} SizeSumBound<T(!new), K(!new)>(xs: seq<T>, key: T -> K, ks: seq<K>)
    requires NoDuplicates(ks)
    ensures SizeSum(xs, key, ks) <= |xs|
  {
    if xs == [] {
      SizeSumOfNothing(key, ks);
    } else {
      var init, x := xs[..|xs| - 1], xs[|xs| - 1];
      assert xs == init + [x];
      SizeSumBound(init, key, ks);
      SizeSumSnoc(init, x, key, ks);
    }
  }

  /** The bucket sizes of a grouping add up to the number of elements grouped. */
  lemma {:induction false} BucketSizesSum<T(!new), K(!new)>(xs: seq<T>, key: T -> K)
    ensures SizeSum(xs, key, Keys(xs, key)) == |xs|
  {
    if xs != [] {
      var init, x := xs[..|xs| - 1], xs[|xs| - 1];
      assert xs == init + [x];
      BucketSizesSum(init, key);
      KeysSnoc(init, x, key);
      var ks := Keys(init, key);
      SizeSumSnoc(init, x, key, ks);
      if key(x) !in ks {
        BucketSnoc(init, x, key, key(x));
        assert (ks + [key(x)])[..|ks|] == ks;
      }
    }
  }

  /** Sorted for `le`: every element is `le` every later one. */
  predicate SortedBy<T>(s: seq<T>, le: (T, T) -> bool) {
    forall i, j :: 0 <= i < j < |s| ==> le(s[i], s[j])
  }

  /** A bucket keeps the order of the sequence it is drawn from. */
  lemma {:induction false} BucketKeepsOrder<T(!new), K(!new)>(xs: seq<T>, key: T -> K, k: K, le: (T, T) -> bool)
    requires SortedBy(xs, le)
    ensures SortedBy(Bucket(xs, key, k), le)
  {
    if xs != [] {
      var init, x := xs[..|xs| - 1], xs[|xs| - 1];
      assert xs == init + [x];
      BucketKeepsOrder(init, key, k, le);
      var b := Bucket(init, key, k);
      forall y | y in b ensures le(y, x) {
        var i :| 0 <= i < |init| && init[i] == y;
        assert xs[i] == y;
      }
    }
  }

  /** A `defaultdict(int)` used as a counter: the keys in insertion order and the count under each. */
  datatype Tally<K> = Tally(keys: seq<K>, counts: map<K, nat>)

  /** `d[k] += 1`: a missing key starts out at 0 and goes last in the key order. */
  function Increment<K(!new)>(t: Tally<K>, k: K): (t': Tally<K>)
    ensures k in t'.counts && t'.counts[k] == (if k in t.counts then t.counts[k] else 0) + 1
    ensures forall j :: j != k ==> (j in t'.counts <==> j in t.counts)
    ensures forall j :: j != k && j in t.counts ==> t'.counts[j] == t.counts[j]
    ensures t'.keys == if k in t.counts then t.keys else t.keys + [k]
  {
    if k in t.counts then Tally(t.keys, t.counts[k := t.counts[k] + 1])
    else Tally(t.keys + [k], t.counts[k := 1])
  }

  /** The counter that `for x in xs: d[key(x)] += 1` leaves behind: each key's count is the size of its bucket. */
  function CountBy<T(==,!new), K(==,!new)>(xs: seq<T>, key: T -> K): (t: Tally<K>)
    ensures t.keys == Keys(xs, key)
    ensures forall k :: k in t.counts <==> k in t.keys
    ensures forall k :: k in t.counts ==> t.counts[k] == |Bucket(xs, key, k)|
  {
    Tally(Keys(xs, key), map k | k in Keys(xs, key) :: |Bucket(xs, key, k)|)
  }

  /** One more increment turns the counter of `xs` into the counter of `xs + [x]`. */
  lemma CountByStep<T(!new), K(!new)>(xs: seq<T>, x: T, key: T -> K)
    ensures CountBy(xs + [x], key) == Increment(CountBy(xs, key), key(x))
  {
    var t, u := CountBy(xs + [x], key), Increment(CountBy(xs, key), key(x));
    KeysSnoc(xs, x, key);
    assert t.keys == u.keys;
    forall k ensures (k in t.counts <==> k in u.counts) && (k in t.counts ==> t.counts[k] == u.counts[k]) {
      BucketSnoc(xs, x, key, k);
    }
    assert t.counts == u.counts;
  }

  /** Counting one more element of `xs` increments the count of its key. */
  lemma CountPrefixStep<T(!new), K(!new)>(xs: seq<T>, i: nat, key: T -> K)
    requires i < |xs|
    ensures CountBy(xs[..i + 1], key) == Increment(CountBy(xs[..i], key), key(xs[i]))
  {
    PrefixSnoc(xs, i);
    CountByStep(xs[..i], xs[i], key);
  }

  /** `for x in xs: d[key(x)] += 1`, from an empty `defaultdict(int)`. */
  method CountAll<T(==,!new), K(==,!new)>(xs: seq<T>, key: T -> K) returns (t: Tally<K>)
    ensures t == CountBy(xs, key)
  {
    t := Tally([], map[]);
    for i := 0 to |xs|
      invariant t == CountBy(xs[..i], key)
    {
      CountPrefixStep(xs, i, key);
      t := Increment(t, key(xs[i]));
    }
    PrefixAll(xs);
  }

  /** `dict.items()` of a counter, in key order. */
  function Items<K>(t: Tally<K>): (items: seq<(K, nat)>)
    requires forall k :: k in t.keys ==> k in t.counts
    ensures |items| == |t.keys|
    ensures forall i :: 0 <= i < |items| ==> items[i] == (t.keys[i], t.counts[t.keys[i]])
  {
    seq(|t.keys|, i requires 0 <= i < |t.keys| => (t.keys[i], t.counts[t.keys[i]]))
  }

  /** A sequence without repeats has as many distinct elements as it has elements. */
  lemma {:induction false} DistinctCardinality<T>(s: seq<T>)
    requires NoDuplicates(s)
    ensures |set x | x in s| == |s|
  {
    if s != [] {
      var init, x := s[..|s| - 1], s[|s| - 1];
      assert s == init + [x];
      DistinctCardinality(init);
      assert (set y | y in s) == (set y | y in init) + {x};
      assert x !in (set y | y in init);
    }
  }

  /** The number of distinct keys (`len(set(key(x) for x in xs))`) is the number of buckets, and at most `|xs|`. */
  lemma DistinctKeyCount<T(!new), K(!new)>(xs: seq<T>, key: T -> K)
    ensures |set x | x in xs :: key(x)| == |Keys(xs, key)| <= |xs|
  {
    var ks := Keys(xs, key);
    forall k ensures k in (set x | x in xs :: key(x)) <==> k in ks {
      if k in ks {
        assert Bucket(xs, key, k)[0] in Bucket(xs, key, k);
      }
    }
    assert (set x | x in xs :: key(x)) == (set k | k in ks);
    DistinctCardinality(ks);
  }

  /** `len(set(key(x) for x in xs))`: the number of buckets, at most `|xs|`, and at least one when `xs` is not empty. */
  function CountDistinctKeys<T(==,!new), K(==,!new)>(xs: seq<T>, key: T -> K): (n: nat)
    ensures n == |Keys(xs, key)|
    ensures n <= |xs|
    ensures xs != [] ==> n >= 1
  {
    DistinctKeyCount(xs, key);
    assert xs != [] ==> key(xs[0]) in (set x | x in xs :: key(x));
    |set x | x in xs :: key(x)|
  }

  /** `list(set(xs))`. Python leaves the order unspecified, and nothing here depends on it. */
  function Distinct<T(==,!new)>(xs: seq<T>): (r: seq<T>)
    ensures NoDuplicates(r)
    ensures forall x :: x in r <==> x in xs
    ensures |r| == |set x | x in xs|
  {
    var r := Keys(xs, Identity);
    forall x ensures x in r <==> x in xs {
      if x in xs {
        assert x in Bucket(xs, Identity, x);
      }
      if x in r {
        assert Bucket(xs, Identity, x)[0] in Bucket(xs, Identity, x);
      }
    }
    DistinctCardinality(r);
    assert (set x | x in xs) == (set x | x in r);
    r
  }

  function Identity<T>(x: T): T { x }

  /**
   * Where a stable sort puts `x` into the sorted `s`: after every element that
   * is `le` it, before the elements that are strictly greater.
   */
  function InsertBy<T>(s: seq<T>, x: T, le: (T, T) -> bool): (r: seq<T>)
    ensures |r| == |s| + 1
  {
    if s == [] || le(s[|s| - 1], x) then s + [x]
    else InsertBy(s[..|s| - 1], x, le) + [s[|s| - 1]]
  }

  /** `sorted(xs)` under the order `le`; Python's sort is stable, as insertion sort is. */
  function SortBy<T>(xs: seq<T>, le: (T, T) -> bool): (r: seq<T>)
    ensures |r| == |xs|
  {
    if xs == [] then [] else InsertBy(SortBy(xs[..|xs| - 1], le), xs[|xs| - 1], le)
  }

  /** `le` is total and transitive. */
  ghost predicate TotalPreorder<T(!new)>(le: (T, T) -> bool) {
    (forall a, b :: le(a, b) || le(b, a)) &&
    (forall a, b, c :: le(a, b) && le(b, c) ==> le(a, c))
  }

  lemma {:induction false} InsertByPermutes<T(!new)>(s: seq<T>, x: T, le: (T, T) -> bool)
    ensures multiset(InsertBy(s, x, le)) == multiset(s) + multiset{x}
  {
    if s != [] && !le(s[|s| - 1], x) {
      var init := s[..|s| - 1];
      assert s == init + [s[|s| - 1]];
      InsertByPermutes(init, x, le);
    }
  }

  /** Sorting only reorders: the result is a permutation of the input. */
  lemma {:induction false} SortByPermutes<T(!new)>(xs: seq<T>, le: (T, T) -> bool)
    ensures multiset(SortBy(xs, le)) == multiset(xs)
  {
    if xs != [] {
      var init := xs[..|xs| - 1];
      assert xs == init + [xs[|xs| - 1]];
      SortByPermutes(init, le);
      InsertByPermutes(SortBy(init, le), xs[|xs| - 1], le);
    }
  }

  lemma {:induction false} InsertBySorted<T(!new)>(s: seq<T>, x: T, le: (T, T) -> bool)
    requires TotalPreorder(le) && SortedBy(s, le)
    ensures SortedBy(InsertBy(s, x, le), le)
    ensures forall y :: y in InsertBy(s, x, le) ==> y == x || y in s
  {
    if s != [] {
      var init, last := s[..|s| - 1], s[|s| - 1];
      assert s == init + [last];
      if le(last, x) {
        forall i | 0 <= i < |s| ensures le(s[i], x) {
          if i < |s| - 1 { assert le(s[i], last); }
        }
      } else {
        assert SortedBy(init, le);
        InsertBySorted(init, x, le);
        var r := InsertBy(init, x, le);
        forall y | y in r ensures le(y, last) {
          if y != x {
            var i :| 0 <= i < |init| && init[i] == y;
            assert s[i] == y;
          }
        }
        forall i, j | 0 <= i < j < |r| + 1 ensures le((r + [last])[i], (r + [last])[j]) {
          if j == |r| { assert (r + [last])[i] in r; }
        }
      }
    }
  }

  /** Sorting under a total preorder yields a sorted sequence. */
  lemma {:induction false} SortBySorted<T(!new)>(xs: seq<T>, le: (T, T) -> bool)
    requires TotalPreorder(le)
    ensures SortedBy(SortBy(xs, le), le)
  {
    if xs != [] {
      SortBySorted(xs[..|xs| - 1], le);
      InsertBySorted(SortBy(xs[..|xs| - 1], le), xs[|xs| - 1], le);
    }
  }

  /** The order of `sorted(xs, key=w, reverse=True)`: larger weights first. */
  function HeavierFirst<T(!new)>(w: T -> int): (le: (T, T) -> bool)
    ensures forall a, b :: le(a, b) <==> w(a) >= w(b)
  {
    (a, b) => w(a) >= w(b)
  }

  /** `sorted(xs, key=w, reverse=True)`. */
  function SortDesc<T(!new)>(xs: seq<T>, w: T -> int): (r: seq<T>)
    ensures |r| == |xs|
  {
    SortBy(xs, HeavierFirst(w))
  }

  lemma HeavierFirstIsTotalPreorder<T(!new)>(w: T -> int)
    ensures TotalPreorder(HeavierFirst(w))
  {
  }

  lemma {:induction false} InsertDescStable<T(!new)>(s: seq<T>, x: T, w: T -> int, c: int)
    ensures Bucket(InsertBy(s, x, HeavierFirst(w)), w, c) == Bucket(s, w, c) + (if w(x) == c then [x] else [])
  {
    var le := HeavierFirst(w);
    if s == [] || le(s[|s| - 1], x) {
      BucketSnoc(s, x, w, c);
    } else {
      var init, last := s[..|s| - 1], s[|s| - 1];
      assert s == init + [last];
      InsertDescStable(init, x, w, c);
      BucketSnoc(InsertBy(init, x, le), last, w, c);
      BucketSnoc(init, last, w, c);
    }
  }

  /**
   * `sorted(..., reverse=True)` is stable: the elements of equal weight keep
   * their input order (for each weight, the bucket of the output is the bucket
   * of the input).
   */
  lemma {:induction false} SortDescStable<T(!new)>(xs: seq<T>, w: T -> int, c: int)
    ensures Bucket(SortDesc(xs, w), w, c) == Bucket(xs, w, c)
  {
    if xs != [] {
      var init, x := xs[..|xs| - 1], xs[|xs| - 1];
      assert xs == init + [x];
      SortDescStable(init, w, c);
      InsertDescStable(SortDesc(init, w), x, w, c);
      BucketSnoc(init, x, w, c);
    }
  }

  /** `sorted(xs, key=w, reverse=True)` is ordered by weight, heaviest first, and is a permutation of `xs`. */
  lemma SortDescCorrect<T(!new)>(xs: seq<T>, w: T -> int)
    ensures forall i, j :: 0 <= i < j < |SortDesc(xs, w)| ==> w(SortDesc(xs, w)[i]) >= w(SortDesc(xs, w)[j])
    ensures multiset(SortDesc(xs, w)) == multiset(xs)
  {
    HeavierFirstIsTotalPreorder(w);
    SortBySorted(xs, HeavierFirst(w));
    SortByPermutes(xs, HeavierFirst(w));
  }

  /** `sum(w(x) for x in xs)`. */
  function Total<T>(xs: seq<T>, w: T -> int): int {
    if xs == [] then 0 else Total(xs[..|xs| - 1], w) + w(xs[|xs| - 1])
  }

  lemma {:induction false} TotalAppend<T>(xs: seq<T>, ys: seq<T>, w: T -> int)
    ensures Total(xs + ys, w) == Total(xs, w) + Total(ys, w)
  {
    if ys == [] {
      assert xs + ys == xs;
    } else {
      var init, y := ys[..|ys| - 1], ys[|ys| - 1];
      assert xs + ys == (xs + init) + [y];
      assert (xs + ys)[..|xs + ys| - 1] == xs + init;
      TotalAppend(xs, init, w);
    }
  }

  lemma {:induction false} TotalInsertBy<T>(s: seq<T>, x: T, le: (T, T) -> bool, w: T -> int)
    ensures Total(InsertBy(s, x, le), w) == Total(s, w) + w(x)
  {
    if s == [] || le(s[|s| - 1], x) {
      assert (s + [x])[..|s|] == s;
    } else {
      var init, last := s[..|s| - 1], s[|s| - 1];
      TotalInsertBy(init, x, le, w);
      var r := InsertBy(init, x, le) + [last];
      assert r[..|r| - 1] == InsertBy(init, x, le);
    }
  }

  /** Sorting does not change a total. */
  lemma {:induction false} TotalSortBy<T>(xs: seq<T>, le: (T, T) -> bool, w: T -> int)
    ensures Total(SortBy(xs, le), w) == Total(xs, w)
  {
    if xs != [] {
      TotalSortBy(xs[..|xs| - 1], le, w);
      TotalInsertBy(SortBy(xs[..|xs| - 1], le), xs[|xs| - 1], le, w);
    }
  }

  /**
   * A sequence of entries, one per key of `ks`, each weighing as much as
   * that key's bucket is long, totals the bucket sizes.
   */
  lemma {:induction false} TotalOverKeys<T(!new), K(!new), E>(xs: seq<T>, key: T -> K, ks: seq<K>, entries: seq<E>, w: E -> int)
    requires |entries| == |ks|
    requires forall i :: 0 <= i < |ks| ==> w(entries[i]) == |Bucket(xs, key, ks[i])|
    ensures Total(entries, w) == SizeSum(xs, key, ks)
  {
    if ks != [] {
      TotalOverKeys(xs, key, ks[..|ks| - 1], entries[..|entries| - 1], w);
    }
  }

  /** The counts of a counter add up to the number of elements counted. */
  lemma CountsAddUp<T(!new), K(!new)>(xs: seq<T>, key: T -> K, w: ((K, nat)) -> int)
    requires forall p: (K, nat) :: w(p) == p.1
    ensures Total(Items(CountBy(xs, key)), w) == |xs|
  {
    var t := CountBy(xs, key);
    TotalOverKeys(xs, key, t.keys, Items(t), w);
    BucketSizesSum(xs, key);
  }

  /** The lists of a grouping, together, are as long as the sequence grouped. */
  lemma GroupSizesAddUp<T(!new), K(!new)>(xs: seq<T>, key: T -> K, w: ((K, seq<T>)) -> int)
    requires forall p: (K, seq<T>) :: w(p) == |p.1|
    ensures Total(GroupItems(GroupBy(xs, key)), w) == |xs|
  {
    var g := GroupBy(xs, key);
    TotalOverKeys(xs, key, g.keys, GroupItems(g), w);
    BucketSizesSum(xs, key);
  }

  /**
   * `sorted(xs, key=w, reverse=True)` keeps ties in input order and loses
   * nothing: heaviest first, a permutation, the same entries under each weight
   * in the same order, the same total weight.
   */
  lemma RankedCorrect<T(!new)>(xs: seq<T>, w: T -> int)
    ensures forall i, j :: 0 <= i < j < |SortDesc(xs, w)| ==> w(SortDesc(xs, w)[i]) >= w(SortDesc(xs, w)[j])
    ensures multiset(SortDesc(xs, w)) == multiset(xs)
    ensures forall c :: Bucket(SortDesc(xs, w), w, c) == Bucket(xs, w, c)
    ensures Total(SortDesc(xs, w), w) == Total(xs, w)
  {
    SortDescCorrect(xs, w);
    forall c ensures Bucket(SortDesc(xs, w), w, c) == Bucket(xs, w, c) {
      SortDescStable(xs, w, c);
    }
    TotalSortBy(xs, HeavierFirst(w), w);
  }

  /**
   * A counter's items, in any order that permutes them: each key once with
   * the size of its bucket, and every element's key present.
   */
  lemma CountEntries<T(!new), K(!new)>(xs: seq<T>, key: T -> K, r: seq<(K, nat)>)
    requires multiset(r) == multiset(Items(CountBy(xs, key)))
    ensures forall i :: 0 <= i < |r| ==> r[i].1 == |Bucket(xs, key, r[i].0)| >= 1
    ensures forall x :: x in xs ==> exists i :: 0 <= i < |r| && r[i].0 == key(x)
    ensures |r| == CountDistinctKeys(xs, key)
  {
    var items := Items(CountBy(xs, key));
    forall i | 0 <= i < |r| ensures r[i].1 == |Bucket(xs, key, r[i].0)| >= 1 {
      assert r[i] in multiset(items);
      var k :| 0 <= k < |items| && items[k] == r[i];
    }
    forall x | x in xs ensures exists i :: 0 <= i < |r| && r[i].0 == key(x) {
      assert x in Bucket(xs, key, key(x));
      var k :| 0 <= k < |items| && items[k].0 == key(x);
      assert items[k] in multiset(r);
      var i :| 0 <= i < |r| && r[i] == items[k];
    }
    assert |r| == |multiset(r)| == |items|;
  }

  /**
   * A grouping's lists, in any order that permutes them: each the non-empty
   * bucket of its key, and every element's key present.
   */
  lemma GroupEntries<T(!new), K(!new)>(xs: seq<T>, key: T -> K, r: seq<(K, seq<T>)>)
    requires multiset(r) == multiset(GroupItems(GroupBy(xs, key)))
    ensures forall i :: 0 <= i < |r| ==> r[i].1 == Bucket(xs, key, r[i].0) != []
    ensures forall x :: x in xs ==> exists i :: 0 <= i < |r| && r[i].0 == key(x)
    ensures |r| == CountDistinctKeys(xs, key)
  {
    var items := GroupItems(GroupBy(xs, key));
    forall i | 0 <= i < |r| ensures r[i].1 == Bucket(xs, key, r[i].0) != [] {
      assert r[i] in multiset(items);
      var k :| 0 <= k < |items| && items[k] == r[i];
    }
    forall x | x in xs ensures exists i :: 0 <= i < |r| && r[i].0 == key(x) {
      assert x in Bucket(xs, key, key(x));
      var k :| 0 <= k < |items| && items[k].0 == key(x);
      assert items[k] in multiset(r);
      var i :| 0 <= i < |r| && r[i] == items[k];
    }
    assert |r| == |multiset(r)| == |items|;
  }

  /** Python's `<=` on `str`: lexicographic comparison by code point. */
  predicate StrLe(a: string, b: string) {
    a == [] || (b != [] && (a[0] < b[0] || (a[0] == b[0] && StrLe(a[1..], b[1..]))))
  }

  lemma {:induction false} StrLeTotal(a: string, b: string)
    ensures StrLe(a, b) || StrLe(b, a)
  {
    if a != [] && b != [] && a[0] == b[0] {
      StrLeTotal(a[1..], b[1..]);
    }
  }

  lemma {:induction false} StrLeTransitive(a: string, b: string, c: string)
    requires StrLe(a, b) && StrLe(b, c)
    ensures StrLe(a, c)
  {
    if a != [] && a[0] == b[0] && b[0] == c[0] {
      StrLeTransitive(a[1..], b[1..], c[1..]);
    }
  }

  /** `sorted(urls)` on strings: ascending and a permutation of the input. */
  lemma SortStringsCorrect(xs: seq<string>)
    ensures SortedBy(SortBy(xs, StrLe), StrLe)
    ensures multiset(SortBy(xs, StrLe)) == multiset(xs)
  {
    forall a, b ensures StrLe(a, b) || StrLe(b, a) {
      StrLeTotal(a, b);
    }
    forall a, b, c | StrLe(a, b) && StrLe(b, c) ensures StrLe(a, c) {
      StrLeTransitive(a, b, c);
    }
    SortBySorted(xs, StrLe);
    SortByPermutes(xs, StrLe);
  }

  /**
   * Grouping `sorted(xs)`: every list is in ascending order, every element of
   * `xs` lies in exactly one list, and the lists together are as long as `xs`.
   */
  lemma GroupSortedStrings<K(!new)>(xs: seq<string>, key: string -> K)
    ensures forall k :: k in GroupBy(SortBy(xs, StrLe), key).lists ==> SortedBy(GroupBy(SortBy(xs, StrLe), key).lists[k], StrLe)
    ensures forall x :: x in xs ==>
      key(x) in GroupBy(SortBy(xs, StrLe), key).lists && x in GroupBy(SortBy(xs, StrLe), key).lists[key(x)] &&
      forall k :: k in GroupBy(SortBy(xs, StrLe), key).lists && x in GroupBy(SortBy(xs, StrLe), key).lists[k] ==> k == key(x)
    ensures SizeSum(SortBy(xs, StrLe), key, GroupBy(SortBy(xs, StrLe), key).keys) == |xs|
  {
    var sorted := SortBy(xs, StrLe);
    var g := GroupBy(sorted, key);
    SortStringsCorrect(xs);
    forall k | k in g.lists ensures SortedBy(g.lists[k], StrLe) {
      BucketKeepsOrder(sorted, key, k, StrLe);
    }
    assert forall x :: x in xs <==> x in sorted by {
      assert forall x :: x in xs <==> x in multiset(sorted);
    }
    EveryElementInOneBucket(sorted, key);
    BucketSizesSum(sorted, key);
  }
}

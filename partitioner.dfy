/**
 * The coordinator's shard arithmetic: how many shards to run, how many shards
 * each cluster gets, and which shard IDs each cluster receives.
 *
 * JavaScript's floating-point `Math.ceil(s * (1000 / g))` and `Math.round(s / c)`
 * are modelled by the exact integer formulas they approximate.
 */
module Partitioner {
  import opened Wrappers

  type Pos = n: nat | n >= 1 witness 1

  function Min(a: int, b: int): int { if a <= b then a else b }

  lemma MulLe(a: int, b: int, k: nat)
    requires a <= b
    ensures a * k <= b * k
  {
  }

  lemma DivBounds(x: nat, d: Pos)
    ensures d * (x / d) <= x < d * (x / d) + d
  {
  }

  lemma MulSucc(i: int, n: int)
    ensures (i + 1) * n == i * n + n
  {
  }

  /** At most one quotient fits a dividend. */
  lemma DivUnique(x: int, d: Pos, r: int, q: int)
    requires d * r <= x < d * r + d
    requires d * q <= x < d * q + d
    ensures r == q
  {
    if r < q {
      MulLe(r + 1, q, d);
      MulSucc(r, d);
    } else if q < r {
      MulLe(q + 1, r, d);
      MulSucc(q, d);
    }
  }

  lemma MulLtCancel(a: int, b: int, k: Pos)
    requires a * k < b * k
    ensures a < b
  {
    if a >= b { MulLe(b, a, k); }
  }

  // ---------------------------------------------------------------------------
  // Shard count from the recommended count and the density target
  // ---------------------------------------------------------------------------

  /** `Math.ceil(shards * (1000 / guildsPerShard))`: the least count whose
      `guildsPerShard`-sized shards hold `shards * 1000` guilds. */
  function CalcShards(shards: nat, guildsPerShard: Pos): (r: nat)
    ensures shards * 1000 <= r * guildsPerShard < shards * 1000 + guildsPerShard
  {
    var x := shards * 1000 + guildsPerShard - 1;
    assert x == (x / guildsPerShard) * guildsPerShard + x % guildsPerShard;
    x / guildsPerShard
  }

  /** The default density target leaves the recommended count unchanged. */
  lemma CalcShardsDefaultDensity(shards: nat)
    ensures CalcShards(shards, 1000) == shards
  {
    var r := CalcShards(shards, 1000);
    MulLtCancel(r, shards + 1, 1000);
    MulLtCancel(shards - 1, r, 1000);
  }

  /** Halving the density target doubles the shard count. */
  lemma CalcShardsHalfDensity()
    ensures CalcShards(10, 1000) == 10 && CalcShards(10, 500) == 20
  {
    CalcShardsDefaultDensity(10);
    var r := CalcShards(10, 500);
    MulLtCancel(r, 21, 500);
    MulLtCancel(19, r, 500);
  }

  lemma CalcShardsMonotoneInShards(s1: nat, s2: nat, g: Pos)
    requires s1 <= s2
    ensures CalcShards(s1, g) <= CalcShards(s2, g)
  {
    var r1, r2 := CalcShards(s1, g), CalcShards(s2, g);
    MulLe(s1, s2, 1000);
    MulLtCancel(r1 as int - 1, r2, g);
  }

  lemma CalcShardsAntitoneInDensity(s: nat, g1: Pos, g2: Pos)
    requires g1 <= g2
    ensures CalcShards(s, g2) <= CalcShards(s, g1)
  {
    var r1, r2 := CalcShards(s, g1), CalcShards(s, g2);
    assert r1 * g1 <= r1 * g2 by { MulLe(g1, g2, r1); }
    MulLtCancel(r2 as int - 1, r1, g2);
  }

  // ---------------------------------------------------------------------------
  // Cluster-count clamp and shards per cluster
  // ---------------------------------------------------------------------------

  /** Never more clusters than shards; a count that already fits is kept. */
  function ClampClusters(shardCount: nat, clusterCount: nat): (r: nat)
    ensures r <= shardCount && r <= clusterCount
    ensures r == clusterCount || r == shardCount
    ensures clusterCount <= shardCount <==> r == clusterCount
  {
    if shardCount < clusterCount then shardCount else clusterCount
  }

  /** `Math.round(shardCount / clusterCount)`: the integer nearest to the
      quotient, halves rounded up. */
  function ShardsPerCluster(shardCount: nat, clusterCount: Pos): (r: nat)
    ensures 2 * clusterCount * r <= 2 * shardCount + clusterCount
    ensures 2 * shardCount + clusterCount < 2 * clusterCount * r + 2 * clusterCount
    ensures clusterCount <= shardCount ==> 1 <= r <= shardCount
  {
    RoundedQuotient(2 * shardCount + clusterCount, clusterCount, shardCount);
    (2 * shardCount + clusterCount) / (2 * clusterCount)
  }

  lemma RoundedQuotient(x: nat, c: Pos, s: nat)
    requires x == 2 * s + c
    ensures 2 * c * (x / (2 * c)) <= x < 2 * c * (x / (2 * c)) + 2 * c
    ensures c <= s ==> 1 <= x / (2 * c) <= s
  {
    var r := x / (2 * c);
    DivBounds(x, 2 * c);
    if c <= s { RoundedBounds(s, c, r); }
  }

  /** A quotient rounded to the nearest integer lies in `[1, s]` when `1 <= c <= s`. */
  lemma RoundedBounds(s: nat, c: Pos, r: int)
    requires 2 * c * r <= 2 * s + c < 2 * c * r + 2 * c
    requires c <= s
    ensures 1 <= r <= s
  {
    if r <= 0 { MulLe(r, 0, 2 * c); }
    if r > s {
      MulLe(s + 1, r, 2 * c);
      MulLe(1, c, s);
    }
  }

  // ---------------------------------------------------------------------------
  // Chunking into consecutive slices
  // ---------------------------------------------------------------------------

  /** Concatenation of a sequence of sequences. */
  function Concat<T>(ss: seq<seq<T>>): seq<T>
  {
    if ss == [] then [] else ss[0] + Concat(ss[1..])
  }

  lemma {:induction false} ConcatAppend<T>(a: seq<seq<T>>, b: seq<seq<T>>)
    ensures Concat(a + b) == Concat(a) + Concat(b)
  {
    if a != [] {
      assert (a + b)[1..] == a[1..] + b;
      ConcatAppend(a[1..], b);
    } else {
      assert a + b == b;
    }
  }

  /** `Util.chunk(xs, n)`: consecutive slices of `n` elements, the last one
      possibly shorter. */
  function Chunk<T>(xs: seq<T>, n: Pos): (t: seq<seq<T>>)
    ensures t == [] <==> xs == []
    ensures t != [] ==> t[0] == xs[..Min(n, |xs|)]
    decreases |xs|
  {
    if xs == [] then []
    else if |xs| <= n then [xs]
    else [xs[..n]] + Chunk(xs[n..], n)
  }

  /** `i * n` computed by repeated addition, so that proofs about chunk
      offsets stay within linear arithmetic. */
  function Offset(i: nat, n: nat): nat
  {
    if i == 0 then 0 else Offset(i - 1, n) + n
  }

  lemma {:induction false} OffsetIsProduct(i: nat, n: nat)
    ensures Offset(i, n) == i * n
  {
    if i > 0 {
      OffsetIsProduct(i - 1, n);
      MulSucc(i - 1, n);
    }
  }

  lemma {:induction false} OffsetMonotone(i: nat, j: nat, n: nat)
    requires i <= j
    ensures Offset(i, n) <= Offset(j, n)
    decreases j
  {
    if i < j { OffsetMonotone(i, j - 1, n); }
  }

  /** Chunk `i` is the slice starting at offset `i * n`. */
  lemma {:induction false} ChunkAt<T>(xs: seq<T>, n: Pos, i: nat)
    requires i < |Chunk(xs, n)|
    ensures Offset(i, n) < |xs|
    ensures Chunk(xs, n)[i] == xs[Offset(i, n) .. Min(Offset(i + 1, n), |xs|)]
    decreases |xs|
  {
    if i > 0 {
      var rest := Chunk(xs[n..], n);
      assert Chunk(xs, n) == [xs[..n]] + rest;
      ChunkAt(xs[n..], n, i - 1);
      var lo, hi := Offset(i - 1, n), Min(Offset(i, n), |xs| - n);
      SliceOfSlice(xs, n, lo, hi);
    }
  }

  lemma SliceOfSlice<T>(xs: seq<T>, a: nat, lo: nat, hi: nat)
    requires a <= |xs| && lo <= hi <= |xs| - a
    ensures xs[a..][lo..hi] == xs[a + lo..a + hi]
  {
    forall k | 0 <= k < hi - lo ensures xs[a..][lo..hi][k] == xs[a + lo..a + hi][k] { }
  }

  /** The first `k` chunks concatenate to the first `k * n` elements. */
  lemma {:induction false} ChunkPrefix<T>(xs: seq<T>, n: Pos, k: nat)
    requires k <= |Chunk(xs, n)|
    ensures Concat(Chunk(xs, n)[..k]) == xs[..Min(Offset(k, n), |xs|)]
  {
    var t := Chunk(xs, n);
    if k > 0 {
      ChunkPrefix(xs, n, k - 1);
      ChunkAt(xs, n, k - 1);
      assert t[..k] == t[..k - 1] + [t[k - 1]];
      ConcatAppend(t[..k - 1], [t[k - 1]]);
      assert Concat([t[k - 1]]) == t[k - 1];
    } else {
      assert t[..0] == [];
    }
  }

  /** `Util.chunk` yields consecutive slices of exactly `n` elements, except
      that the last may be shorter, and together they are `xs`. */
  lemma ChunkSlices<T>(xs: seq<T>, n: Pos)
    ensures var t := Chunk(xs, n);
      && Concat(t) == xs
      && (forall i :: 0 <= i < |t| ==> 1 <= |t[i]| <= n)
      && (forall i :: 0 <= i < |t| - 1 ==> |t[i]| == n)
  {
    var t := Chunk(xs, n);
    ChunkPrefix(xs, n, |t|);
    ChunkCount(xs, n);
    assert t[..|t|] == t;
    forall i | 0 <= i < |t| ensures 1 <= |t[i]| <= n && (i < |t| - 1 ==> |t[i]| == n) {
      ChunkAt(xs, n, i);
      if i < |t| - 1 { ChunkAt(xs, n, i + 1); }
    }
  }

  /** Enough chunks to hold `xs`. */
  lemma {:induction false} ChunkCount<T>(xs: seq<T>, n: Pos)
    ensures |xs| <= Offset(|Chunk(xs, n)|, n)
    decreases |xs|
  {
    if xs != [] {
      var k := Min(n, |xs|);
      ChunkCount(xs[k..], n);
      assert |Chunk(xs, n)| == 1 + |Chunk(xs[k..], n)|;
    }
  }

  /** Index `i` names a chunk exactly when offset `i * n` is inside `xs`. */
  lemma ChunkIndexValid<T>(xs: seq<T>, n: Pos, i: nat)
    ensures i < |Chunk(xs, n)| <==> Offset(i, n) < |xs|
  {
    var t := Chunk(xs, n);
    if i < |t| {
      ChunkAt(xs, n, i);
    } else {
      ChunkCount(xs, n);
      OffsetMonotone(|t|, i, n);
    }
  }

  // ---------------------------------------------------------------------------
  // Shard IDs and the partition as written
  // ---------------------------------------------------------------------------

  /** `[lo, lo + 1, ..., hi - 1]`: `hi - lo` ascending IDs, all in `[lo, hi)`. */
  function Range(lo: nat, hi: nat): (r: seq<nat>)
    requires lo <= hi
    ensures |r| == hi - lo
    ensures forall i :: 0 <= i < |r| ==> lo <= r[i] < hi
    ensures forall i, j :: 0 <= i < j < |r| ==> r[i] < r[j]
  {
    seq(hi - lo, i requires 0 <= i < hi - lo => lo + i)
  }

  lemma RangeSlice(hi: nat, a: nat, b: nat)
    requires a <= b <= hi
    ensures Range(0, hi)[a..b] == Range(a, b)
  {
  }

  lemma RangeMember(lo: nat, hi: nat, x: int)
    requires lo <= hi
    ensures x in Range(lo, hi) <==> lo <= x < hi
  {
    if lo <= x < hi {
      assert Range(lo, hi)[x - lo] == x;
    }
  }

  /** `Util.chunk([...Array(shardCount).keys()], shardsPerCluster)`. */
  function ShardTuple(shardCount: nat, clusterCount: Pos): (t: seq<seq<nat>>)
    requires clusterCount <= shardCount
    ensures Concat(t) == Range(0, shardCount)
    ensures forall i :: 0 <= i < |t| ==> 1 <= |t[i]| <= ShardsPerCluster(shardCount, clusterCount)
  {
    ChunkSlices(Range(0, shardCount), ShardsPerCluster(shardCount, clusterCount));
    Chunk(Range(0, shardCount), ShardsPerCluster(shardCount, clusterCount))
  }

  /** What `shardTuple.shift()` hands to each cluster index in turn: the next
      chunk, or `undefined` (`None`) once the chunks are used up. */
  function AsWrittenGroups(shardCount: nat, clusterCount: Pos): (g: seq<Option<seq<nat>>>)
    requires clusterCount <= shardCount
    ensures |g| == clusterCount
    ensures g[0] == Some(Range(0, Min(ShardsPerCluster(shardCount, clusterCount), shardCount)))
  {
    var spc := ShardsPerCluster(shardCount, clusterCount);
    RangeSlice(shardCount, 0, Min(spc, shardCount));
    Shifted(ShardTuple(shardCount, clusterCount), clusterCount)
  }

  /** `shift()` called `count` times on `tuple`: its elements in order, then
      `undefined` (`None`) once it is empty. */
  function Shifted<T>(tuple: seq<T>, count: nat): (g: seq<Option<T>>)
    ensures |g| == count
  {
    seq(count, i requires 0 <= i < count => if i < |tuple| then Some(tuple[i]) else None)
  }

  /** The shards of every cluster that got a group, in cluster order. */
  function Flatten(g: seq<Option<seq<nat>>>): seq<nat>
  {
    if g == [] then [] else (if g[0].Some? then g[0].value else []) + Flatten(g[1..])
  }

  lemma {:induction false} FlattenAppend(a: seq<Option<seq<nat>>>, b: seq<Option<seq<nat>>>)
    ensures Flatten(a + b) == Flatten(a) + Flatten(b)
  {
    if a != [] {
      assert (a + b)[1..] == a[1..] + b;
      FlattenAppend(a[1..], b);
    } else {
      assert a + b == b;
    }
  }

  /** Every shard ID below `shardCount` handed out exactly once, in ascending
      order across the clusters taken in ID order. */
  ghost predicate IsPartition(g: seq<Option<seq<nat>>>, shardCount: nat)
  {
    Flatten(g) == Range(0, shardCount)
  }

  ghost predicate AllAssigned(g: seq<Option<seq<nat>>>)
  {
    forall i :: 0 <= i < |g| ==> g[i].Some?
  }

  /** Cluster `i` gets a group exactly when `i * spc < shardCount`, and that
      group is the contiguous range `[i * spc, min((i + 1) * spc, shardCount))`. */
  lemma AsWrittenGroupAt(shardCount: nat, clusterCount: Pos, i: nat)
    requires clusterCount <= shardCount && i < clusterCount
    ensures var g, spc := AsWrittenGroups(shardCount, clusterCount), ShardsPerCluster(shardCount, clusterCount);
      && (g[i].Some? <==> i * spc < shardCount)
      && (g[i].Some? ==> g[i].value == Range(i * spc, Min((i + 1) * spc, shardCount)))
      && (g[i].Some? ==> forall x :: x in g[i].value ==> i * spc <= x < shardCount)
  {
    var spc := ShardsPerCluster(shardCount, clusterCount);
    var xs := Range(0, shardCount);
    var t := ShardTuple(shardCount, clusterCount);
    var g := AsWrittenGroups(shardCount, clusterCount);
    OffsetIsProduct(i, spc);
    OffsetIsProduct(i + 1, spc);
    ChunkIndexValid(xs, spc, i);
    assert g[i] == if i < |t| then Some(t[i]) else None;
    if i < |t| {
      ChunkAt(xs, spc, i);
      var lo, hi := i * spc, Min((i + 1) * spc, shardCount);
      assert t[i] == xs[lo..hi];
      RangeSlice(shardCount, lo, hi);
      forall x | x in t[i] ensures lo <= x < shardCount {
        RangeMember(lo, hi, x);
      }
    }
  }

  /** No shard ID is handed to two clusters. */
  lemma AsWrittenDisjoint(shardCount: nat, clusterCount: Pos, i: nat, j: nat)
    requires clusterCount <= shardCount && i < j < clusterCount
    requires j * ShardsPerCluster(shardCount, clusterCount) < shardCount
    ensures var g := AsWrittenGroups(shardCount, clusterCount);
      && g[i].Some? && g[j].Some?
      && forall x :: x in g[i].value ==> x !in g[j].value
  {
    var g, spc := AsWrittenGroups(shardCount, clusterCount), ShardsPerCluster(shardCount, clusterCount);
    AsWrittenGroupAt(shardCount, clusterCount, i);
    AsWrittenGroupAt(shardCount, clusterCount, j);
    MulLe(i + 1, j, spc);
    forall x | x in g[i].value ensures x !in g[j].value {
      RangeMember(i * spc, Min((i + 1) * spc, shardCount), x);
    }
  }

  /** The first `k` clusters hold the chunks they were handed, in order. */
  lemma {:induction false} AsWrittenFlattenPrefix(shardCount: nat, clusterCount: Pos, k: nat)
    requires clusterCount <= shardCount && k <= clusterCount
    ensures var t := ShardTuple(shardCount, clusterCount);
      Flatten(AsWrittenGroups(shardCount, clusterCount)[..k]) == Concat(t[..Min(k, |t|)])
  {
    var g, t := AsWrittenGroups(shardCount, clusterCount), ShardTuple(shardCount, clusterCount);
    if k == 0 {
      assert g[..0] == [] && t[..0] == [];
    } else {
      AsWrittenFlattenPrefix(shardCount, clusterCount, k - 1);
      assert g[..k] == g[..k - 1] + [g[k - 1]];
      FlattenAppend(g[..k - 1], [g[k - 1]]);
      if k - 1 < |t| {
        assert t[..k] == t[..k - 1] + [t[k - 1]];
        ConcatAppend(t[..k - 1], [t[k - 1]]);
        assert Concat([t[k - 1]]) == t[k - 1];
        assert Flatten([g[k - 1]]) == t[k - 1];
      } else {
        assert Flatten([g[k - 1]]) == [];
      }
    }
  }

  /** Taken in cluster order, the assigned shards are exactly
      `[0, min(clusterCount * spc, shardCount))`. */
  lemma AsWrittenFlatten(shardCount: nat, clusterCount: Pos)
    requires clusterCount <= shardCount
    ensures var spc := ShardsPerCluster(shardCount, clusterCount);
      Flatten(AsWrittenGroups(shardCount, clusterCount)) == Range(0, Min(clusterCount * spc, shardCount))
  {
    var g, t := AsWrittenGroups(shardCount, clusterCount), ShardTuple(shardCount, clusterCount);
    var spc := ShardsPerCluster(shardCount, clusterCount);
    var xs := Range(0, shardCount);
    AsWrittenFlattenPrefix(shardCount, clusterCount, clusterCount);
    assert g[..clusterCount] == g;
    var m := Min(clusterCount, |t|);
    ChunkPrefix(xs, spc, m);
    OffsetIsProduct(clusterCount, spc);
    if |t| < clusterCount {
      ChunkCount(xs, spc);
      OffsetMonotone(|t|, clusterCount, spc);
    }
    var e := Min(clusterCount * spc, shardCount);
    assert Min(Offset(m, spc), shardCount) == e;
    RangeSlice(shardCount, 0, e);
  }

  /** Every shard is assigned exactly when `clusterCount` chunks of `spc`
      reach `shardCount`. */
  lemma AsWrittenCoversIff(shardCount: nat, clusterCount: Pos)
    requires clusterCount <= shardCount
    ensures IsPartition(AsWrittenGroups(shardCount, clusterCount), shardCount)
        <==> shardCount <= clusterCount * ShardsPerCluster(shardCount, clusterCount)
  {
    var spc := ShardsPerCluster(shardCount, clusterCount);
    AsWrittenFlatten(shardCount, clusterCount);
    var e := Min(clusterCount * spc, shardCount);
    assert |Range(0, e)| == e && |Range(0, shardCount)| == shardCount;
  }

  /** The shards from `clusterCount * spc` on are handed to no cluster. */
  lemma AsWrittenDropsTail(shardCount: nat, clusterCount: Pos, x: nat)
    requires clusterCount <= shardCount
    requires clusterCount * ShardsPerCluster(shardCount, clusterCount) <= x < shardCount
    ensures x !in Flatten(AsWrittenGroups(shardCount, clusterCount))
    ensures forall i :: 0 <= i < clusterCount && AsWrittenGroups(shardCount, clusterCount)[i].Some?
                        ==> x !in AsWrittenGroups(shardCount, clusterCount)[i].value
  {
    var g, spc := AsWrittenGroups(shardCount, clusterCount), ShardsPerCluster(shardCount, clusterCount);
    forall i | 0 <= i < clusterCount && g[i].Some? ensures x !in g[i].value {
      AsWrittenGroupAt(shardCount, clusterCount, i);
      MulLe(i + 1, clusterCount, spc);
    }
    AsWrittenFlatten(shardCount, clusterCount);
    RangeMember(0, Min(clusterCount * spc, shardCount), x);
  }

  /** Every cluster gets a group (none is handed `undefined`) exactly when
      `(clusterCount - 1) * spc < shardCount`. */
  lemma AsWrittenAllAssignedIff(shardCount: nat, clusterCount: Pos)
    requires clusterCount <= shardCount
    ensures AllAssigned(AsWrittenGroups(shardCount, clusterCount))
        <==> (clusterCount - 1) * ShardsPerCluster(shardCount, clusterCount) < shardCount
  {
    var g, spc := AsWrittenGroups(shardCount, clusterCount), ShardsPerCluster(shardCount, clusterCount);
    AsWrittenGroupAt(shardCount, clusterCount, clusterCount - 1);
    if (clusterCount - 1) * spc < shardCount {
      forall i | 0 <= i < clusterCount ensures g[i].Some? {
        AsWrittenGroupAt(shardCount, clusterCount, i);
        MulLe(i, clusterCount - 1, spc);
      }
    }
  }

  /** The partition is a full disjoint cover with a group for every cluster
      exactly when the chunk count equals the cluster count. */
  lemma AsWrittenCorrectIff(shardCount: nat, clusterCount: Pos)
    requires clusterCount <= shardCount
    ensures var g := AsWrittenGroups(shardCount, clusterCount);
      IsPartition(g, shardCount) && AllAssigned(g) <==> |ShardTuple(shardCount, clusterCount)| == clusterCount
  {
    var spc := ShardsPerCluster(shardCount, clusterCount);
    var xs := Range(0, shardCount);
    AsWrittenCoversIff(shardCount, clusterCount);
    AsWrittenAllAssignedIff(shardCount, clusterCount);
    ChunkIndexValid(xs, spc, clusterCount - 1);
    ChunkIndexValid(xs, spc, clusterCount);
    OffsetIsProduct(clusterCount - 1, spc);
    OffsetIsProduct(clusterCount, spc);
  }

  /** 13 shards over 4 clusters: `round(13 / 4) = 3`, five chunks, and shard 12
      is never handed out. */
  lemma ThirteenShardsFourClusters()
    ensures ShardsPerCluster(13, 4) == 3
    ensures |ShardTuple(13, 4)| == 5
    ensures AllAssigned(AsWrittenGroups(13, 4))
    ensures 12 !in Flatten(AsWrittenGroups(13, 4))
    ensures !IsPartition(AsWrittenGroups(13, 4), 13)
  {
    var spc := ShardsPerCluster(13, 4);
    assert spc == 3 by { MulLtCancel(spc, 4, 8); MulLtCancel(2, spc, 8); }
    ChunkIndexValid(Range(0, 13), 3, 4);
    ChunkIndexValid(Range(0, 13), 3, 5);
    assert Offset(4, 3) == 12 && Offset(5, 3) == 15;
    AsWrittenAllAssignedIff(13, 4);
    AsWrittenDropsTail(13, 4, 12);
    AsWrittenCoversIff(13, 4);
  }

  /** 6 shards over 4 clusters: `round(6 / 4) = 2`, three chunks, and cluster 3
      is handed `undefined`. */
  lemma SixShardsFourClusters()
    ensures ShardsPerCluster(6, 4) == 2
    ensures |ShardTuple(6, 4)| == 3
    ensures AsWrittenGroups(6, 4)[3] == None
    ensures IsPartition(AsWrittenGroups(6, 4), 6)
  {
    var spc := ShardsPerCluster(6, 4);
    assert spc == 2 by { MulLtCancel(spc, 3, 8); MulLtCancel(1, spc, 8); }
    ChunkIndexValid(Range(0, 6), 2, 2);
    ChunkIndexValid(Range(0, 6), 2, 3);
    assert Offset(2, 2) == 4 && Offset(3, 2) == 6;
    AsWrittenCoversIff(6, 4);
  }

  // ---------------------------------------------------------------------------
  // Corrected partition: cap the groups at the cluster count
  // ---------------------------------------------------------------------------

  /** `shardCount / clusterCount` rounded down: at least one shard per cluster. */
  function CappedSize(shardCount: nat, clusterCount: Pos): (q: Pos)
    requires clusterCount <= shardCount
    ensures q * clusterCount <= shardCount < q * clusterCount + clusterCount
  {
    DivBounds(shardCount, clusterCount);
    var q := shardCount / clusterCount;
    MulLtCancel(0, q, clusterCount);
    q
  }

  /** Chunks of `shardCount / clusterCount` number at least `clusterCount`. */
  lemma CappedChunkCount(shardCount: nat, clusterCount: Pos)
    requires clusterCount <= shardCount
    ensures clusterCount <= |Chunk(Range(0, shardCount), CappedSize(shardCount, clusterCount))|
  {
    var q := CappedSize(shardCount, clusterCount);
    var xs := Range(0, shardCount);
    var t := Chunk(xs, q);
    ChunkCount(xs, q);
    if |t| < clusterCount {
      assert Offset(clusterCount, q) == Offset(clusterCount - 1, q) + q;
      OffsetMonotone(|t|, clusterCount - 1, q);
      OffsetIsProduct(clusterCount, q);
      assert false;
    }
  }

  /** Chunks of `shardCount / clusterCount` (rounded down): the first
      `clusterCount - 1` kept as they are, every later chunk merged into the
      last cluster's group. */
  function CappedGroups(shardCount: nat, clusterCount: Pos): (g: seq<seq<nat>>)
    requires clusterCount <= shardCount
    ensures |g| == clusterCount
    ensures forall i :: 0 <= i < clusterCount - 1 ==> |g[i]| == CappedSize(shardCount, clusterCount)
  {
    var t := Chunk(Range(0, shardCount), CappedSize(shardCount, clusterCount));
    CappedChunkCount(shardCount, clusterCount);
    ChunkSlices(Range(0, shardCount), CappedSize(shardCount, clusterCount));
    t[..clusterCount - 1] + [Concat(t[clusterCount - 1..])]
  }

  /** The corrected partition hands out every shard exactly once, in order, and
      every cluster gets at least `shardCount / clusterCount >= 1` shards. */
  lemma CappedIsPartition(shardCount: nat, clusterCount: Pos)
    requires clusterCount <= shardCount
    ensures var g := CappedGroups(shardCount, clusterCount);
      && Concat(g) == Range(0, shardCount)
      && (forall i :: 0 <= i < clusterCount ==> |g[i]| >= CappedSize(shardCount, clusterCount))
      && (forall i :: 0 <= i < clusterCount - 1 ==> |g[i]| == CappedSize(shardCount, clusterCount))
  {
    var q := CappedSize(shardCount, clusterCount);
    var xs := Range(0, shardCount);
    var t := Chunk(xs, q);
    var g := CappedGroups(shardCount, clusterCount);
    var c: nat := clusterCount;
    CappedChunkCount(shardCount, c);
    ChunkSlices(xs, q);
    var head, tail := t[..c - 1], t[c - 1..];
    assert t == head + tail;
    ConcatAppend(head, tail);
    ConcatAppend(head, [Concat(tail)]);
    assert Concat([Concat(tail)]) == Concat(tail);
    assert tail == [t[c - 1]] + t[c..];
    ConcatAppend([t[c - 1]], t[c..]);
    assert Concat([t[c - 1]]) == t[c - 1];
    assert |g[c - 1]| >= |t[c - 1]|;
    if |t| > c {
      assert |t[c - 1]| == q;
    } else {
      assert t[c..] == [];
      assert |t[c - 1]| == q by {
        ChunkAt(xs, q, c - 1);
        OffsetIsProduct(c - 1, q);
        OffsetIsProduct(c, q);
      }
    }
  }

  /** `shift()` on a tuple of `n` groups, called `n` times, hands out the whole
      tuple in order. */
  lemma {:induction false} FlattenShifted(t: seq<seq<nat>>)
    ensures Flatten(Shifted(t, |t|)) == Concat(t)
  {
    if t != [] {
      var g := Shifted(t, |t|);
      assert g[1..] == Shifted(t[1..], |t| - 1);
      FlattenShifted(t[1..]);
    }
  }

  /** The corrected groups as the spawn loop hands them out: every cluster gets
      a group, and together they hold every shard exactly once, in order. */
  function CorrectedGroups(shardCount: nat, clusterCount: Pos): (g: seq<Option<seq<nat>>>)
    requires clusterCount <= shardCount
    ensures |g| == clusterCount
    ensures AllAssigned(g) && IsPartition(g, shardCount)
  {
    var t := CappedGroups(shardCount, clusterCount);
    CappedIsPartition(shardCount, clusterCount);
    FlattenShifted(t);
    Shifted(t, clusterCount)
  }

  /** When the shards divide evenly, the corrected partition is what the source
      computes. */
  lemma CappedAgreesWhenEven(shardCount: nat, clusterCount: Pos)
    requires clusterCount <= shardCount && shardCount % clusterCount == 0
    ensures var g, w := CappedGroups(shardCount, clusterCount), AsWrittenGroups(shardCount, clusterCount);
      forall i :: 0 <= i < clusterCount ==> w[i] == Some(g[i])
  {
    var c: Pos := clusterCount;
    EvenSizesAgree(shardCount, c);
    EvenChunkCount(shardCount, c);
    var t := Chunk(Range(0, shardCount), CappedSize(shardCount, c));
    var g, w := CappedGroups(shardCount, c), AsWrittenGroups(shardCount, c);
    assert t[c - 1..] == [t[c - 1]];
    assert Concat([t[c - 1]]) == t[c - 1];
    assert ShardTuple(shardCount, c) == t;
    forall i | 0 <= i < c ensures w[i] == Some(g[i]) {
      assert w[i] == Some(t[i]);
      if i < c - 1 {
        assert g[i] == t[i];
      } else {
        assert g[i] == Concat(t[c - 1..]);
      }
    }
  }

  /** When the division is exact, rounding to nearest and rounding down agree,
      and the group size times the cluster count is the shard count. */
  lemma EvenSizesAgree(shardCount: nat, clusterCount: Pos)
    requires clusterCount <= shardCount && shardCount % clusterCount == 0
    ensures ShardsPerCluster(shardCount, clusterCount) == CappedSize(shardCount, clusterCount)
    ensures CappedSize(shardCount, clusterCount) * clusterCount == shardCount
  {
    var c := clusterCount;
    var q := CappedSize(shardCount, c);
    var spc := ShardsPerCluster(shardCount, c);
    assert q * c == shardCount by {
      DivBounds(shardCount, c);
    }
    var x := 2 * shardCount + c;
    assert 2 * c * q <= x < 2 * c * q + 2 * c;
    DivUnique(x, 2 * c, spc, q);
  }

  /** When the division is exact, there are exactly `clusterCount` chunks. */
  lemma EvenChunkCount(shardCount: nat, clusterCount: Pos)
    requires clusterCount <= shardCount && shardCount % clusterCount == 0
    ensures |Chunk(Range(0, shardCount), CappedSize(shardCount, clusterCount))| == clusterCount
  {
    var c := clusterCount;
    var q := CappedSize(shardCount, c);
    var xs := Range(0, shardCount);
    EvenSizesAgree(shardCount, c);
    ChunkIndexValid(xs, q, c);
    OffsetIsProduct(c, q);
    CappedChunkCount(shardCount, c);
  }

}

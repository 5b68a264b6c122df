/**
 * The coordinator: `ShardingManager`'s cluster registry, the sequential
 * spawn loop and the restart operations.
 *
 * `Cluster.spawn()`, `Cluster.respawn()` and `Cluster._run()` belong to code
 * outside this model; each is a method that records its call in the ghost
 * `log`, so that order and multiplicity of the calls can be stated.
 */
module Sharding {
  import opened Wrappers
  import opened Errors
  import opened Partitioner
  import opened Session
  import opened Options

  /** A cluster as the manager creates it: its ID and the shard group it was
      handed (`None` where the source hands over `undefined`). */
  datatype Cluster = Cluster(id: int, shards: Option<seq<nat>>)

  /** Whether this process is the coordinator (`isMaster`) or a worker. */
  datatype Role = Coordinator | Worker

  /** Calls into `Cluster`, in the order they are made. */
  datatype Event = Spawned(cluster: Cluster) | Respawned(id: int) | WorkerStarted

  /** The groups the spawn loop hands to clusters `0 .. clusterCount - 1`. */
  function Plan(shardCount: nat, clusterCount: nat): (g: seq<Option<seq<nat>>>)
    requires clusterCount <= shardCount
    ensures |g| == clusterCount
  {
    if clusterCount == 0 then [] else AsWrittenGroups(shardCount, clusterCount)
  }

  /** The registry after `set(0, cluster 0)`, ..., `set(n - 1, cluster n - 1)`
      on `m`, cluster `i` carrying the group `plan[i]`. */
  function Registered(m: map<int, Cluster>, plan: seq<Option<seq<nat>>>, n: nat): map<int, Cluster>
    requires n <= |plan|
  {
    if n == 0 then m else Registered(m, plan, n - 1)[n - 1 := Cluster(n - 1, plan[n - 1])]
  }

  /** The spawn calls made for clusters `0 .. n - 1`, in that order. */
  function SpawnLog(plan: seq<Option<seq<nat>>>, n: nat): seq<Event>
    requires n <= |plan|
  {
    if n == 0 then [] else SpawnLog(plan, n - 1) + [Spawned(Cluster(n - 1, plan[n - 1]))]
  }

  function RespawnEvents(ids: seq<int>): seq<Event>
  {
    seq(|ids|, i requires 0 <= i < |ids| => Respawned(ids[i]))
  }

  /** The groups the corrected spawn loop hands to clusters
      `0 .. clusterCount - 1`: one each, every shard in exactly one. */
  function CappedPlan(shardCount: nat, clusterCount: nat): (g: seq<Option<seq<nat>>>)
    requires clusterCount <= shardCount
    ensures |g| == clusterCount
    ensures AllAssigned(g)
    ensures clusterCount > 0 ==> IsPartition(g, shardCount)
  {
    if clusterCount == 0 then [] else CorrectedGroups(shardCount, clusterCount)
  }

  /** The key order of a JavaScript `Map` after `set(0)`, ..., `set(n - 1)`: a
      new key goes to the end, an existing key keeps its place. */
  function InsertionOrder(order: seq<int>, n: nat): seq<int>
  {
    if n == 0 then order
    else
      var o := InsertionOrder(order, n - 1);
      if n - 1 in o then o else o + [n - 1]
  }

  ghost predicate Distinct<T>(s: seq<T>)
  {
    forall i, j :: 0 <= i < j < |s| ==> s[i] != s[j]
  }

  /** How many times `x` occurs in `s`. */
  function Count<T(==)>(s: seq<T>, x: T): nat
  {
    if s == [] then 0 else (if s[0] == x then 1 else 0) + Count(s[1..], x)
  }

  /** The shard count `spawn()` ends up with: a configured count as it is, or
      "auto" resolved from the upstream recommendation. */
  function ResolveShardCount(setting: ShardCount, token: Option<string>, response: Response, guildsPerShard: Pos): (r: Result<nat, Error>)
    ensures setting.Fixed? ==> r == Success(setting.count)
    ensures setting.Auto? ==> (r.Success? <==> RecommendedShards(token, response).Success?)
    ensures setting.Auto? && r.Success? ==> r.value == CalcShards(response.shards, guildsPerShard)
    ensures setting.Auto? && r.Failure? ==> r == RecommendedShards(token, response)
  {
    match setting
    case Fixed(n) => Success(n)
    case Auto =>
      match RecommendedShards(token, response)
      case Failure(e) => Failure(e)
      case Success(shards) => Success(CalcShards(shards, guildsPerShard))
  }

  /** A registry and its iteration order agree: the keys are the order's
      elements, each listed once, and each cluster is stored under its own ID. */
  ghost predicate Consistent(clusters: map<int, Cluster>, order: seq<int>)
  {
    && Distinct(order)
    && (forall k :: k in clusters <==> k in order)
    && (forall k :: k in clusters ==> clusters[k].id == k)
  }

  class ShardingManager {
    /** `clusters`: the registry, keyed by cluster ID. */
    var clusters: map<int, Cluster>
    /** The iteration order of the `clusters` Map. */
    var order: seq<int>
    var shardCount: ShardCount
    var clusterCount: nat
    const guildsPerShard: Pos
    const token: Option<string>
    const path: string
    const development: bool
    const respawn: bool
    const ipcSocket: string
    /** Every call made into `Cluster`, oldest first. */
    ghost var log: seq<Event>

    /** The registry's keys are its iteration order, each once, and each
        cluster is stored under its own ID. */
    ghost predicate Valid()
      reads this`clusters, this`order
    {
      Consistent(clusters, order)
    }

    constructor (settings: Settings)
      ensures Valid()
      ensures clusters == map[] && order == [] && log == []
      ensures shardCount == settings.shardCount && clusterCount == settings.clusterCount
      ensures guildsPerShard == settings.guildsPerShard && token == settings.token
      ensures path == settings.path && development == settings.development
      ensures respawn == settings.respawn && ipcSocket == settings.ipcSocket
    {
      clusters, order := map[], [];
      shardCount, clusterCount := settings.shardCount, settings.clusterCount;
      guildsPerShard, token := settings.guildsPerShard, settings.token;
      path, development := settings.path, settings.development;
      respawn, ipcSocket := settings.respawn, settings.ipcSocket;
      log := [];
    }

    /** `this.clusters.set(c.id, c)`. */
    method Register(c: Cluster)
      modifies this`clusters, this`order
      ensures clusters == old(clusters)[c.id := c]
      ensures order == if c.id in old(order) then old(order) else old(order) + [c.id]
    {
      if c.id !in order {
        order := order + [c.id];
      }
      clusters := clusters[c.id := c];
    }

    /** `await cluster.spawn()`: only a registered cluster is spawned. */
    method SpawnCluster(c: Cluster)
      requires c.id in clusters && clusters[c.id] == c
      modifies this`log
      ensures log == old(log) + [Spawned(c)]
    {
      log := log + [Spawned(c)];
    }

    /** `await cluster.respawn()` on a registered cluster. */
    method RespawnCluster(id: int)
      requires id in clusters
      modifies this`log
      ensures log == old(log) + [Respawned(id)]
    {
      log := log + [Respawned(id)];
    }

    /** `Cluster._run(this)` in a worker process. */
    method RunWorker()
      modifies this`log
      ensures log == old(log) + [WorkerStarted]
    {
      log := log + [WorkerStarted];
    }

    /** Lines 72-84 of `spawn()`: resolve "auto" to a shard count, then clamp
        the cluster count to it. `response` is what the upstream service
        answers if the shard count is "auto". */
    method PrepareSpawn(response: Response) returns (r: Result<nat, Error>)
      modifies this`shardCount, this`clusterCount
      ensures r == ResolveShardCount(old(shardCount), token, response, guildsPerShard)
      ensures r.Failure? ==> shardCount == old(shardCount) && clusterCount == old(clusterCount)
      ensures r.Success? ==> shardCount == Fixed(r.value) && clusterCount == ClampClusters(r.value, old(clusterCount))
    {
      r := ResolveShardCount(shardCount, token, response, guildsPerShard);
      if r.Success? {
        shardCount := Fixed(r.value);
        if r.value < clusterCount {
          clusterCount := r.value;
        }
      }
    }

    /** `spawn()`. A worker hands over to the worker entry point. The
        coordinator resolves the shard count, clamps the cluster count,
        partitions the shards with `Math.round` and `Util.chunk` and, one
        cluster at a time, registers cluster `i` and awaits its spawn. */
    method Spawn(role: Role, response: Response) returns (r: Outcome<Error>)
      requires Valid()
      modifies this
      ensures Valid()
      ensures role == Worker ==>
        && r == Pass && log == old(log) + [WorkerStarted]
        && clusters == old(clusters) && order == old(order)
        && shardCount == old(shardCount) && clusterCount == old(clusterCount)
      ensures role == Coordinator && ResolveShardCount(old(shardCount), token, response, guildsPerShard).Failure? ==>
        && r == Fail(ResolveShardCount(old(shardCount), token, response, guildsPerShard).error)
        && log == old(log) && clusters == old(clusters) && order == old(order)
        && shardCount == old(shardCount) && clusterCount == old(clusterCount)
      ensures role == Coordinator && ResolveShardCount(old(shardCount), token, response, guildsPerShard).Success? ==>
        var n := ResolveShardCount(old(shardCount), token, response, guildsPerShard).value;
        && r == Pass
        && shardCount == Fixed(n)
        && clusterCount == ClampClusters(n, old(clusterCount))
        && clusters == Registered(old(clusters), Plan(n, clusterCount), clusterCount)
        && order == InsertionOrder(old(order), clusterCount)
        && log == old(log) + SpawnLog(Plan(n, clusterCount), clusterCount)
    {
      if role == Worker {
        RunWorker();
        return Pass;
      }
      var resolved := PrepareSpawn(response);
      if resolved.Failure? {
        return Fail(resolved.error);
      }
      var n, c := resolved.value, clusterCount;
      var shardTuple := if c == 0 then [] else ShardTuple(n, c);
      SpawnInOrder(shardTuple, c);
      return Pass;
    }

    /** `spawn()` with the corrected partition: the same steps as `Spawn`, but
        the groups are `CorrectedGroups`, so every cluster gets one and every
        shard is in exactly one. */
    method SpawnCapped(role: Role, response: Response) returns (r: Outcome<Error>)
      requires Valid()
      modifies this
      ensures Valid()
      ensures role == Worker ==>
        && r == Pass && log == old(log) + [WorkerStarted]
        && clusters == old(clusters) && order == old(order)
        && shardCount == old(shardCount) && clusterCount == old(clusterCount)
      ensures role == Coordinator && ResolveShardCount(old(shardCount), token, response, guildsPerShard).Failure? ==>
        && r == Fail(ResolveShardCount(old(shardCount), token, response, guildsPerShard).error)
        && log == old(log) && clusters == old(clusters) && order == old(order)
        && shardCount == old(shardCount) && clusterCount == old(clusterCount)
      ensures role == Coordinator && ResolveShardCount(old(shardCount), token, response, guildsPerShard).Success? ==>
        var n := ResolveShardCount(old(shardCount), token, response, guildsPerShard).value;
        && r == Pass
        && shardCount == Fixed(n)
        && clusterCount == ClampClusters(n, old(clusterCount))
        && clusters == Registered(old(clusters), CappedPlan(n, clusterCount), clusterCount)
        && order == InsertionOrder(old(order), clusterCount)
        && log == old(log) + SpawnLog(CappedPlan(n, clusterCount), clusterCount)
    {
      if role == Worker {
        RunWorker();
        return Pass;
      }
      var resolved := PrepareSpawn(response);
      if resolved.Failure? {
        return Fail(resolved.error);
      }
      var n, c := resolved.value, clusterCount;
      var groups := if c == 0 then [] else CappedGroups(n, c);
      SpawnInOrder(groups, c);
      return Pass;
    }

    /** The loop of `spawn()`: for each index below `count`, `shift()` the next
        group off `shardTuple`, register a cluster with it, and await its spawn
        before going on. */
    method SpawnInOrder(shardTuple: seq<seq<nat>>, count: nat)
      requires Valid()
      modifies this`clusters, this`order, this`log
      ensures Valid()
      ensures clusters == Registered(old(clusters), Shifted(shardTuple, count), count)
      ensures order == InsertionOrder(old(order), count)
      ensures log == old(log) + SpawnLog(Shifted(shardTuple, count), count)
    {
      ghost var plan := Shifted(shardTuple, count);
      var rest := shardTuple;
      var index := 0;
      while index < count
        invariant 0 <= index <= count
        invariant rest == shardTuple[Min(index, |shardTuple|)..]
        invariant clusters == Registered(old(clusters), plan, index)
        invariant order == InsertionOrder(old(order), index)
        invariant log == old(log) + SpawnLog(plan, index)
      {
        var shards: Option<seq<nat>> := None;
        if rest != [] {
          shards := Some(rest[0]);
          rest := rest[1..];
        }
        assert shards == plan[index];
        var cluster := Cluster(index, shards);
        Register(cluster);
        SpawnCluster(cluster);
        index := index + 1;
      }
      SpawnKeepsConsistent(old(clusters), old(order), plan, count);
    }

    /** `restartAll()`: respawns every registered cluster once, in the Map's
        iteration order, each after the previous one completed. */
    method RestartAll()
      requires Valid()
      modifies this`log
      ensures log == old(log) + RespawnEvents(order)
      ensures clusters == old(clusters) && order == old(order)
    {
      var i := 0;
      while i < |order|
        invariant 0 <= i <= |order|
        invariant log == old(log) + RespawnEvents(order[..i])
      {
        RespawnCluster(order[i]);
        assert RespawnEvents(order[..i + 1]) == RespawnEvents(order[..i]) + [Respawned(order[i])];
        i := i + 1;
      }
      assert order[..|order|] == order;
    }

    /** `restart(clusterID)`: respawns that one cluster, or fails without
        touching anything when no cluster has that ID. */
    method Restart(id: int) returns (r: Outcome<Error>)
      requires Valid()
      modifies this`log
      ensures r == Fail(NoSuchCluster(id)) <==> id !in clusters
      ensures r.Pass? <==> id in clusters
      ensures log == if id in clusters then old(log) + [Respawned(id)] else old(log)
      ensures clusters == old(clusters) && order == old(order)
    {
      if id !in clusters {
        return Fail(NoSuchCluster(id));
      }
      RespawnCluster(id);
      return Pass;
    }
  }

  // ---------------------------------------------------------------------------
  // What the registry operations guarantee
  // ---------------------------------------------------------------------------

  /** `set(0)`, ..., `set(n - 1)` keep the existing keys in front, in their
      order, and add exactly the keys `0 .. n - 1` that were missing. */
  lemma {:induction false} InsertionOrderKeys(order: seq<int>, n: nat)
    ensures var r := InsertionOrder(order, n);
      && |order| <= |r| <= |order| + n && r[..|order|] == order
      && (forall k :: k in r <==> k in order || 0 <= k < n)
  {
    if n > 0 {
      InsertionOrderKeys(order, n - 1);
      var o := InsertionOrder(order, n - 1);
      if n - 1 !in o {
        assert (o + [n - 1])[..|order|] == o[..|order|];
      }
    }
  }

  /** Starting from an empty registry, `set(0)`, ..., `set(n - 1)` leave the
      keys `0, 1, ..., n - 1` in ascending order. */
  lemma {:induction false} FreshInsertionOrder(n: nat)
    ensures |InsertionOrder([], n)| == n
    ensures forall i :: 0 <= i < n ==> InsertionOrder([], n)[i] == i
  {
    if n > 0 {
      FreshInsertionOrder(n - 1);
      var o := InsertionOrder([], n - 1);
      assert n - 1 !in o by {
        forall k | 0 <= k < |o| ensures o[k] != n - 1 { }
      }
    }
  }

  /** Registering clusters `0 .. n - 1` one after another keeps a consistent
      registry consistent. */
  lemma {:induction false} SpawnKeepsConsistent(m: map<int, Cluster>, o: seq<int>, plan: seq<Option<seq<nat>>>, n: nat)
    requires n <= |plan|
    requires Consistent(m, o)
    ensures Consistent(Registered(m, plan, n), InsertionOrder(o, n))
  {
    if n > 0 {
      SpawnKeepsConsistent(m, o, plan, n - 1);
      var m', o' := Registered(m, plan, n - 1), InsertionOrder(o, n - 1);
      if n - 1 !in o' {
        var o'' := o' + [n - 1];
        assert Distinct(o'') by {
          forall i, j | 0 <= i < j < |o''| ensures o''[i] != o''[j] {
            if j == |o'| {
              assert o''[i] == o'[i];
            }
          }
        }
      }
    }
  }

  /** In a sequence without repetitions every element occurs exactly once. */
  lemma {:induction false} CountDistinct<T>(s: seq<T>, x: T)
    requires Distinct(s)
    ensures Count(s, x) == if x in s then 1 else 0
  {
    if s != [] {
      CountDistinct(s[1..], x);
      if s[0] == x {
        assert x !in s[1..] by {
          forall k | 0 <= k < |s| - 1 ensures s[1..][k] != x {
            assert s[k + 1] != s[0];
          }
        }
      }
    }
  }

  /** `restartAll()` respawns every registered cluster exactly once and no
      other. */
  lemma RespawnEventsExactlyOnce(ids: seq<int>, id: int)
    requires Distinct(ids)
    ensures Count(RespawnEvents(ids), Respawned(id)) == if id in ids then 1 else 0
  {
    var e := RespawnEvents(ids);
    assert Distinct(e);
    CountDistinct(e, Respawned(id));
    if id in ids {
      var k :| 0 <= k < |ids| && ids[k] == id;
      assert e[k] == Respawned(id);
    }
  }

  /** After `spawn()` on a fresh manager, `restartAll()` respawns clusters
      `0, 1, ..., clusterCount - 1` in ascending order, each exactly once. */
  lemma RestartAllAfterFreshSpawn(n: nat, id: int)
    ensures RespawnEvents(InsertionOrder([], n)) == seq(n, i requires 0 <= i < n => Respawned(i))
    ensures Count(RespawnEvents(InsertionOrder([], n)), Respawned(id)) == if 0 <= id < n then 1 else 0
  {
    FreshInsertionOrder(n);
    var o := InsertionOrder([], n);
    assert Distinct(o);
    RespawnEventsExactlyOnce(o, id);
    if 0 <= id < n {
      assert o[id] == id;
    }
  }

  lemma {:induction false} CountAppend<T>(s: seq<T>, y: T, x: T)
    ensures Count(s + [y], x) == Count(s, x) + (if y == x then 1 else 0)
  {
    if s != [] {
      assert (s + [y])[1..] == s[1..] + [y];
      CountAppend(s[1..], y, x);
    }
  }

  /** `spawn()` spawns each planned cluster exactly once, cluster `i` with the
      group the plan hands it, and nothing else. */
  lemma {:induction false} SpawnLogExactlyOnce(plan: seq<Option<seq<nat>>>, n: nat, c: Cluster)
    requires n <= |plan|
    ensures |SpawnLog(plan, n)| == n
    ensures Count(SpawnLog(plan, n), Spawned(c)) == if 0 <= c.id < n && plan[c.id] == c.shards then 1 else 0
  {
    if n > 0 {
      SpawnLogExactlyOnce(plan, n - 1, c);
      CountAppend(SpawnLog(plan, n - 1), Spawned(Cluster(n - 1, plan[n - 1])), Spawned(c));
    }
  }

  /** After the loop, key `k` is registered iff it was before or is one of
      `0 .. n - 1`; the keys `0 .. n - 1` hold the new clusters and every other
      key keeps its old cluster. */
  lemma {:induction false} RegisteredAt(m: map<int, Cluster>, plan: seq<Option<seq<nat>>>, n: nat, k: int)
    requires n <= |plan|
    ensures k in Registered(m, plan, n) <==> k in m || 0 <= k < n
    ensures 0 <= k < n ==> Registered(m, plan, n)[k] == Cluster(k, plan[k])
    ensures k in m && !(0 <= k < n) ==> Registered(m, plan, n)[k] == m[k]
  {
    if n > 0 {
      RegisteredAt(m, plan, n - 1, k);
    }
  }
}

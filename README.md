# Kurasuta sharding coordinator in Dafny

This project models the coordinator side of Kurasuta's `ShardingManager`.
That is the process that decides how many shards a bot runs. It splits the
shard IDs into groups, creates `clusterCount` clusters and hands each the next
group, or `undefined` once the groups run out. It registers the clusters in
its `clusters` Map, and spawns, restarts or restarts all of them.

The project has five modules:

- `Partitioner` (`partitioner.dfy`) holds the pure arithmetic:
  - `_calcShards`;
  - the cluster-count clamp;
  - `Math.round(shardCount / clusterCount)`;
  - `Util.chunk`;
  - the groups that the spawn loop's `shift()` hands out.

  It proves what that partition does, including the two ways it goes wrong. It also gives a corrected partition and proves it is a full, disjoint cover.
- `Session` (`session.dfy`) holds the `Authorization` header built from the token (`^Bot\s*` stripped, case-insensitively). It also holds the outcome of the recommended-shard request, given the upstream response as an input.
- `Options` (`options.dfy`) holds the constructor's option defaults with JavaScript `||` semantics. It covers the "no path" error and the `respawn || true` quirk, which makes `respawn` always true.
- `Sharding` (`manager.dfy`) holds the class `ShardingManager`:
  - its `clusters` Map, whose insertion order is kept in `order`;
  - the fields `shardCount` and `clusterCount`, which `spawn()` overwrites;
  - `spawn()` with its sequential register-then-await loop;
  - `restart(id)` and `restartAll()`.

  The calls into `Cluster` (`spawn`, `respawn`, `_run`) are external. Each one appends an event to a ghost `log`, so the model can state the order of the calls and that each happens exactly once.
- `Wrappers` and `Errors` hold the `Option`, `Result` and `Outcome` types and the errors the source throws.

Floating-point arithmetic is replaced by exact integer arithmetic:
- `Math.ceil(shards * (1000 / guildsPerShard))` becomes `(1000 * shards + guildsPerShard - 1) / guildsPerShard`, the least `r` with `r * guildsPerShard >= 1000 * shards`.
- `Math.round(s / c)` becomes `(2s + c) / (2c)`, the nearest integer with halves rounded up.

`Util.chunk` is defined in `src/Util/Util`, which is not part of this model. It is modelled as "consecutive slices of `n` elements, the last one possibly shorter", which is how line 88 uses it.

## Model

| member | source | states |
|---|---|---|
| Partitioner.CalcShards | src/Sharding/ShardingManager.ts:165-167 | the result is the ceiling of `shards * 1000 / guildsPerShard`: `shards*1000 <= r*g < shards*1000 + g` |
| Partitioner.CalcShardsDefaultDensity | src/Sharding/ShardingManager.ts:165-167 | with the default density 1000 the recommended count is used unchanged |
| Partitioner.CalcShardsHalfDensity | src/Sharding/ShardingManager.ts:165-167 | 10 shards at 1000 guilds per shard stay 10; at 500 they become 20 |
| Partitioner.CalcShardsMonotoneInShards | src/Sharding/ShardingManager.ts:165-167 | more recommended shards never give fewer shards |
| Partitioner.CalcShardsAntitoneInDensity | src/Sharding/ShardingManager.ts:165-167 | a higher guilds-per-shard target never gives more shards |
| Partitioner.ClampClusters | src/Sharding/ShardingManager.ts:82-84 | the clamped count is at most both counts and is one of them; it equals the configured count exactly when that count fits |
| Partitioner.ShardsPerCluster | src/Sharding/ShardingManager.ts:86 | the result is `shardCount / clusterCount` rounded half up, and lies in `[1, shardCount]` when `1 <= clusterCount <= shardCount` |
| Partitioner.Chunk | src/Sharding/ShardingManager.ts:88 | `Util.chunk` yields no chunks exactly for an empty input, and its first chunk is the first `min(n, length)` elements |
| Partitioner.ChunkAt | src/Sharding/ShardingManager.ts:88 | chunk `i` is the slice of the input from `i*n` to `min((i+1)*n, length)` |
| Partitioner.ChunkPrefix | src/Sharding/ShardingManager.ts:88 | the first `k` chunks concatenate to the first `min(k*n, length)` elements |
| Partitioner.ChunkSlices | src/Sharding/ShardingManager.ts:88 | the chunks concatenate back to the input; each has 1 to `n` elements, and all but the last have exactly `n` |
| Partitioner.ChunkCount | src/Sharding/ShardingManager.ts:88 | there are enough chunks to hold every element |
| Partitioner.ChunkIndexValid | src/Sharding/ShardingManager.ts:88 | index `i` names a chunk exactly when offset `i*n` is inside the input |
| Partitioner.Range | src/Sharding/ShardingManager.ts:87 | `[...Array(n).keys()]`: `hi - lo` strictly ascending IDs, all in `[lo, hi)` |
| Partitioner.RangeMember | src/Sharding/ShardingManager.ts:87 | `[...Array(n).keys()]` holds exactly the IDs `0 .. n-1` |
| Partitioner.ShardTuple | src/Sharding/ShardingManager.ts:86-88 | the chunks of the shard IDs concatenate to `0 .. shardCount-1`, and each holds 1 to `spc` shards |
| Partitioner.AsWrittenGroups | src/Sharding/ShardingManager.ts:86-90 | what the `shift()` calls hand out: one value per cluster index, and cluster 0 always gets the shards `0 .. min(spc, shardCount)-1` |
| Partitioner.Shifted | src/Sharding/ShardingManager.ts:89-90 | `count` calls of `shift()` produce `count` values: the tuple's elements in order, then `undefined` |
| Partitioner.AsWrittenGroupAt | src/Sharding/ShardingManager.ts:86-92 | cluster `i` gets a group exactly when `i*spc < shardCount`; that group is the ascending range `[i*spc, min((i+1)*spc, shardCount))`, all of it below `shardCount` |
| Partitioner.AsWrittenDisjoint | src/Sharding/ShardingManager.ts:86-92 | when a later cluster `j` gets a group (`j*spc < shardCount`), every earlier cluster `i` gets one too, and the two share no shard |
| Partitioner.AsWrittenFlattenPrefix | src/Sharding/ShardingManager.ts:86-92 | the first `k` clusters' groups, in order, are the first `k` chunks concatenated |
| Partitioner.AsWrittenFlatten | src/Sharding/ShardingManager.ts:86-92 | taken in cluster order, the assigned shards are exactly `0 .. min(clusterCount*spc, shardCount) - 1` |
| Partitioner.AsWrittenCoversIff | src/Sharding/ShardingManager.ts:86-92 | every shard is assigned if and only if `shardCount <= clusterCount*spc` |
| Partitioner.AsWrittenDropsTail | src/Sharding/ShardingManager.ts:86-92 | every shard from `clusterCount*spc` up is handed to no cluster |
| Partitioner.AsWrittenAllAssignedIff | src/Sharding/ShardingManager.ts:86-92 | every cluster gets a group, and none gets `undefined`, if and only if `(clusterCount-1)*spc < shardCount` |
| Partitioner.AsWrittenCorrectIff | src/Sharding/ShardingManager.ts:86-92 | the groups are a full disjoint cover with one per cluster if and only if the chunk count equals `clusterCount` |
| Partitioner.ThirteenShardsFourClusters | src/Sharding/ShardingManager.ts:86-92 | 13 shards over 4 clusters: `spc = 3` and 5 chunks; every cluster gets a group, but shard 12 is in none |
| Partitioner.SixShardsFourClusters | src/Sharding/ShardingManager.ts:86-92 | 6 shards over 4 clusters: `spc = 2` and 3 chunks; cluster 3 gets `undefined` |
| Partitioner.CappedSize | src/Sharding/ShardingManager.ts:86 | the corrected group size is `shardCount / clusterCount` rounded down, and is at least 1 |
| Partitioner.CappedChunkCount | src/Sharding/ShardingManager.ts:88 | chunks of the corrected size number at least `clusterCount` |
| Partitioner.CappedGroups | src/Sharding/ShardingManager.ts:86-92 | the corrected partition has one group per cluster, and all but the last hold exactly `shardCount / clusterCount` shards |
| Partitioner.CappedIsPartition | src/Sharding/ShardingManager.ts:86-92 | the corrected groups concatenate to `0 .. shardCount-1`; each has at least `shardCount / clusterCount` shards, and all but the last exactly that many |
| Partitioner.FlattenShifted | src/Sharding/ShardingManager.ts:89-90 | shifting a tuple of `n` groups `n` times hands out all of it, in order |
| Partitioner.CorrectedGroups | src/Sharding/ShardingManager.ts:86-92 | with the corrected partition every cluster gets a group, and every shard is in exactly one group, in order |
| Partitioner.EvenSizesAgree | src/Sharding/ShardingManager.ts:86 | when `clusterCount` divides `shardCount`, `Math.round` and the rounded-down corrected size agree and multiply back to `shardCount` |
| Partitioner.EvenChunkCount | src/Sharding/ShardingManager.ts:88 | when `clusterCount` divides `shardCount`, there are exactly `clusterCount` chunks |
| Partitioner.CappedAgreesWhenEven | src/Sharding/ShardingManager.ts:86-92 | when the shards divide evenly, the corrected groups are exactly the groups the source hands out |
| Session.SkipWhitespace | src/Sharding/ShardingManager.ts:158 | `\s*` removes the longest leading run of ECMAScript whitespace and nothing else |
| Session.SkipWhitespaceAppend | src/Sharding/ShardingManager.ts:158 | whitespace followed by a non-whitespace start is skipped entirely |
| Session.AuthorizationHeader | src/Sharding/ShardingManager.ts:158 | the header starts with "Bot ". It is followed by the token as given when the token does not start with "bot" in any case; otherwise by a suffix of the token at least 3 characters shorter |
| Session.StripBotPrefix | src/Sharding/ShardingManager.ts:158 | a token not starting with "bot" in any case is unchanged; otherwise those three letters and the whitespace after them are removed, and nothing more |
| Session.HeaderNormalisesPrefix | src/Sharding/ShardingManager.ts:158 | a token with a "Bot" prefix in any case, followed by any whitespace, yields the same header `Bot <token>` as the bare token |
| Session.HeaderStripsBareBot | src/Sharding/ShardingManager.ts:158 | "Botany" yields "Bot any": the letters are stripped even without whitespace after them |
| Session.HeaderStripsOnePrefix | src/Sharding/ShardingManager.ts:158 | only one prefix is stripped: "bot  Bot x" yields "Bot Bot x" |
| Session.SessionRequest | src/Sharding/ShardingManager.ts:155-159 | fails with the no-token error exactly when the token is missing or empty; otherwise it requests `https://discordapp.com/api/v8/gateway/bot` with exactly the header `AuthorizationHeader(token)` |
| Session.RecommendedShards | src/Sharding/ShardingManager.ts:154-163 | succeeds exactly when there is a token and the status is 2xx, yielding the response's `shards`; otherwise it fails with the no-token error or with the response status |
| Options.NatOr | src/Sharding/ShardingManager.ts:53-54 | a missing or zero numeric option falls back to the default; any other value is kept |
| Options.Resolve | src/Sharding/ShardingManager.ts:51-68 | fails with the no-path error exactly when the path is empty; applies the `||` defaults; `respawn` is always true. An explicit socket is kept; a missing or empty one becomes the Windows pipe or `/tmp/DiscordBot.sock`, depending on the platform |
| Sharding.Plan | src/Sharding/ShardingManager.ts:86-92 | the as-written spawn loop hands out exactly one group or `undefined` per cluster index |
| Sharding.CappedPlan | src/Sharding/ShardingManager.ts:86-92 | the corrected spawn loop gives every cluster a group and, when there are clusters, hands out every shard exactly once |
| Sharding.ResolveShardCount | src/Sharding/ShardingManager.ts:72-78 | a configured count is kept; "auto" becomes `_calcShards` of the recommended count, or fails as the session request fails |
| Sharding.ShardingManager.constructor | src/Sharding/ShardingManager.ts:51-68 | a new manager has an empty registry and no calls logged, and holds the resolved settings |
| Sharding.ShardingManager.Register | src/Sharding/ShardingManager.ts:94 | `clusters.set(id, cluster)`: the key maps to the cluster; a new key is appended to the iteration order, an existing key keeps its place |
| Sharding.ShardingManager.SpawnCluster | src/Sharding/ShardingManager.ts:96 | a cluster is spawned only once it is in the map; the spawn is logged |
| Sharding.ShardingManager.RespawnCluster | src/Sharding/ShardingManager.ts:107 | a registered cluster's respawn is logged |
| Sharding.ShardingManager.RunWorker | src/Sharding/ShardingManager.ts:99 | the worker entry point is logged |
| Sharding.ShardingManager.PrepareSpawn | src/Sharding/ShardingManager.ts:72-84 | on success the shard count is the resolved count and the cluster count is clamped to it; on failure neither changes |
| Sharding.ShardingManager.SpawnInOrder | src/Sharding/ShardingManager.ts:89-97 | for index `0 .. count-1`, in order: shift the next group, register cluster `index` with it, then spawn it. The new registry, iteration order and log are exactly those of that sequence |
| Sharding.ShardingManager.Spawn | src/Sharding/ShardingManager.ts:70-101 | a worker only starts the worker entry point. A resolution failure changes nothing. Otherwise the counts are resolved and clamped, and cluster `i` is registered with `Plan`'s group `i` and spawned, for every `i` in ascending order |
| Sharding.ShardingManager.SpawnCapped | src/Sharding/ShardingManager.ts:70-101 | the same as `Spawn`, with the corrected groups of `CappedPlan` |
| Sharding.ShardingManager.RestartAll | src/Sharding/ShardingManager.ts:103-109 | respawns the registered clusters in the Map's iteration order, one per entry; the registry is unchanged |
| Sharding.ShardingManager.Restart | src/Sharding/ShardingManager.ts:111-118 | an unknown ID fails with no respawn; a known ID respawns that cluster once; the registry is unchanged either way |
| Sharding.SpawnKeepsConsistent | src/Sharding/ShardingManager.ts:89-94 | registering clusters `0 .. n-1` keeps the registry consistent: keys are the iteration order, each once, and each cluster is stored under its own ID |
| Sharding.RegisteredAt | src/Sharding/ShardingManager.ts:89-94 | `Registered`, the Map after the loop's `set` calls: key `k` is present exactly if it was before or `0 <= k < n`. Keys `0 .. n-1` hold cluster `k` with group `k`; other keys are untouched |
| Sharding.InsertionOrderKeys | src/Sharding/ShardingManager.ts:89-94 | `InsertionOrder`, the Map's key order after the loop's `set` calls: the existing keys stay in front in their order, and the keys are exactly the old ones plus `0 .. n-1` |
| Sharding.FreshInsertionOrder | src/Sharding/ShardingManager.ts:89-94 | from an empty Map, the iteration order after the loop is `0, 1, ..., n-1` |
| Sharding.SpawnLogExactlyOnce | src/Sharding/ShardingManager.ts:89-97 | the loop spawns each planned cluster exactly once, with its planned group, and spawns nothing else |
| Sharding.RespawnEventsExactlyOnce | src/Sharding/ShardingManager.ts:103-109 | over a consistent registry, `restartAll()` respawns each registered cluster exactly once and no other |
| Sharding.RestartAllAfterFreshSpawn | src/Sharding/ShardingManager.ts:89-109 | after `spawn()` on a fresh manager, `restartAll()` respawns clusters `0 .. n-1` in ascending order, each exactly once |

## Left out

- HTTP: the `node-fetch` call and its JSON body are network I/O. The response (status and `shards`) is an input, and `throw res` is an error carrying the status.
- Floating point: `Math.ceil` and `Math.round` on doubles are replaced by the exact integer formulas above.
- Partitioner.CalcShards: the source's double product can exceed the exact ceiling by 1. This happens when `shards * 1000 / guildsPerShard` is a whole number but `1000 / guildsPerShard` is not exact in binary. For example `_calcShards(15, 15)` computes `15 * 66.66666666666667 = 1000.0000000000001` and returns 1001, while the model gives 1000. Densities that divide 1000 exactly in binary, such as 500, 1000 or 2000, are unaffected.
- Concurrency: `spawn()`, `restart()` and `restartAll()` are `async` and yield at each `await` (lines 74, 96, 107, 117; the one at line 74 waits on the `fetch` at line 156). Interleaving of concurrent calls at those points is not modelled. Each method runs to completion on its own, so a `restartAll()` that starts while `spawn()` is waiting, and whose live Map iterator would also visit clusters set meanwhile, is not captured.
- Host environment: `cpus().length`, `platform()` and `isMaster` are inputs (`cpuCount`, `windows`, `role`).
- The `debug` and `error` events (`emit`) and the `MasterIPC` set-up and forwarding are not modelled. Neither is `fetchClientValues`, which broadcasts over IPC.
- `eval` is not modelled: it evaluates arbitrary script text.
- The `on`/`once` overloads are only EventEmitter typings and are not modelled.
- `client` and `clientOptions` are not modelled. Line 58 defaults `client` to `Client`, and line 55 defaults `clientOptions` to `{}`. The `name` option (line 18) is never read in this file.
- Partitioner.Range: `[...Array(shardCount).keys()]` (line 87) throws a `RangeError` when `shardCount >= 2^32`. The model's unbounded `nat` builds the range for any count, so that error is not modelled.
- `Cluster` is not part of this model. Its `spawn`, `respawn` and `_run` are log entries, and a rejected `spawn`/`respawn` (which would abort the loop) is not modelled.
- `src/Util/Util` (`Util.chunk`) is not part of this model. It is specified by its use, as consecutive slices.
- Options.Resolve: option values are natural numbers, so negative or fractional counts and non-number `shardCount` values are not modelled.
- Sharding.ShardingManager.Spawn: when `clusterCount` is 0, the source divides by zero in `Math.round`. It passes `NaN` (for 0/0) or `Infinity` (for `s`/0) to `Util.chunk`, and then never enters the loop. The model skips the division and registers nothing. What `Util.chunk` does with `NaN` or `Infinity` (for example, whether it throws) is not known here, because `src/Util/Util` is not part of this model.

## Findings

| source | as written | input that shows it | evidently intended | confidence | as-written member | corrected member |
|---|---|---|---|---|---|---|
| src/Sharding/ShardingManager.ts:86-90 | `Math.round(13 / 4) = 3` gives 5 chunks, only 4 are shifted, and the last chunk is left in `shardTuple` | `shardCount = 13`, `clusterCount = 4`: shard 12 is assigned to no cluster | every shard is run by some cluster; overflow merged into the last cluster | not executed; assumes `Util.chunk` cuts consecutive slices of `n` | Partitioner.ThirteenShardsFourClusters | Partitioner.CorrectedGroups |
| src/Sharding/ShardingManager.ts:86-92 | `Math.round(6 / 4) = 2` gives only 3 chunks, and the fourth `shift()` returns `undefined` | `shardCount = 6`, `clusterCount = 4`: cluster 3 is created with `shards` undefined | every cluster gets at least one shard | not executed; assumes `Util.chunk` cuts consecutive slices of `n` | Partitioner.SixShardsFourClusters | Partitioner.CorrectedGroups |

The corrected partition uses `shardCount / clusterCount` rounded down as the group size. The first `clusterCount - 1` chunks are kept, and every later chunk is merged into the last cluster's group (`Partitioner.CappedGroups`). `Sharding.ShardingManager.SpawnCapped` is `spawn()` with that partition. The correction also reshapes partitions the source already gets right: it differs from the source's groups whenever the division is not exact. For example, 7 shards over 4 clusters are `[2,2,2,1]` as written and `[1,1,1,4]` corrected. `Partitioner.CappedAgreesWhenEven` proves that the two agree whenever `clusterCount` divides `shardCount`. `Sharding.ShardingManager.Spawn` keeps the behaviour as written.

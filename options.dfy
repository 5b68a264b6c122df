/**
 * The constructor's option defaults. JavaScript's `a || b` takes `b` whenever
 * `a` is missing or falsy (0, "", false), which these functions spell out.
 * The host's CPU count and platform are inputs.
 */
module Options {
  import opened Wrappers
  import opened Errors
  import Partitioner

  datatype ShardCount = Auto | Fixed(count: nat)

  /** The recognised fields of `SharderOptions` (the client class and client
      options are passed through untouched and are not modelled). */
  datatype SharderOptions = SharderOptions(
    token: Option<string>,
    shardCount: Option<ShardCount>,
    clusterCount: Option<nat>,
    development: Option<bool>,
    guildsPerShard: Option<nat>,
    respawn: Option<bool>,
    ipcSocket: Option<string>)

  datatype Settings = Settings(
    path: string,
    token: Option<string>,
    shardCount: ShardCount,
    clusterCount: nat,
    development: bool,
    guildsPerShard: Partitioner.Pos,
    respawn: bool,
    ipcSocket: string)

  const DefaultGuildsPerShard: Partitioner.Pos := 1000
  const WindowsSocket: string := "//./pipe/tmp/DiscordBot.sock"
  const UnixSocket: string := "/tmp/DiscordBot.sock"

  /** `options.x || fallback` for a numeric option. */
  function NatOr(o: Option<nat>, fallback: nat): (r: nat)
    ensures o.Some? && o.value != 0 ==> r == o.value
    ensures o == None || o == Some(0) ==> r == fallback
  {
    if o.Some? && o.value != 0 then o.value else fallback
  }

  /** The settings a `ShardingManager` is constructed with, or the error its
      constructor throws when `path` is empty. */
  function Resolve(path: string, options: SharderOptions, cpuCount: nat, windows: bool): (r: Result<Settings, Error>)
    ensures r.Failure? <==> path == []
    ensures r.Failure? ==> r.error == NoPath
    ensures r.Success? ==> r.value.path == path && r.value.token == options.token
    // shardCount: an explicit positive count is kept; missing or 0 means "auto"
    ensures r.Success? ==> (r.value.shardCount.Fixed? <==> exists n :: n >= 1 && options.shardCount == Some(Fixed(n)))
    ensures r.Success? && r.value.shardCount.Fixed? ==> r.value.shardCount.count >= 1 && options.shardCount == Some(r.value.shardCount)
    // clusterCount and guildsPerShard: an explicit non-zero value is kept, otherwise the default
    ensures r.Success? ==> r.value.clusterCount == if options.clusterCount.Some? && options.clusterCount.value != 0 then options.clusterCount.value else cpuCount
    ensures r.Success? ==> r.value.guildsPerShard == if options.guildsPerShard.Some? && options.guildsPerShard.value != 0 then options.guildsPerShard.value else 1000
    ensures r.Success? ==> (r.value.development <==> options.development == Some(true))
    // `options.respawn || true` is true whatever was configured
    ensures r.Success? ==> r.value.respawn
    ensures r.Success? ==> r.value.ipcSocket != []
    ensures r.Success? && options.ipcSocket.Some? && options.ipcSocket.value != [] ==> r.value.ipcSocket == options.ipcSocket.value
    ensures r.Success? && (options.ipcSocket == None || options.ipcSocket == Some([])) ==>
      r.value.ipcSocket == if windows then WindowsSocket else UnixSocket
  {
    if path == [] then Failure(NoPath)
    else
      var shardCount := match options.shardCount
        case Some(Fixed(n)) => if n != 0 then Fixed(n) else Auto
        case _ => Auto;
      var guilds := NatOr(options.guildsPerShard, DefaultGuildsPerShard);
      var socket := match options.ipcSocket
        case Some(s) => if s != [] then s else if windows then WindowsSocket else UnixSocket
        case None => if windows then WindowsSocket else UnixSocket;
      Success(Settings(
        path,
        options.token,
        shardCount,
        NatOr(options.clusterCount, cpuCount),
        options.development == Some(true),
        guilds,
        options.respawn == Some(true) || true,
        socket))
  }
}

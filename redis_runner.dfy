/**
 * The load-splitting and placement arithmetic of the sharded Redis experiment:
 * the per-shard and per-connection rate limits, the port, client host and core
 * slice of each shard, the per-shard key range, and the workload profile with
 * the memtier flags derived from it.
 */
module RedisRunner {
  import opened Wrappers
  import opened Text

  const Clients: seq<string> := ["client_mem1", "client_mem2", "client_mem3"]
  const Shards: nat := 20
  const PortBase: nat := 7000
  const MemtierThreads: nat := 2
  const MemtierClients: nat := 50
  const KeyMax: nat := 5_000_000

  // ----- run_shard_qps: the rate split -----

  /** `(qps + REDIS_SHARDS - 1) // REDIS_SHARDS`: the target rate each shard must carry. */
  function ShardRate(qps: int): (r: int)
    ensures r * Shards >= qps && (r - 1) * Shards < qps
  {
    (qps + Shards - 1) / Shards
  }

  /** `MEMTIER_THREADS * MEMTIER_CLIENTS`: the connections driving one shard. */
  const TotalConns: nat := MemtierThreads * MemtierClients

  /** `(qps_shard + total_conns - 1) // total_conns`: the `--rate-limiting` of each connection. */
  function PerConn(qpsShard: int): (r: int)
    ensures r * TotalConns >= qpsShard && (r - 1) * TotalConns < qpsShard
  {
    (qpsShard + TotalConns - 1) / TotalConns
  }

  /**
   * Rounding up twice never under-provisions: all shards' connections together
   * are limited to at least the requested rate, and to less than that rate plus
   * one request per connection and one per shard.
   */
  lemma EnforcedRateCoversTarget(qps: int)
    ensures PerConn(ShardRate(qps)) * TotalConns * Shards >= qps
    ensures PerConn(ShardRate(qps)) * TotalConns * Shards < qps + TotalConns * Shards + Shards
  {
    var s := ShardRate(qps);
    var c := PerConn(s);
    assert c * TotalConns * Shards == (c * TotalConns) * 20;
    assert (c * TotalConns) * 20 >= s * 20;
    assert (c * TotalConns) * 20 < (s + TotalConns) * 20;
  }

  // ----- shard placement -----

  /** `REDIS_PORT_BASE + shard` */
  function Port(shard: nat): (p: nat)
    ensures p >= PortBase
  {
    PortBase + shard
  }

  /** The shards listen on 20 distinct consecutive ports from 7000. */
  lemma PortsDistinct(i: nat, j: nat)
    requires i < Shards && j < Shards
    ensures Port(i) == Port(j) <==> i == j
    ensures PortBase <= Port(i) < PortBase + Shards
  {
  }

  /** `CLIENTS[shard % len(CLIENTS)]`: the client host that drives a shard. */
  function Host(shard: nat): (h: string)
    ensures h in Clients
  {
    Clients[shard % |Clients|]
  }

  /** Hosts are dealt round-robin: shards three apart share a host, neighbours do not. */
  lemma HostRoundRobin(shard: nat)
    ensures Host(shard + 3) == Host(shard)
    ensures Host(shard + 1) != Host(shard)
  {
    assert (shard + 3) % 3 == shard % 3;
  }

  /** `f"{2*i}-{2*i+1}"`: the core pair of slice `i`. */
  function Slice(i: nat): string {
    DecimalString(2 * i) + "-" + DecimalString(2 * i + 1)
  }

  /** `[f"{2*i}-{2*i+1}" for i in range(10)] * 2` */
  function CoreSlices(): (slices: seq<string>)
    ensures |slices| == Shards
    ensures forall i :: 0 <= i < 10 ==> slices[i] == Slice(i) && slices[i + 10] == Slice(i)
  {
    var half := seq(10, i requires 0 <= i < 10 => Slice(i));
    half + half
  }

  /** Shard `i` gets slice `i mod 10`. */
  lemma SliceOfShard(i: nat)
    requires i < Shards
    ensures CoreSlices()[i] == Slice(i % 10)
  {
    var slices := CoreSlices();
    if i < 10 {
      assert i % 10 == i;
    } else {
      var k := i - 10;
      assert i % 10 == k;
      assert slices[k + 10] == Slice(k);
    }
  }

  /** The first part of `x-y` split at `-`, when `x` has no `-`. */
  lemma SplitDashFirst(x: string, y: string)
    requires '-' !in x
    ensures SplitChar(x + "-" + y, '-')[0] == x
  {
    var s := x + "-" + y;
    assert s[|x|] == '-';
    assert FirstIndex(s, '-') == Some(|x|);
    assert s[..|x|] == x;
  }

  /** Different slices name different core pairs. */
  lemma SliceInjective(i: nat, j: nat)
    requires Slice(i) == Slice(j)
    ensures i == j
  {
    var a := DecimalString(2 * i);
    var b := DecimalString(2 * j);
    assert '-' !in a by {
      assert forall k :: 0 <= k < |a| ==> IsDigit(a[k]);
    }
    assert '-' !in b by {
      assert forall k :: 0 <= k < |b| ==> IsDigit(b[k]);
    }
    SplitDashFirst(a, DecimalString(2 * i + 1));
    SplitDashFirst(b, DecimalString(2 * j + 1));
    DecimalStringInjective(2 * i, 2 * j);
  }

  /**
   * Twenty shards get only ten core pairs: two shards are pinned to the same
   * cores exactly when their numbers are ten apart.
   */
  lemma SharedCores(i: nat, j: nat)
    requires i < Shards && j < Shards
    ensures CoreSlices()[i] == CoreSlices()[j] <==> i % 10 == j % 10
  {
    SliceOfShard(i);
    SliceOfShard(j);
    if CoreSlices()[i] == CoreSlices()[j] {
      SliceInjective(i % 10, j % 10);
    }
  }

  /** Two different shards below 20 with the same core slice are ten apart, so three does not divide their distance. */
  lemma TenApart(i: nat, j: nat)
    requires i < Shards && j < Shards && i != j && i % 10 == j % 10
    ensures i % 3 != j % 3
  {
    assert i == j + 10 || j == i + 10 by {
      assert i == 10 * (i / 10) + i % 10 && j == 10 * (j / 10) + j % 10;
      assert i / 10 < 2 && j / 10 < 2;
    }
  }

  /**
   * No client host oversubscribes a core pair: two different shards driven from
   * the same host are always pinned to different cores there.
   */
  lemma NoSharedCoresOnHost(i: nat, j: nat)
    requires i < Shards && j < Shards && i != j
    requires Host(i) == Host(j)
    ensures CoreSlices()[i] != CoreSlices()[j]
  {
    assert i % 3 == j % 3 by {
      assert Clients[0] != Clients[1] && Clients[0] != Clients[2] && Clients[1] != Clients[2];
    }
    if i % 10 == j % 10 {
      TenApart(i, j);
    }
    SharedCores(i, j);
  }

  /** `MEMTIER_KEY_MAX // REDIS_SHARDS`: the `--key-maximum` of each shard. */
  function KeysPerShard(): (k: nat)
    ensures k * Shards <= KeyMax < (k + 1) * Shards
  {
    KeyMax / Shards
  }

  /** `f"s{shard}:"`: the key prefix a shard's memtier runs write and read under. */
  function KeyPrefix(shard: nat): string {
    "s" + DecimalString(shard) + ":"
  }

  /** Different shards use different key prefixes, so their key spaces never meet. */
  lemma KeyPrefixInjective(i: nat, j: nat)
    requires KeyPrefix(i) == KeyPrefix(j)
    ensures i == j
  {
    var a := KeyPrefix(i);
    assert a[1..|a| - 1] == DecimalString(i);
    assert KeyPrefix(j)[1..|KeyPrefix(j)| - 1] == DecimalString(j);
    DecimalStringInjective(i, j);
  }

  /** What the orchestrator hands to one shard's memtier run at a target rate. */
  datatype ShardRun = ShardRun(host: string, port: nat, cores: string, prefix: string,
                               keyMax: nat, rateLimit: int)

  /** The run of `shard` in the sweep step at `qps`, as the main loop and `run_shard_qps` assemble it. */
  function RunOf(shard: nat, qps: int): ShardRun
    requires shard < Shards
  {
    ShardRun(Host(shard), Port(shard), CoreSlices()[shard], KeyPrefix(shard),
             KeysPerShard(), PerConn(ShardRate(qps)))
  }

  /** `for shard in range(REDIS_SHARDS)`: the twenty runs of one sweep step. */
  function Plan(qps: int): (runs: seq<ShardRun>)
    ensures |runs| == Shards
    ensures forall s :: 0 <= s < Shards ==> runs[s] == RunOf(s, qps)
  {
    seq(Shards, s requires 0 <= s < Shards => RunOf(s, qps))
  }

  /**
   * The twenty runs of a sweep step target distinct shards (distinct ports and key
   * prefixes), share one rate limit, and together cover the requested rate.
   */
  lemma PlanSeparatesShards(qps: int, i: nat, j: nat)
    requires i < Shards && j < Shards && i != j
    ensures Plan(qps)[i].port != Plan(qps)[j].port
    ensures Plan(qps)[i].prefix != Plan(qps)[j].prefix
    ensures Plan(qps)[i].rateLimit == Plan(qps)[j].rateLimit
    ensures Plan(qps)[i].rateLimit * TotalConns * Shards >= qps
  {
    PortsDistinct(i, j);
    if KeyPrefix(i) == KeyPrefix(j) {
      KeyPrefixInjective(i, j);
    }
    EnforcedRateCoversTarget(qps);
  }

  // ----- profile_params -----

  /** The parameters of a workload profile; `None` stands for Python's `None`. */
  datatype Params = Params(ratio: string, keyPattern: string, zipf: Option<string>,
                           dataSize: Option<int>, dataList: Option<string>)

  const EtcDataList := "1:583,2:17820,3:9239,4:18,5:2740,6:65,7:606,8:23,9:837,10:837,11:8989,12:92,13:326,14:1980,22:4200,45:6821,91:10397,181:12790,362:11421,724:6768,1448:2598,2896:683,5793:136,11585:23,23170:3,46341:1,92682:1,185364:1,370728:1,741455:1"

  const Usr := Params("1:500", "R:R", None, Some(2), None)
  const Etc := Params("1:30", "Z:Z", Some("1.2"), None, Some(EtcDataList))

  /** The upper-case form of an ASCII letter; other characters are kept. */
  function UpperChar(c: char): char {
    if 'a' <= c <= 'z' then (c as int - 'a' as int + 'A' as int) as char else c
  }

  /** `s.upper()` on ASCII text. */
  function Upper(s: string): (r: string)
    ensures |r| == |s| && forall i :: 0 <= i < |s| ==> r[i] == UpperChar(s[i])
  {
    seq(|s|, i requires 0 <= i < |s| => UpperChar(s[i]))
  }

  /** `profile_params(profile)`: the USR parameters for `usr` in any case, the ETC ones otherwise. */
  function ProfileParams(profile: string): (p: Params)
    ensures p == Usr || p == Etc
  {
    if Upper(profile) == "USR" then Usr else Etc
  }

  /**
   * The USR parameters come back exactly for the three-letter names `u`, `s`,
   * `r` in any mix of cases; every other name, including the empty one, gets ETC.
   */
  lemma ProfileParamsUsr(profile: string)
    ensures ProfileParams(profile) == Usr <==>
      |profile| == 3 && profile[0] in "uU" && profile[1] in "sS" && profile[2] in "rR"
  {
    assert Usr != Etc;
    var u := Upper(profile);
    if |profile| == 3 && profile[0] in "uU" && profile[1] in "sS" && profile[2] in "rR" {
      assert u == "USR";
    }
  }

  /** Python's truth value of an optional string: set and not empty. */
  predicate Truthy(s: Option<string>) {
    s.Some? && s.value != []
  }

  /** `str(x)` for the data size, which is `None` in the ETC profile. */
  function SizeString(x: Option<int>): string {
    match x
    case None => "None"
    case Some(n) => IntString(n)
  }

  /** The data-size flag of a measurement run: the size list when there is one, else the fixed size. */
  function DataSizeFlag(p: Params): string {
    if Truthy(p.dataList) then "--data-size-list=" + p.dataList.value
    else "--data-size=" + SizeString(p.dataSize)
  }

  /** Python's `a and b or c` on strings, with `a` given by its truth value. */
  function AndOr(a: bool, b: string, c: string): string {
    if a && b != [] then b else c
  }

  /** `params['data_list'] and f"--data-size-list=..." or f"--data-size=..."`, the preload flag. */
  function PreloadDataSizeFlag(p: Params): string {
    AndOr(Truthy(p.dataList), "--data-size-list=" + (if p.dataList.Some? then p.dataList.value else "None"),
          "--data-size=" + SizeString(p.dataSize))
  }

  /** The preload and the measurement runs use the same data-size flag. */
  lemma PreloadFlagAgrees(p: Params)
    ensures PreloadDataSizeFlag(p) == DataSizeFlag(p)
  {
    var flag := "--data-size-list=" + (if p.dataList.Some? then p.dataList.value else "None");
    assert flag[0] == '-';
  }

  /** `--key-zipf-exp=<zipf>` when the profile has a zipf exponent, else nothing. */
  function ZipfFlag(p: Params): string {
    if Truthy(p.zipf) then "--key-zipf-exp=" + p.zipf.value else ""
  }

  /** The flags each profile yields: USR a fixed size of 2 and no zipf flag, ETC the size list and exponent 1.2. */
  lemma ProfileFlags(profile: string)
    ensures ProfileParams(profile) == Usr ==>
      DataSizeFlag(ProfileParams(profile)) == "--data-size=2" && ZipfFlag(ProfileParams(profile)) == ""
    ensures ProfileParams(profile) == Etc ==>
      DataSizeFlag(ProfileParams(profile)) == "--data-size-list=" + EtcDataList &&
      ZipfFlag(ProfileParams(profile)) == "--key-zipf-exp=1.2"
  {
    assert Usr != Etc;
    assert IntString(2) == "2";
    assert EtcDataList != [];
  }
}

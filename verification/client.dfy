/**
 * The registry client (`Client\Client`): it turns the registry's instance
 * lists into load-balancer nodes and assembles the sorted batch the driver
 * compares and applies.
 *
 * The registry itself is a parameter: a total function from the request
 * `instance->list` sends to the reply it gets back (a thrown error, or an
 * HTTP status with a body that either fails to decode or decodes to an
 * optional `hosts` list). Every call that creates nodes is given a fetch
 * number, which stamps the identity of the node objects it allocates.
 */
module Client {
  import opened Php
  import opened Batches

  /** One entry of the registry's `hosts` list; an absent or null key is `None`. */
  datatype Host = Host(ip: Option<string>, port: Option<int>, healthy: Option<bool>, weight: Option<real>, pathPrefix: Option<string>)

  datatype Body = Malformed | Decoded(hosts: Option<seq<Host>>)

  datatype Reply = Threw | Http(status: int, body: Body)

  /**
   * The service name and option array `instance->list` is called with; a
   * namespace the configuration leaves out is sent as null (`None`).
   */
  datatype ListRequest = ListRequest(
    serviceName: string, groupName: Option<string>, namespaceId: Option<string>,
    udpPort: int, clientIP: string, app: string, healthyOnly: string)

  type Registry = ListRequest -> Reply

  /**
   * One consumer array as `getServices` builds it. `getNodesOneByListener`
   * builds the same shape with an empty `nodes`, a key nothing reads. A
   * `load_balancer` or `namespace_id` missing from the configuration is
   * read as null and carried along as `None`.
   */
  datatype Consumer = Consumer(
    serviceName: string, loadBalance: Option<string>, namespaceId: Option<string>,
    udpPort: int, clientIP: string, app: string, groupName: Option<string>,
    nodes: seq<Node>)

  /** One entry of `services.consumers`; an absent `load_balancer` or `namespace_id` is `None`. */
  datatype ConsumerConfig = ConsumerConfig(name: string, loadBalancer: Option<string>, namespaceId: Option<string>)

  /** One entry of `server.servers`: its `name`, `callbacks.packet[0]` and `intval(port)`. */
  datatype ServerConfig = ServerConfig(name: Option<string>, packetCallback: Option<string>, port: int)

  /** The configuration keys the client reads. */
  datatype Config = Config(
    appName: Option<string>, servers: seq<ServerConfig>,
    groupName: Option<string>, consumers: seq<ConsumerConfig>)

  /** The client's fields after construction. */
  datatype State = State(clientIp: string, udpPort: int, appName: string, consumers: seq<Consumer>)

  const UdpServerClass: string := "YuanxinHealthy\\ServiceGovernanceNacosOptimization\\UdpServer\\UdpServer"
  const DefaultAppName: string := "appName"
  const ChunkSize: nat := 8
  const StatusOk: int := 200

  // ---------------------------------------------------------------------------
  // getNodesOne: host filter and node normalisation

  /** A host becomes a node only with both `ip` and `port` set and `healthy` true. */
  predicate Usable(h: Host) {
    h.ip.Some? && h.port.Some? && h.healthy == Some(true)
  }

  /** The usable hosts, in registry order. */
  function Usables(hosts: seq<Host>): (kept: seq<Host>)
    ensures forall h :: h in kept <==> h in hosts && Usable(h)
    ensures |kept| <= |hosts|
    decreases |hosts|
  {
    if |hosts| == 0 then []
    else (if Usable(hosts[0]) then [hosts[0]] else []) + Usables(hosts[1..])
  }

  /** Filtering distributes over concatenation: kept hosts keep their relative order. */
  lemma {:induction false} UsablesKeepOrder(a: seq<Host>, b: seq<Host>)
    ensures Usables(a + b) == Usables(a) + Usables(b)
    decreases |a|
  {
    if |a| == 0 {
      assert a + b == b;
    } else {
      assert (a + b)[0] == a[0];
      assert (a + b)[1..] == a[1..] + b;
      UsablesKeepOrder(a[1..], b);
    }
  }

  /** `new Node(ip, port, intval(100 * (weight ?? 1)), path_prefix ?? '')` */
  function MakeNode(h: Host, ref: NodeRef): (n: Node)
    requires Usable(h)
    ensures n.ref == ref && n.host == h.ip.value && n.port == h.port.value
    ensures h.weight.None? ==> n.weight == 100
    ensures h.weight.Some? && 0.0 <= h.weight.value ==> n.weight == (100.0 * h.weight.value).Floor
    ensures h.pathPrefix.None? ==> n.pathPrefix == ""
    ensures h.pathPrefix.Some? ==> n.pathPrefix == h.pathPrefix.value
  {
    Node(ref, h.ip.value, h.port.value, IntvalReal(100.0 * h.weight.GetOr(1.0)), h.pathPrefix.GetOr(""))
  }

  /** The hosts a reply carries when it is a decodable 200 answer, `[]` otherwise. */
  function Answered(reply: Reply): seq<Host> {
    if reply.Http? && reply.status == StatusOk && reply.body.Decoded? then reply.body.hosts.GetOr([])
    else []
  }

  /**
   * What `getNodesOne` makes of the registry's reply: a thrown error, a
   * non-200 status or an undecodable body collapse to `[]`; otherwise every
   * usable host becomes a fresh node, in order.
   */
  function NodesFromReply(reply: Reply, fetch: nat, query: nat): (nodes: seq<Node>)
    ensures reply.Threw? || reply.status != StatusOk || reply.body.Malformed? ==> nodes == []
    ensures |nodes| == |Usables(Answered(reply))|
    ensures forall k :: 0 <= k < |nodes| ==> nodes[k] == MakeNode(Usables(Answered(reply))[k], NodeRef(fetch, query, k))
    ensures forall n :: n in nodes ==> n.ref.fetch == fetch
  {
    var kept := Usables(Answered(reply));
    seq(|kept|, k requires 0 <= k < |kept| => MakeNode(kept[k], NodeRef(fetch, query, k)))
  }

  /** The request `getNodesOne` sends for a consumer array. */
  function RequestOf(item: Consumer): (req: ListRequest)
    ensures req.serviceName == item.serviceName && req.groupName == item.groupName
    ensures req.namespaceId == item.namespaceId
    ensures req.udpPort == item.udpPort && req.clientIP == item.clientIP && req.app == item.app
    ensures req.healthyOnly == "true"
  {
    ListRequest(item.serviceName, item.groupName, item.namespaceId, item.udpPort, item.clientIP, item.app, "true")
  }

  /** `getNodesOne($item)`: one registry query, never failing. */
  function GetNodesOne(item: Consumer, registry: Registry, fetch: nat, query: nat): (nodes: seq<Node>)
    ensures forall n :: n in nodes ==> n.ref.fetch == fetch
    ensures |nodes| <= |Answered(registry(RequestOf(item)))|
  {
    NodesFromReply(registry(RequestOf(item)), fetch, query)
  }

  /** Every node `getNodesOne` returns stands for a usable host of the registry's answer. */
  lemma NodesComeFromUsableHosts(reply: Reply, fetch: nat, query: nat, k: nat)
    requires k < |NodesFromReply(reply, fetch, query)|
    ensures var n := NodesFromReply(reply, fetch, query)[k];
      exists h :: h in Answered(reply) && Usable(h) && n.host == h.ip.value && n.port == h.port.value
  {
    var h := Usables(Answered(reply))[k];
    assert h in Usables(Answered(reply));
  }

  // ---------------------------------------------------------------------------
  // getNodesOneByListener

  /** The consumer array `getNodesOneByListener` assembles from its arguments and the client's fields. */
  function ListenerQuery(client: State, serviceName: string, groupName: string, namespaceId: string, loadBalance: string): (item: Consumer)
    ensures item.serviceName == serviceName && item.groupName == Some(groupName)
    ensures item.namespaceId == Some(namespaceId) && item.loadBalance == Some(loadBalance)
    ensures item.udpPort == client.udpPort && item.clientIP == client.clientIp && item.app == client.appName
  {
    Consumer(serviceName, Some(loadBalance), Some(namespaceId), client.udpPort, client.clientIp, client.appName, Some(groupName), [])
  }

  /** `getNodesOneByListener`: the single-service query the push listener makes. */
  function GetNodesOneByListener(
    client: State, serviceName: string, groupName: string, namespaceId: string, loadBalance: string,
    registry: Registry, fetch: nat): (nodes: seq<Node>)
    ensures nodes == NodesFromReply(registry(ListRequest(serviceName, Some(groupName), Some(namespaceId),
                                                         client.udpPort, client.clientIp, client.appName, "true")), fetch, 0)
  {
    GetNodesOne(ListenerQuery(client, serviceName, groupName, namespaceId, loadBalance), registry, fetch, 0)
  }

  // ---------------------------------------------------------------------------
  // array_chunk($consumers, 8)

  function Flatten<T>(chunks: seq<seq<T>>): seq<T>
    decreases |chunks|
  {
    if |chunks| == 0 then [] else chunks[0] + Flatten(chunks[1..])
  }

  /** `array_chunk($s, $size)`: in-order pieces of `size`, the last possibly shorter. */
  function Chunks<T>(s: seq<T>, size: nat): (chunks: seq<seq<T>>)
    requires 0 < size
    ensures Flatten(chunks) == s
    ensures forall i :: 0 <= i < |chunks| ==> 0 < |chunks[i]| <= size
    ensures forall i :: 0 <= i < |chunks| - 1 ==> |chunks[i]| == size
    decreases |s|
  {
    if |s| == 0 then []
    else if |s| <= size then
      assert [s][1..] == [];
      assert s + [] == s;
      [s]
    else
      var rest := Chunks(s[size..], size);
      var chunks := [s[..size]] + rest;
      assert chunks[1..] == rest;
      assert s[..size] + s[size..] == s;
      chunks
  }

  // ---------------------------------------------------------------------------
  // $outData keyed by service name, then ksort + array_values

  /** What one consumer contributes to `$outData`. */
  datatype Entry = Entry(serviceName: string, loadBalance: Option<string>, nodes: seq<Node>)

  /** Strictly ascending by service name, so no name appears twice. */
  predicate Sorted(t: seq<Entry>) {
    forall i, j :: 0 <= i < j < |t| ==> Below(t[i].serviceName, t[j].serviceName)
  }

  function Names(t: seq<Entry>): set<string> {
    set e | e in t :: e.serviceName
  }

  lemma BelowAllAfter(e: Entry, t: seq<Entry>)
    requires Sorted(t) && 0 < |t| && Below(e.serviceName, t[0].serviceName)
    ensures forall j :: 0 <= j < |t| ==> Below(e.serviceName, t[j].serviceName)
  {
    forall j | 0 < j < |t|
      ensures Below(e.serviceName, t[j].serviceName)
    {
      BelowTransitive(e.serviceName, t[0].serviceName, t[j].serviceName);
    }
  }

  /**
   * `$outData[$name] = $entry` in the sorted view `ksort` produces: an entry
   * of the same name is replaced, otherwise the entry is inserted in order.
   */
  function Put(t: seq<Entry>, e: Entry): seq<Entry>
    decreases |t|
  {
    if |t| == 0 then [e]
    else if t[0].serviceName == e.serviceName then [e] + t[1..]
    else if Below(e.serviceName, t[0].serviceName) then [e] + t
    else [t[0]] + Put(t[1..], e)
  }

  /**
   * Writing into a sorted table keeps it sorted; afterwards it holds the new
   * entry and exactly the old entries with another name.
   */
  lemma {:induction false} PutSpec(t: seq<Entry>, e: Entry)
    requires Sorted(t)
    ensures Sorted(Put(t, e))
    ensures e in Put(t, e)
    ensures forall x :: x in Put(t, e) ==> x == e || (x in t && x.serviceName != e.serviceName)
    ensures forall x :: x in t && x.serviceName != e.serviceName ==> x in Put(t, e)
    decreases |t|
  {
    if |t| == 0 {
    } else if t[0].serviceName == e.serviceName {
      BelowIrreflexive(e.serviceName);
      assert forall x :: x in t ==> x == t[0] || x in t[1..];
    } else if Below(e.serviceName, t[0].serviceName) {
      BelowAllAfter(e, t);
      BelowIrreflexive(e.serviceName);
    } else {
      BelowTotal(e.serviceName, t[0].serviceName);
      PutSpec(t[1..], e);
      assert forall x :: x in t ==> x == t[0] || x in t[1..];
    }
  }

  /** The table `t` lists exactly the entries of `m`, one per name, in ascending order. */
  predicate Represents(t: seq<Entry>, m: map<string, Entry>) {
    && Sorted(t)
    && Names(t) == m.Keys
    && forall e :: e in t ==> e.serviceName in m && m[e.serviceName] == e
  }

  lemma PutRepresents(t: seq<Entry>, m: map<string, Entry>, e: Entry)
    requires Represents(t, m)
    ensures Represents(Put(t, e), m[e.serviceName := e])
  {
    PutSpec(t, e);
    var r := Put(t, e);
    var m' := m[e.serviceName := e];
    forall n | n in m'.Keys
      ensures n in Names(r)
    {
      if n != e.serviceName {
        var x :| x in t && x.serviceName == n;
        assert x in r;
      }
    }
  }

  /** The entry one consumer yields; `query` is its position in the consumer list. */
  function Fetch(c: Consumer, registry: Registry, fetch: nat, query: nat): (e: Entry)
    ensures e.serviceName == c.serviceName && e.loadBalance == c.loadBalance
  {
    Entry(c.serviceName, c.loadBalance, GetNodesOne(c, registry, fetch, query))
  }

  /** The consumers `cs`, numbered from `base`, written into the table one after another. */
  function Gather(t: seq<Entry>, cs: seq<Consumer>, base: nat, registry: Registry, fetch: nat): seq<Entry>
    decreases |cs|
  {
    if |cs| == 0 then t
    else Gather(Put(t, Fetch(cs[0], registry, fetch, base)), cs[1..], base + 1, registry, fetch)
  }

  /** The outer `foreach (array_chunk(...))`: one group after another. */
  function GatherChunks(t: seq<Entry>, chunks: seq<seq<Consumer>>, base: nat, registry: Registry, fetch: nat): seq<Entry>
    decreases |chunks|
  {
    if |chunks| == 0 then t
    else GatherChunks(Gather(t, chunks[0], base, registry, fetch), chunks[1..], base + |chunks[0]|, registry, fetch)
  }

  /** `array_values`: the entries as batch items. */
  function ToBatch(t: seq<Entry>): (b: Batch)
    ensures |b| == |t|
    ensures forall i :: 0 <= i < |t| ==> b[i] == Gathered(t[i].serviceName, t[i].loadBalance, t[i].nodes)
  {
    seq(|t|, i requires 0 <= i < |t| => Gathered(t[i].serviceName, t[i].loadBalance, t[i].nodes))
  }

  /** `getNodes()` */
  function GetNodes(client: State, registry: Registry, fetch: nat): Batch {
    ToBatch(GatherChunks([], Chunks(client.consumers, ChunkSize), 0, registry, fetch))
  }

  // ---------------------------------------------------------------------------
  // Reference definition of `$outData`, and the lemmas tying getNodes to it

  /** The entry each consumer yields, given its position in the consumer list. */
  function Fetcher(registry: Registry, fetch: nat): (Consumer, nat) -> Entry {
    (c: Consumer, query: nat) => Fetch(c, registry, fetch, query)
  }

  /**
   * `$outData` as a map, the consumers queried strictly one after another;
   * `entryOf` is what each consumer yields (`Fetcher` for `getNodes`).
   */
  function Latest(m: map<string, Entry>, cs: seq<Consumer>, base: nat, entryOf: (Consumer, nat) -> Entry): map<string, Entry>
    decreases |cs|
  {
    if |cs| == 0 then m
    else Latest(m[cs[0].serviceName := entryOf(cs[0], base)], cs[1..], base + 1, entryOf)
  }

  /** The position of the last consumer named `name`, or -1. */
  function LastIndexOf(cs: seq<Consumer>, name: string): (i: int)
    ensures -1 <= i < |cs|
    ensures 0 <= i ==> cs[i].serviceName == name
    ensures forall j :: i < j < |cs| ==> cs[j].serviceName != name
    decreases |cs|
  {
    if |cs| == 0 then -1
    else if cs[|cs| - 1].serviceName == name then |cs| - 1
    else LastIndexOf(cs[..|cs| - 1], name)
  }

  function ServiceNames(cs: seq<Consumer>): set<string> {
    set c | c in cs :: c.serviceName
  }

  lemma {:induction false} GatherConcat(t: seq<Entry>, a: seq<Consumer>, b: seq<Consumer>, base: nat, registry: Registry, fetch: nat)
    ensures Gather(t, a + b, base, registry, fetch) == Gather(Gather(t, a, base, registry, fetch), b, base + |a|, registry, fetch)
    decreases |a|
  {
    if |a| == 0 {
      assert a + b == b;
    } else {
      assert (a + b)[0] == a[0];
      assert (a + b)[1..] == a[1..] + b;
      GatherConcat(Put(t, Fetch(a[0], registry, fetch, base)), a[1..], b, base + 1, registry, fetch);
    }
  }

  /** Processing the groups one after another is processing the whole list in order. */
  lemma {:induction false} GatherChunksFlatten(t: seq<Entry>, chunks: seq<seq<Consumer>>, base: nat, registry: Registry, fetch: nat)
    ensures GatherChunks(t, chunks, base, registry, fetch) == Gather(t, Flatten(chunks), base, registry, fetch)
    decreases |chunks|
  {
    if |chunks| > 0 {
      GatherConcat(t, chunks[0], Flatten(chunks[1..]), base, registry, fetch);
      GatherChunksFlatten(Gather(t, chunks[0], base, registry, fetch), chunks[1..], base + |chunks[0]|, registry, fetch);
    }
  }

  lemma {:induction false} GatherRepresents(t: seq<Entry>, m: map<string, Entry>, cs: seq<Consumer>, base: nat, registry: Registry, fetch: nat)
    requires Represents(t, m)
    ensures Represents(Gather(t, cs, base, registry, fetch), Latest(m, cs, base, Fetcher(registry, fetch)))
    decreases |cs|
  {
    if |cs| > 0 {
      var e := Fetch(cs[0], registry, fetch, base);
      assert Fetcher(registry, fetch)(cs[0], base) == e;
      PutRepresents(t, m, e);
      GatherRepresents(Put(t, e), m[cs[0].serviceName := e], cs[1..], base + 1, registry, fetch);
    }
  }

  /** In `Latest`, each name holds the entry of the last consumer carrying it. */
  lemma {:induction false} LatestIsLastWriter(m: map<string, Entry>, cs: seq<Consumer>, base: nat, entryOf: (Consumer, nat) -> Entry, name: string)
    ensures var r := Latest(m, cs, base, entryOf);
      var i := LastIndexOf(cs, name);
      && (name in r <==> name in m || 0 <= i)
      && (0 <= i ==> r[name] == entryOf(cs[i], base + i))
      && (i < 0 && name in m ==> r[name] == m[name])
  {
    var i := LastIndexOf(cs, name);
    if 0 <= i {
      LatestLastWrite(m, cs, base, entryOf, i);
    } else {
      LatestUntouched(m, cs, base, entryOf, name);
    }
  }

  /** A name no consumer carries keeps its place in `Latest`, or its absence. */
  lemma {:induction false} LatestUntouched(m: map<string, Entry>, cs: seq<Consumer>, base: nat, entryOf: (Consumer, nat) -> Entry, name: string)
    requires forall j :: 0 <= j < |cs| ==> cs[j].serviceName != name
    ensures var r := Latest(m, cs, base, entryOf);
      && (name in r <==> name in m)
      && (name in m ==> r[name] == m[name])
    decreases |cs|
  {
    if |cs| > 0 {
      assert cs[0].serviceName != name;
      assert forall j :: 0 <= j < |cs[1..]| ==> cs[1..][j] == cs[j + 1];
      LatestUntouched(m[cs[0].serviceName := entryOf(cs[0], base)], cs[1..], base + 1, entryOf, name);
    }
  }

  /** The consumer at `i`, when no later one shares its name, is the entry `Latest` keeps for it. */
  lemma {:induction false} LatestLastWrite(m: map<string, Entry>, cs: seq<Consumer>, base: nat, entryOf: (Consumer, nat) -> Entry, i: nat)
    requires i < |cs|
    requires forall j :: i < j < |cs| ==> cs[j].serviceName != cs[i].serviceName
    ensures var r := Latest(m, cs, base, entryOf);
      cs[i].serviceName in r && r[cs[i].serviceName] == entryOf(cs[i], base + i)
    decreases |cs|
  {
    var m' := m[cs[0].serviceName := entryOf(cs[0], base)];
    assert forall j :: 0 <= j < |cs[1..]| ==> cs[1..][j] == cs[j + 1];
    if i == 0 {
      LatestUntouched(m', cs[1..], base + 1, entryOf, cs[0].serviceName);
    } else {
      LatestLastWrite(m', cs[1..], base + 1, entryOf, i - 1);
    }
  }

  lemma LatestKeys(cs: seq<Consumer>, entryOf: (Consumer, nat) -> Entry)
    ensures Latest(map[], cs, 0, entryOf).Keys == ServiceNames(cs)
  {
    var r := Latest(map[], cs, 0, entryOf);
    forall name
      ensures name in r <==> name in ServiceNames(cs)
    {
      LatestIsLastWriter(map[], cs, 0, entryOf, name);
      var i := LastIndexOf(cs, name);
      if name in ServiceNames(cs) {
        var c :| c in cs && c.serviceName == name;
        var j :| 0 <= j < |cs| && cs[j] == c;
        assert 0 <= i;
      }
      if 0 <= i {
        assert cs[i] in cs;
      }
    }
  }

  /** A strictly sorted table holds as many entries as distinct names. */
  lemma {:induction false} SortedNamesCount(t: seq<Entry>)
    requires Sorted(t)
    ensures |Names(t)| == |t|
    decreases |t|
  {
    if 0 < |t| {
      SortedNamesCount(t[1..]);
      assert Names(t) == {t[0].serviceName} + Names(t[1..]);
      BelowIrreflexive(t[0].serviceName);
      forall e | e in t[1..]
        ensures e.serviceName != t[0].serviceName
      {
        var j :| 0 <= j < |t[1..]| && t[1..][j] == e;
        assert Below(t[0].serviceName, t[j + 1].serviceName);
      }
      assert t[0].serviceName !in Names(t[1..]);
    }
  }

  /** The table `getNodes` builds, before it becomes a batch. */
  function Table(client: State, registry: Registry, fetch: nat): seq<Entry> {
    GatherChunks([], Chunks(client.consumers, ChunkSize), 0, registry, fetch)
  }

  lemma TableRepresentsLatest(client: State, registry: Registry, fetch: nat)
    ensures Represents(Table(client, registry, fetch), Latest(map[], client.consumers, 0, Fetcher(registry, fetch)))
  {
    GatherChunksFlatten([], Chunks(client.consumers, ChunkSize), 0, registry, fetch);
    GatherRepresents([], map[], client.consumers, 0, registry, fetch);
  }

  /** The entry of the last consumer named `name`. */
  predicate FromLastConsumer(e: Entry, cs: seq<Consumer>, registry: Registry, fetch: nat) {
    var k := LastIndexOf(cs, e.serviceName);
    0 <= k && e == Fetch(cs[k], registry, fetch, k)
  }

  /**
   * The table `getNodes` builds: ascending, one entry per distinct consumer
   * name, each entry the one the last consumer with that name produced.
   */
  lemma TableSpec(client: State, registry: Registry, fetch: nat)
    ensures var t := Table(client, registry, fetch);
      && Sorted(t)
      && Names(t) == ServiceNames(client.consumers)
      && |t| == |ServiceNames(client.consumers)|
      && forall e :: e in t ==> FromLastConsumer(e, client.consumers, registry, fetch)
  {
    TableRepresentsLatest(client, registry, fetch);
    LatestKeys(client.consumers, Fetcher(registry, fetch));
    SortedNamesCount(Table(client, registry, fetch));
    TableFromLastConsumers(client, registry, fetch);
  }

  lemma TableFromLastConsumers(client: State, registry: Registry, fetch: nat)
    ensures forall e :: e in Table(client, registry, fetch) ==> FromLastConsumer(e, client.consumers, registry, fetch)
  {
    var cs := client.consumers;
    var m := Latest(map[], cs, 0, Fetcher(registry, fetch));
    TableRepresentsLatest(client, registry, fetch);
    forall e | e in Table(client, registry, fetch)
      ensures FromLastConsumer(e, cs, registry, fetch)
    {
      LatestEntryFromLastConsumer(cs, registry, fetch, e);
    }
  }

  /** An entry `Latest` keeps under its own name is the last same-named consumer's. */
  lemma LatestEntryFromLastConsumer(cs: seq<Consumer>, registry: Registry, fetch: nat, e: Entry)
    requires var m := Latest(map[], cs, 0, Fetcher(registry, fetch)); e.serviceName in m && m[e.serviceName] == e
    ensures FromLastConsumer(e, cs, registry, fetch)
  {
    LatestIsLastWriter(map[], cs, 0, Fetcher(registry, fetch), e.serviceName);
  }

  /**
   * `getNodes` lists every distinct consumer name exactly once, ascending,
   * each item carrying a name and a node list; its balancer name is set
   * exactly when the last consumer of that name configured one.
   */
  lemma GetNodesListsEachServiceOnce(client: State, registry: Registry, fetch: nat)
    ensures var batch := GetNodes(client, registry, fetch);
      && |batch| == |ServiceNames(client.consumers)|
      && (forall i :: 0 <= i < |batch| ==> batch[i].serviceName.Some? && batch[i].nodes.Some?)
      && (forall i :: 0 <= i < |batch| ==>
            var k := LastIndexOf(client.consumers, batch[i].serviceName.value);
            0 <= k && (batch[i].loadBalance.Some? <==> client.consumers[k].loadBalance.Some?))
      && (forall i, j :: 0 <= i < j < |batch| ==>
            Below(batch[i].serviceName.value, batch[j].serviceName.value))
  {
    TableSpec(client, registry, fetch);
    var batch := GetNodes(client, registry, fetch);
    forall i | 0 <= i < |batch|
      ensures var k := LastIndexOf(client.consumers, batch[i].serviceName.value);
        0 <= k && (batch[i].loadBalance.Some? <==> client.consumers[k].loadBalance.Some?)
    {
      GetNodesLastConsumerWins(client, registry, fetch, i);
    }
  }

  /** Every consumer's service appears in the `getNodes` result, even one whose query failed. */
  lemma GetNodesCoversConsumers(client: State, registry: Registry, fetch: nat, c: Consumer)
    requires c in client.consumers
    ensures exists i :: 0 <= i < |GetNodes(client, registry, fetch)| && GetNodes(client, registry, fetch)[i].serviceName == Some(c.serviceName)
  {
    var t := Table(client, registry, fetch);
    TableSpec(client, registry, fetch);
    assert c.serviceName in Names(t);
    var e :| e in t && e.serviceName == c.serviceName;
    var i :| 0 <= i < |t| && t[i] == e;
    assert GetNodes(client, registry, fetch)[i].serviceName == Some(c.serviceName);
  }

  /**
   * Each `getNodes` item is the last same-named consumer's balancer name and
   * query result; all its nodes are fresh objects of this fetch.
   */
  lemma GetNodesLastConsumerWins(client: State, registry: Registry, fetch: nat, i: nat)
    requires i < |GetNodes(client, registry, fetch)|
    ensures var cs := client.consumers;
      var item := GetNodes(client, registry, fetch)[i];
      var k := LastIndexOf(cs, item.serviceName.value);
      && item.serviceName.Some?
      && 0 <= k
      && item == Gathered(cs[k].serviceName, cs[k].loadBalance, GetNodesOne(cs[k], registry, fetch, k))
  {
    var t := Table(client, registry, fetch);
    TableSpec(client, registry, fetch);
    assert t[i] in t;
  }

  /** Every node in a `getNodes` result is a fresh object of this fetch. */
  lemma GetNodesAllocatesFresh(client: State, registry: Registry, fetch: nat)
    ensures AllocatedIn(GetNodes(client, registry, fetch), fetch)
  {
    var batch := GetNodes(client, registry, fetch);
    forall i | 0 <= i < |batch|
      ensures batch[i].nodes.Some? && forall n :: n in batch[i].nodes.value ==> n.ref.fetch == fetch
    {
      GetNodesLastConsumerWins(client, registry, fetch, i);
    }
  }

  /** A consumer whose query fails still appears, with no nodes. */
  lemma FailedFetchStillListed(client: State, registry: Registry, fetch: nat, k: nat)
    requires k < |client.consumers|
    requires LastIndexOf(client.consumers, client.consumers[k].serviceName) == k
    requires Answered(registry(RequestOf(client.consumers[k]))) == []
    ensures Gathered(client.consumers[k].serviceName, client.consumers[k].loadBalance, []) in GetNodes(client, registry, fetch)
  {
    var batch := GetNodes(client, registry, fetch);
    var c := client.consumers[k];
    GetNodesCoversConsumers(client, registry, fetch, c);
    var i :| 0 <= i < |batch| && batch[i].serviceName == Some(c.serviceName);
    GetNodesLastConsumerWins(client, registry, fetch, i);
  }

  lemma BelowAsymmetric(a: string, b: string)
    ensures !(Below(a, b) && Below(b, a))
  {
    if Below(a, b) && Below(b, a) {
      BelowTransitive(a, b, a);
      BelowIrreflexive(a);
    }
  }

  /** Two strictly sorted name lists with the same names are the same list. */
  lemma {:induction false} SortedNamesUnique(a: seq<string>, b: seq<string>)
    requires forall i, j :: 0 <= i < j < |a| ==> Below(a[i], a[j])
    requires forall i, j :: 0 <= i < j < |b| ==> Below(b[i], b[j])
    requires forall x :: x in a <==> x in b
    ensures a == b
    decreases |a| + |b|
  {
    if 0 < |a| {
      assert a[0] in a;
    }
    if 0 < |b| {
      assert b[0] in b;
    }
    if 0 < |a| && 0 < |b| {
      var j :| 0 <= j < |b| && b[j] == a[0];
      var i :| 0 <= i < |a| && a[i] == b[0];
      BelowAsymmetric(a[0], b[0]);
      assert a[0] == b[0];
      forall x
        ensures x in a[1..] <==> x in b[1..]
      {
        BelowIrreflexive(x);
        if x in a[1..] {
          var j :| 1 <= j < |a| && a[j] == x;
          assert x in b;
        }
        if x in b[1..] {
          var j :| 1 <= j < |b| && b[j] == x;
          assert x in a;
        }
      }
      SortedNamesUnique(a[1..], b[1..]);
      assert a == [a[0]] + a[1..] && b == [b[0]] + b[1..];
    }
  }

  function NameList(t: seq<Entry>): (names: seq<string>)
    ensures |names| == |t|
    ensures forall i :: 0 <= i < |t| ==> names[i] == t[i].serviceName
  {
    seq(|t|, i requires 0 <= i < |t| => t[i].serviceName)
  }

  lemma NameListMembers(t: seq<Entry>)
    ensures forall x :: x in NameList(t) <==> x in Names(t)
  {
    forall x | x in Names(t)
      ensures x in NameList(t)
    {
      var e :| e in t && e.serviceName == x;
      var i :| 0 <= i < |t| && t[i] == e;
      assert NameList(t)[i] == x;
    }
  }

  /**
   * Two fetches for the same consumers list the same names and balancer
   * names at the same positions; only the nodes can differ.
   */
  lemma GetNodesShape(client: State, r1: Registry, f1: nat, r2: Registry, f2: nat)
    ensures var a := GetNodes(client, r1, f1);
      var b := GetNodes(client, r2, f2);
      && |a| == |b|
      && forall i :: 0 <= i < |a| ==>
           a[i].serviceName == b[i].serviceName && a[i].loadBalance == b[i].loadBalance && a[i].nodes.Some? && b[i].nodes.Some?
  {
    var cs := client.consumers;
    var t1 := Table(client, r1, f1);
    var t2 := Table(client, r2, f2);
    TableSpec(client, r1, f1);
    TableSpec(client, r2, f2);
    NameListMembers(t1);
    NameListMembers(t2);
    SortedNamesUnique(NameList(t1), NameList(t2));
    forall i | 0 <= i < |t1|
      ensures t1[i].serviceName == t2[i].serviceName && t1[i].loadBalance == t2[i].loadBalance
    {
      assert NameList(t1)[i] == NameList(t2)[i];
      assert t1[i] in t1 && t2[i] in t2;
    }
  }

  // ---------------------------------------------------------------------------
  // init: the UDP port, the consumers

  /** A server entry named 'udp' whose packet callback class is the push listener. */
  predicate IsPushListener(s: ServerConfig) {
    s.name == Some("udp") && s.packetCallback == Some(UdpServerClass)
  }

  /**
   * The `foreach ($servers …)` of `init`: it stops only once the port found
   * so far is positive, so a listener entry with a port of 0 or below does
   * not end the search.
   */
  function ScanUdpPort(servers: seq<ServerConfig>, found: int): int
    decreases |servers|
  {
    if |servers| == 0 || found > 0 then found
    else ScanUdpPort(servers[1..], if IsPushListener(servers[0]) then servers[0].port else found)
  }

  function UdpPort(servers: seq<ServerConfig>): int {
    ScanUdpPort(servers, 0)
  }

  lemma {:induction false} ScanUdpPortChoice(servers: seq<ServerConfig>, found: int)
    ensures var p := ScanUdpPort(servers, found);
      && (found > 0 ==> p == found)
      && (found <= 0 && p > 0 ==>
            exists i :: 0 <= i < |servers| && IsPushListener(servers[i]) && servers[i].port == p
              && forall j :: 0 <= j < i && IsPushListener(servers[j]) ==> servers[j].port <= 0)
      && (found <= 0 && p <= 0 ==> forall i :: 0 <= i < |servers| && IsPushListener(servers[i]) ==> servers[i].port <= 0)
      && (found <= 0 && p <= 0 ==>
            (p == found && forall i :: 0 <= i < |servers| ==> !IsPushListener(servers[i]))
            || exists i :: 0 <= i < |servers| && IsPushListener(servers[i]) && servers[i].port == p
                 && forall j :: i < j < |servers| ==> !IsPushListener(servers[j]))
    decreases |servers|
  {
    if |servers| > 0 && found <= 0 {
      var s := servers[0];
      var found' := if IsPushListener(s) then s.port else found;
      ScanUdpPortChoice(servers[1..], found');
      var p := ScanUdpPort(servers, found);
      assert p == ScanUdpPort(servers[1..], found');
      if p > 0 {
        if IsPushListener(s) && s.port > 0 {
          assert p == s.port;
        } else {
          var i :| 0 <= i < |servers[1..]| && IsPushListener(servers[1..][i]) && servers[1..][i].port == p
            && forall j :: 0 <= j < i && IsPushListener(servers[1..][j]) ==> servers[1..][j].port <= 0;
          assert IsPushListener(servers[i + 1]) && servers[i + 1].port == p;
          forall j | 0 <= j < i + 1 && IsPushListener(servers[j])
            ensures servers[j].port <= 0
          {
            if 0 < j {
              assert servers[j] == servers[1..][j - 1];
            }
          }
        }
      } else {
        forall i | 0 <= i < |servers| && IsPushListener(servers[i])
          ensures servers[i].port <= 0
        {
          if 0 < i {
            assert servers[i] == servers[1..][i - 1];
          }
        }
        if p == found' && forall i :: 0 <= i < |servers[1..]| ==> !IsPushListener(servers[1..][i]) {
          if IsPushListener(s) {
            assert p == s.port;
            forall j | 0 < j < |servers|
              ensures !IsPushListener(servers[j])
            {
              assert servers[j] == servers[1..][j - 1];
            }
          } else {
            forall j | 0 <= j < |servers|
              ensures !IsPushListener(servers[j])
            {
              if 0 < j {
                assert servers[j] == servers[1..][j - 1];
              }
            }
          }
        } else {
          var i :| 0 <= i < |servers[1..]| && IsPushListener(servers[1..][i]) && servers[1..][i].port == p
            && forall j :: i < j < |servers[1..]| ==> !IsPushListener(servers[1..][j]);
          assert IsPushListener(servers[i + 1]) && servers[i + 1].port == p;
          forall j | i + 1 < j < |servers|
            ensures !IsPushListener(servers[j])
          {
            assert servers[j] == servers[1..][j - 1];
          }
        }
      }
    }
  }

  /**
   * The UDP port `init` records: the port of the first push-listener entry
   * with a positive port; failing that, the port of the last push-listener
   * entry; and 0 when there is none.
   */
  lemma UdpPortChoice(servers: seq<ServerConfig>)
    ensures var p := UdpPort(servers);
      && (p > 0 ==>
            exists i :: 0 <= i < |servers| && IsPushListener(servers[i]) && servers[i].port == p
              && forall j :: 0 <= j < i && IsPushListener(servers[j]) ==> servers[j].port <= 0)
      && (p <= 0 ==> forall i :: 0 <= i < |servers| && IsPushListener(servers[i]) ==> servers[i].port <= 0)
      && ((forall i :: 0 <= i < |servers| ==> !IsPushListener(servers[i])) ==> p == 0)
      && (p <= 0 && (exists i :: 0 <= i < |servers| && IsPushListener(servers[i])) ==>
            exists i :: 0 <= i < |servers| && IsPushListener(servers[i]) && servers[i].port == p
              && forall j :: i < j < |servers| ==> !IsPushListener(servers[j]))
  {
    ScanUdpPortChoice(servers, 0);
  }

  /** One consumer array of `getServices`. */
  function ConsumerFor(entry: ConsumerConfig, client: State, groupName: Option<string>): Consumer {
    Consumer(entry.name, entry.loadBalancer, entry.namespaceId, client.udpPort, client.clientIp, client.appName, groupName, [])
  }

  /** `getServices()`: builds the consumer list once; a populated list is kept. */
  function GetServices(client: State, config: Config): (r: State)
    ensures r.clientIp == client.clientIp && r.udpPort == client.udpPort && r.appName == client.appName
    ensures 0 < |client.consumers| ==> r.consumers == client.consumers
    ensures |client.consumers| == 0 ==> |r.consumers| == |config.consumers|
    ensures |client.consumers| == 0 ==> forall i :: 0 <= i < |config.consumers| ==>
      var c := r.consumers[i];
      && c.serviceName == config.consumers[i].name
      && c.loadBalance == config.consumers[i].loadBalancer
      && c.namespaceId == config.consumers[i].namespaceId
      && c.groupName == config.groupName
      && c.udpPort == client.udpPort && c.clientIP == client.clientIp && c.app == client.appName
      && c.nodes == []
  {
    if 0 < |client.consumers| then client
    else client.(consumers := seq(|config.consumers|, i requires 0 <= i < |config.consumers| =>
                                    ConsumerFor(config.consumers[i], client, config.groupName)))
  }

  /** `init()` run by the constructor, with the address `IPReaderInterface::read` returned. */
  function Init(config: Config, clientIp: string): (client: State)
    ensures client.clientIp == clientIp
    ensures client.appName == config.appName.GetOr(DefaultAppName)
    ensures client.udpPort == UdpPort(config.servers)
    ensures |client.consumers| == |config.consumers|
  {
    GetServices(State(clientIp, UdpPort(config.servers), config.appName.GetOr(DefaultAppName), []), config)
  }

  /**
   * For every configured consumer, the push listener's single-service query
   * sends the registry exactly the request the poll makes for that consumer.
   */
  lemma PushAndPollAskAlike(config: Config, clientIp: string, i: nat, groupName: string)
    requires i < |config.consumers|
    requires config.groupName == Some(groupName)
    requires config.consumers[i].namespaceId.Some? && config.consumers[i].loadBalancer.Some?
    ensures var client := Init(config, clientIp);
      var c := client.consumers[i];
      RequestOf(ListenerQuery(client, config.consumers[i].name, groupName,
                              config.consumers[i].namespaceId.value, config.consumers[i].loadBalancer.value)) == RequestOf(c)
  {
  }
}

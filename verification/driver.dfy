/**
 * The driver (`Driver\AbstractDriver`): applying a batch to this process's
 * load balancers, and spreading it to the other processes of the server.
 *
 * A process is a value: its balancers (one node list per
 * `(serviceName, loadBalance)` pair, as the driver asks the balancer manager
 * for them), the Swoole server it is bound to, if any, and the user
 * processes the process collector holds. An operation returns the new
 * balancers and the actions it took, in order; sending is an action, so
 * "sends nothing" is a statement about that list.
 */
module Driver {
  import opened Php
  import opened Batches
  import opened PipeMessages

  type LbKey = (string, string)

  /** The node list each balancer instance was last given. */
  type Balancers = map<LbKey, seq<Node>>

  /** The Swoole server: `getWorkerId()` (non-numeric outside a worker) and the pool sizes. */
  datatype Server = Server(workerId: Option<int>, workerNum: int, taskWorkerNum: Option<int>)

  /** A collected user process; `socketAccepts` is whether its socket `send` succeeds. */
  datatype UserProcess = UserProcess(name: string, socketAccepts: bool)

  /**
   * The state one driver instance works on. `collectorLoaded` is whether the
   * `ProcessCollector` class exists; `collected` is `ProcessCollector::all()`.
   */
  datatype Process = Process(balancers: Balancers, server: Option<Server>, collectorLoaded: bool, collected: seq<UserProcess>)

  datatype Action =
    | UpdatedLocally
    | SentToWorker(workerId: int, message: PipeMessage)
    | SentToProcess(process: UserProcess, message: PipeMessage, delivered: bool)

  datatype Effect = Effect(balancers: Balancers, actions: seq<Action>)

  predicate IsSend(a: Action) {
    a.SentToWorker? || a.SentToProcess?
  }

  // ---------------------------------------------------------------------------
  // updateNodes

  /** The item has `serviceName`, `loadBalance` and `nodes` set; other items are skipped. */
  predicate Applicable(item: Item) {
    item.serviceName.Some? && item.loadBalance.Some? && item.nodes.Some?
  }

  function KeyOf(item: Item): LbKey
    requires Applicable(item)
  {
    (item.serviceName.value, item.loadBalance.value)
  }

  /** One iteration of the `foreach`: `setNodes` on the named balancer, even with no nodes. */
  function Apply(balancers: Balancers, item: Item): Balancers {
    if Applicable(item) then balancers[KeyOf(item) := item.nodes.value] else balancers
  }

  /** `updateNodes($batch)` */
  function UpdateNodes(balancers: Balancers, batch: Batch): (r: Balancers)
    ensures balancers.Keys <= r.Keys
    ensures forall i :: 0 <= i < |batch| && Applicable(batch[i]) ==> KeyOf(batch[i]) in r
    decreases |batch|
  {
    if |batch| == 0 then balancers else UpdateNodes(Apply(balancers, batch[0]), batch[1..])
  }

  /**
   * Reference for `updateNodes`: the nodes of the last applicable item
   * naming `key`, or `None` when no applicable item names it.
   */
  function LastNodes(batch: Batch, key: LbKey): (r: Option<seq<Node>>)
    ensures r.None? <==> forall i :: 0 <= i < |batch| && Applicable(batch[i]) ==> KeyOf(batch[i]) != key
    ensures r.Some? ==> exists i :: (0 <= i < |batch| && Applicable(batch[i]) && KeyOf(batch[i]) == key
      && batch[i].nodes.value == r.value
      && forall j :: i < j < |batch| && Applicable(batch[j]) ==> KeyOf(batch[j]) != key)
    decreases |batch|
  {
    if |batch| == 0 then None
    else
      var last := batch[|batch| - 1];
      if Applicable(last) && KeyOf(last) == key then Some(last.nodes.value)
      else
        var r := LastNodes(batch[..|batch| - 1], key);
        assert forall i :: 0 <= i < |batch| - 1 ==> batch[..|batch| - 1][i] == batch[i];
        r
  }

  lemma {:induction false} UpdateNodesSnoc(balancers: Balancers, batch: Batch, item: Item)
    ensures UpdateNodes(balancers, batch + [item]) == Apply(UpdateNodes(balancers, batch), item)
    decreases |batch|
  {
    if |batch| == 0 {
      assert [item][1..] == [];
    } else {
      assert (batch + [item])[0] == batch[0];
      assert (batch + [item])[1..] == batch[1..] + [item];
      UpdateNodesSnoc(Apply(balancers, batch[0]), batch[1..], item);
    }
  }

  /**
   * After `updateNodes`, a balancer named by an applicable item holds the
   * nodes of the last such item; every other balancer is as it was.
   */
  lemma {:induction false} UpdateNodesSpec(balancers: Balancers, batch: Batch, key: LbKey)
    ensures var r := UpdateNodes(balancers, batch);
      && (LastNodes(batch, key).Some? ==> key in r && r[key] == LastNodes(batch, key).value)
      && (LastNodes(batch, key).None? ==> (key in r <==> key in balancers) && (key in balancers ==> r[key] == balancers[key]))
    decreases |batch|
  {
    if |batch| > 0 {
      var prefix := batch[..|batch| - 1];
      var last := batch[|batch| - 1];
      assert batch == prefix + [last];
      UpdateNodesSnoc(balancers, prefix, last);
      UpdateNodesSpec(balancers, prefix, key);
    }
  }

  /** Each applicable item not overridden later sets exactly its own nodes, even an empty list. */
  lemma UpdateNodesSetsItem(balancers: Balancers, batch: Batch, i: nat)
    requires i < |batch| && Applicable(batch[i])
    requires forall j :: i < j < |batch| && Applicable(batch[j]) ==> KeyOf(batch[j]) != KeyOf(batch[i])
    ensures KeyOf(batch[i]) in UpdateNodes(balancers, batch)
    ensures UpdateNodes(balancers, batch)[KeyOf(batch[i])] == batch[i].nodes.value
  {
    var key := KeyOf(batch[i]);
    UpdateNodesSpec(balancers, batch, key);
    var r := LastNodes(batch, key);
    var i' :| 0 <= i' < |batch| && Applicable(batch[i']) && KeyOf(batch[i']) == key
      && batch[i'].nodes.value == r.value
      && forall j :: i' < j < |batch| && Applicable(batch[j]) ==> KeyOf(batch[j]) != key;
    assert i' == i;
  }

  /** A balancer no applicable item names is left as it was. */
  lemma UpdateNodesLeavesOthers(balancers: Balancers, batch: Batch, key: LbKey)
    requires forall i :: 0 <= i < |batch| && Applicable(batch[i]) ==> KeyOf(batch[i]) != key
    ensures key in UpdateNodes(balancers, batch) <==> key in balancers
    ensures key in balancers ==> UpdateNodes(balancers, batch)[key] == balancers[key]
  {
    UpdateNodesSpec(balancers, batch, key);
  }

  /** Applying the same batch twice leaves the balancers as applying it once. */
  lemma UpdateNodesIdempotent(balancers: Balancers, batch: Batch)
    ensures UpdateNodes(UpdateNodes(balancers, batch), batch) == UpdateNodes(balancers, batch)
  {
    var once := UpdateNodes(balancers, batch);
    var twice := UpdateNodes(once, batch);
    forall key | key in once || key in twice
      ensures key in once && key in twice && twice[key] == once[key]
    {
      UpdateNodesSpec(balancers, batch, key);
      UpdateNodesSpec(once, batch, key);
    }
    assert twice.Keys == once.Keys;
  }

  // ---------------------------------------------------------------------------
  // Fan-out

  /** The highest worker id: `worker_num + (task_worker_num ?? 0) - 1`. */
  function LastWorkerId(s: Server): int {
    s.workerNum + s.taskWorkerNum.GetOr(0) - 1
  }

  /** The ids `from ..= last`, ascending, leaving out `self`. */
  function IdsFrom(from: int, last: int, self: Option<int>): (ids: seq<int>)
    ensures forall id :: id in ids <==> from <= id <= last && self != Some(id)
    ensures forall i, j :: 0 <= i < j < |ids| ==> ids[i] < ids[j]
    decreases last - from + 1
  {
    if from > last then []
    else
      var rest := IdsFrom(from + 1, last, self);
      assert forall k :: 0 <= k < |rest| ==> from < rest[k] by {
        forall k | 0 <= k < |rest| ensures from < rest[k] {
          assert rest[k] in rest;
        }
      }
      (if self == Some(from) then [] else [from]) + rest
  }

  /** The worker ids `shareMessageToWorkers` sends to. */
  function WorkerRecipients(s: Server): (ids: seq<int>)
    ensures forall id :: id in ids <==> 0 <= id <= LastWorkerId(s) && s.workerId != Some(id)
    ensures forall i, j :: 0 <= i < j < |ids| ==> ids[i] < ids[j]
  {
    IdsFrom(0, LastWorkerId(s), s.workerId)
  }

  function WorkerSends(ids: seq<int>, message: PipeMessage): (sends: seq<Action>)
    ensures |sends| == |ids|
    ensures forall i :: 0 <= i < |ids| ==> sends[i] == SentToWorker(ids[i], message)
  {
    seq(|ids|, i requires 0 <= i < |ids| => SentToWorker(ids[i], message))
  }

  /** This process is a Swoole worker, so `getWorkerId()` is numeric. */
  predicate InWorker(p: Process) {
    p.server.Some? && p.server.value.workerId.Some?
  }

  /** The worker ids a fan-out from `p` sends to: none without a server. */
  function Recipients(p: Process): seq<int> {
    if p.server.Some? then WorkerRecipients(p.server.value) else []
  }

  /** How many local updates a fan-out from `p` performs before sending. */
  function LocalUpdates(p: Process): nat {
    if InWorker(p) then 1 else 0
  }

  /** The balancers a fan-out from `p` leaves here: updated only inside a worker. */
  function FanOutBalancers(p: Process, batch: Batch): Balancers {
    if InWorker(p) then UpdateNodes(p.balancers, batch) else p.balancers
  }

  /**
   * `shareMessageToWorkers`: in a worker (numeric id) the batch is applied
   * here first, then sent to every other worker in ascending id order;
   * outside a worker it is sent to all of them and not applied here.
   * Without a server nothing happens.
   */
  function ShareMessageToWorkers(p: Process, message: PipeMessage): (e: Effect)
    ensures p.server.None? ==> e == Effect(p.balancers, [])
    ensures e.balancers == FanOutBalancers(p, message.GetData())
    ensures |e.actions| == LocalUpdates(p) + |Recipients(p)|
    ensures InWorker(p) ==> e.actions[0] == UpdatedLocally
    ensures forall i :: 0 <= i < |Recipients(p)| ==>
      e.actions[LocalUpdates(p) + i] == SentToWorker(Recipients(p)[i], message)
  {
    match p.server
    case None => Effect(p.balancers, [])
    case Some(s) =>
      if s.workerId.Some? then
        Effect(UpdateNodes(p.balancers, message.GetData()), [UpdatedLocally] + WorkerSends(WorkerRecipients(s), message))
      else
        Effect(p.balancers, WorkerSends(WorkerRecipients(s), message))
  }

  /**
   * `shareMessageToUserProcesses`: every collected process is sent the same
   * serialized message, in collector order; a failed send is only logged.
   */
  function ShareMessageToUserProcesses(collected: seq<UserProcess>, message: PipeMessage): (sends: seq<Action>)
    ensures |sends| == |collected|
    ensures forall i :: 0 <= i < |collected| ==>
      sends[i] == SentToProcess(collected[i], message, collected[i].socketAccepts)
  {
    seq(|collected|, i requires 0 <= i < |collected| => SentToProcess(collected[i], message, collected[i].socketAccepts))
  }

  /**
   * What a fan-out of `batch` from `p` does: the balancers of
   * `FanOutBalancers`, then, in order, the local update (inside a worker),
   * one send per recipient worker and one send per collected process, all
   * carrying the same message.
   */
  predicate FanOutLayout(p: Process, batch: Batch, e: Effect) {
    var w := LocalUpdates(p) + |Recipients(p)|;
    && e.balancers == FanOutBalancers(p, batch)
    && |e.actions| == w + |p.collected|
    && (InWorker(p) ==> e.actions[0] == UpdatedLocally)
    && (forall i :: 0 <= i < |Recipients(p)| ==>
      e.actions[LocalUpdates(p) + i] == SentToWorker(Recipients(p)[i], Create(batch)))
    && (forall i :: 0 <= i < |p.collected| ==>
      e.actions[w + i] == SentToProcess(p.collected[i], Create(batch), p.collected[i].socketAccepts))
  }

  /** `shareNodesToProcesses`: wrap the batch once, then workers, then user processes. */
  function ShareNodesToProcesses(p: Process, batch: Batch): (e: Effect)
    ensures FanOutLayout(p, batch, e)
  {
    var message := Create(batch);
    var workers := ShareMessageToWorkers(p, message);
    var processes := ShareMessageToUserProcesses(p.collected, message);
    Effect(workers.balancers, workers.actions + processes)
  }

  /** Fan-out is chosen exactly when the process collector exists and is not empty. */
  predicate FansOut(p: Process) {
    p.collectorLoaded && 0 < |p.collected|
  }

  /**
   * `syncNodes($batch)`: with a non-empty collector, fan out (this worker
   * first, then the other workers, then every user process); otherwise
   * only the local `updateNodes`.
   */
  function SyncNodes(p: Process, batch: Batch): (e: Effect)
    ensures !FansOut(p) ==> e == Effect(UpdateNodes(p.balancers, batch), [UpdatedLocally])
    ensures FansOut(p) ==> FanOutLayout(p, batch, e)
  {
    if FansOut(p) then ShareNodesToProcesses(p, batch)
    else Effect(UpdateNodes(p.balancers, batch), [UpdatedLocally])
  }

  /** In a fan-out layout, the action at `k` past the local update is a send. */
  lemma LayoutSend(p: Process, batch: Batch, e: Effect, k: int)
    requires FanOutLayout(p, batch, e)
    requires LocalUpdates(p) <= k < |e.actions|
    ensures IsSend(e.actions[k]) && e.actions[k].message == Create(batch)
    ensures e.actions[k].SentToWorker? <==> k < LocalUpdates(p) + |Recipients(p)|
    ensures e.actions[k].SentToWorker? ==> e.actions[k].workerId == Recipients(p)[k - LocalUpdates(p)]
  {
    var l := LocalUpdates(p);
    var w := l + |Recipients(p)|;
    if k < w {
      assert e.actions[l + (k - l)] == SentToWorker(Recipients(p)[k - l], Create(batch));
    } else {
      assert e.actions[w + (k - w)] == SentToProcess(p.collected[k - w], Create(batch), p.collected[k - w].socketAccepts);
    }
  }

  /** Every send of a sync carries the batch; a process send happens exactly on fan-out. */
  lemma SyncNodesSends(p: Process, batch: Batch)
    ensures var e := SyncNodes(p, batch);
      && (forall k :: 0 <= k < |e.actions| && IsSend(e.actions[k]) ==> e.actions[k].message.GetData() == batch)
      && (FansOut(p) <==> exists k :: 0 <= k < |e.actions| && e.actions[k].SentToProcess?)
  {
    var e := SyncNodes(p, batch);
    if FansOut(p) {
      forall k | 0 <= k < |e.actions| && IsSend(e.actions[k])
        ensures e.actions[k].message.GetData() == batch
      {
        if LocalUpdates(p) <= k {
          LayoutSend(p, batch, e, k);
        }
      }
      LayoutSend(p, batch, e, |e.actions| - 1);
    }
  }

  /**
   * In a sync the batch is applied here exactly when this process is a
   * worker or there is nobody to fan out to, and then before anything is sent.
   */
  lemma SyncNodesUpdatesLocallyFirst(p: Process, batch: Batch)
    ensures var e := SyncNodes(p, batch);
      && ((exists k :: 0 <= k < |e.actions| && e.actions[k] == UpdatedLocally) <==> InWorker(p) || !FansOut(p))
      && (InWorker(p) || !FansOut(p) ==> e.actions[0] == UpdatedLocally)
      && (forall k :: 0 < k < |e.actions| ==> e.actions[k] != UpdatedLocally)
  {
    var e := SyncNodes(p, batch);
    if FansOut(p) {
      forall k | LocalUpdates(p) <= k < |e.actions|
        ensures e.actions[k] != UpdatedLocally
      {
        LayoutSend(p, batch, e, k);
      }
      if InWorker(p) {
        assert e.actions[0] == UpdatedLocally;
      }
    } else {
      assert e.actions[0] == UpdatedLocally;
    }
  }

  /** The worker ids the actions send to. */
  function WorkersSentTo(actions: seq<Action>): set<int> {
    set k | 0 <= k < |actions| && actions[k].SentToWorker? :: actions[k].workerId
  }

  /** The ids `Recipients` lists. */
  lemma RecipientsSpec(p: Process, id: int)
    ensures id in Recipients(p) <==>
      p.server.Some? && 0 <= id <= LastWorkerId(p.server.value) && p.server.value.workerId != Some(id)
  {
  }

  /** In a fan-out layout, the workers sent to are exactly the recipients. */
  lemma LayoutWorkers(p: Process, batch: Batch, e: Effect)
    requires FanOutLayout(p, batch, e)
    ensures WorkersSentTo(e.actions) ==
      if p.server.None? then {}
      else set id | 0 <= id <= LastWorkerId(p.server.value) && p.server.value.workerId != Some(id)
  {
    var ids := Recipients(p);
    var l := LocalUpdates(p);
    forall id | id in WorkersSentTo(e.actions)
      ensures id in ids
    {
      var k :| 0 <= k < |e.actions| && e.actions[k].SentToWorker? && e.actions[k].workerId == id;
      if l <= k {
        LayoutSend(p, batch, e, k);
        assert ids[k - l] in ids;
      }
    }
    forall id | id in ids
      ensures id in WorkersSentTo(e.actions)
    {
      var i :| 0 <= i < |ids| && ids[i] == id;
      LayoutSend(p, batch, e, l + i);
    }
    forall id
      ensures id in ids <==> p.server.Some? && 0 <= id <= LastWorkerId(p.server.value) && p.server.value.workerId != Some(id)
    {
      RecipientsSpec(p, id);
    }
  }

  /** In a fan-out layout, worker sends go out in ascending id order. */
  lemma LayoutWorkersAscend(p: Process, batch: Batch, e: Effect)
    requires FanOutLayout(p, batch, e)
    ensures forall i, j :: 0 <= i < j < |e.actions| && e.actions[i].SentToWorker? && e.actions[j].SentToWorker? ==>
      e.actions[i].workerId < e.actions[j].workerId
  {
    var l := LocalUpdates(p);
    forall i, j | 0 <= i < j < |e.actions| && e.actions[i].SentToWorker? && e.actions[j].SentToWorker?
      ensures e.actions[i].workerId < e.actions[j].workerId
    {
      if l <= i {
        LayoutSend(p, batch, e, i);
        LayoutSend(p, batch, e, j);
      }
    }
  }

  /**
   * A fan-out sends to every worker id `0 ..= LastWorkerId` except this
   * worker's own, and to no other id; without a server it sends to no worker.
   */
  lemma SyncNodesReachesOtherWorkers(p: Process, batch: Batch)
    requires FansOut(p)
    ensures WorkersSentTo(SyncNodes(p, batch).actions) ==
      if p.server.None? then {}
      else set id | 0 <= id <= LastWorkerId(p.server.value) && p.server.value.workerId != Some(id)
  {
    LayoutWorkers(p, batch, SyncNodes(p, batch));
  }

  /** No worker is sent a sync twice: worker sends go out in ascending id order. */
  lemma SyncNodesWorkerSendsAscend(p: Process, batch: Batch)
    ensures var a := SyncNodes(p, batch).actions;
      forall i, j :: 0 <= i < j < |a| && a[i].SentToWorker? && a[j].SentToWorker? ==> a[i].workerId < a[j].workerId
  {
    if FansOut(p) {
      LayoutWorkersAscend(p, batch, SyncNodes(p, batch));
    }
  }

  /** Every collected user process gets the batch once, in collector order, after all workers. */
  lemma SyncNodesReachesUserProcesses(p: Process, batch: Batch)
    requires FansOut(p)
    ensures var e := SyncNodes(p, batch);
      && |p.collected| <= |e.actions|
      && e.actions[|e.actions| - |p.collected|..] == ShareMessageToUserProcesses(p.collected, Create(batch))
      && forall k :: 0 <= k < |e.actions| - |p.collected| ==> !e.actions[k].SentToProcess?
  {
    var e := SyncNodes(p, batch);
    var l := LocalUpdates(p);
    forall k | 0 <= k < |e.actions| - |p.collected|
      ensures !e.actions[k].SentToProcess?
    {
      if k < l {
        assert e.actions[0] == UpdatedLocally;
      } else {
        LayoutSend(p, batch, e, k);
      }
    }
  }

  /**
   * Syncing the one-item batch of a push, in a worker or without anybody
   * to fan out to, sets that service's balancer to the pushed nodes and
   * leaves every other balancer as it was.
   */
  lemma SyncOfOneService(p: Process, serviceName: string, loadBalance: string, nodes: seq<Node>)
    requires InWorker(p) || !FansOut(p)
    ensures var b := SyncNodes(p, [Snapshot(serviceName, loadBalance, nodes)]).balancers;
      && (serviceName, loadBalance) in b && b[(serviceName, loadBalance)] == nodes
      && forall key :: key != (serviceName, loadBalance) ==>
           (key in b <==> key in p.balancers) && (key in p.balancers ==> b[key] == p.balancers[key])
  {
    var batch := [Snapshot(serviceName, loadBalance, nodes)];
    UpdateNodesSetsItem(p.balancers, batch, 0);
    forall key | key != (serviceName, loadBalance)
      ensures var b := UpdateNodes(p.balancers, batch);
        (key in b <==> key in p.balancers) && (key in p.balancers ==> b[key] == p.balancers[key])
    {
      UpdateNodesLeavesOthers(p.balancers, batch, key);
    }
  }

  // ---------------------------------------------------------------------------
  // The other entry points

  /**
   * `onPipeMessage`: apply the message's batch here; never forward it.
   * Balancers the message names take its last nodes for them; every other
   * balancer is kept as it was, and none is added or removed.
   */
  function OnPipeMessage(p: Process, message: PipeMessage): (e: Effect)
    ensures forall a :: a in e.actions ==> !IsSend(a)
    ensures forall key :: LastNodes(message.GetData(), key).Some? ==>
      key in e.balancers && e.balancers[key] == LastNodes(message.GetData(), key).value
    ensures forall key :: LastNodes(message.GetData(), key).None? ==>
      (key in e.balancers <==> key in p.balancers) && (key in p.balancers ==> e.balancers[key] == p.balancers[key])
  {
    var r := UpdateNodes(p.balancers, message.GetData());
    assert forall key :: (
      && (LastNodes(message.GetData(), key).Some? ==> key in r && r[key] == LastNodes(message.GetData(), key).value)
      && (LastNodes(message.GetData(), key).None? ==>
            (key in r <==> key in p.balancers) && (key in p.balancers ==> r[key] == p.balancers[key]))) by {
      forall key {
        UpdateNodesSpec(p.balancers, message.GetData(), key);
      }
    }
    Effect(r, [UpdatedLocally])
  }

  /** Receiving the same message twice leaves the balancers as receiving it once. */
  lemma OnPipeMessageIdempotent(p: Process, message: PipeMessage)
    ensures var once := OnPipeMessage(p, message).balancers;
      OnPipeMessage(p.(balancers := once), message).balancers == once
  {
    UpdateNodesIdempotent(p.balancers, message.GetData());
  }

  /**
   * A worker that receives a fan-out ends with the balancers the sender
   * reached: both applied the same batch.
   */
  lemma ReceiverMatchesSender(sender: Process, receiver: Process, batch: Batch)
    requires FansOut(sender) && InWorker(sender)
    requires receiver.balancers == sender.balancers
    ensures var e := SyncNodes(sender, batch);
      forall k :: 0 <= k < |e.actions| && e.actions[k].SentToWorker? ==>
        OnPipeMessage(receiver, e.actions[k].message).balancers == e.balancers
  {
    var e := SyncNodes(sender, batch);
    forall k | 0 <= k < |e.actions| && e.actions[k].SentToWorker?
      ensures OnPipeMessage(receiver, e.actions[k].message).balancers == e.balancers
    {
      if LocalUpdates(sender) <= k {
        LayoutSend(sender, batch, e, k);
      }
    }
  }

  /**
   * `fetchInstance($batch)`: the boot-time apply; nothing happens for an
   * empty batch, and nothing is ever sent.
   */
  function FetchInstance(p: Process, batch: Batch): (e: Effect)
    ensures forall a :: a in e.actions ==> !IsSend(a)
    ensures |batch| == 0 ==> e.balancers == p.balancers
    ensures 0 < |batch| ==> e == OnPipeMessage(p, Create(batch))
  {
    if |batch| == 0 then Effect(p.balancers, []) else Effect(UpdateNodes(p.balancers, batch), [UpdatedLocally])
  }

  // ---------------------------------------------------------------------------
  // getInterval

  const NacosDriverName: string := "nacos"
  const DefaultHeartbeat: int := 5

  function HeartbeatKey(driverName: string): string {
    "services.drivers." + driverName + ".heartbeat"
  }

  /**
   * `getInterval()`: the configured heartbeat of this driver cast with
   * `(int)`, 5 seconds when the key is absent.
   */
  function GetInterval(config: map<string, Scalar>, driverName: string): (seconds: int)
    ensures HeartbeatKey(driverName) !in config ==> seconds == DefaultHeartbeat
    ensures HeartbeatKey(driverName) in config ==> var v := config[HeartbeatKey(driverName)];
      && (v.IntVal? ==> seconds == v.i)
      && (v.FloatVal? && 0.0 <= v.f ==> seconds as real <= v.f < seconds as real + 1.0)
      && (v.FloatVal? && v.f < 0.0 ==> seconds as real - 1.0 < v.f <= seconds as real)
      && (v.StringVal? && ParseInt(v.s).Some? ==> seconds == ParseInt(v.s).value)
      && (v == NullVal || v == BoolVal(false) ==> seconds == 0)
  {
    if HeartbeatKey(driverName) in config then IntCast(config[HeartbeatKey(driverName)]) else DefaultHeartbeat
  }

  /**
   * A heartbeat configured as decimal text is read as its leading integer:
   * `"10"` gives 10 seconds and `"2.5"` gives 2.
   */
  lemma GetIntervalOfText(config: map<string, Scalar>, driverName: string, n: int, rest: string)
    requires HeartbeatKey(driverName) in config && config[HeartbeatKey(driverName)] == StringVal(Strval(n) + rest)
    requires |rest| == 0 || !IsDigit(rest[0])
    ensures GetInterval(config, driverName) == n
  {
    IntvalStringReadsStrval(n, rest);
  }
}

/**
 * The poll loop `createMessageInstanceLoop` runs: wait one heartbeat, stop
 * when the worker exits, otherwise fetch the whole batch and sync it when
 * it is not `===` to the previous one. In the default process mode the one
 * instance-fetcher process runs it; in coroutine mode every worker and user
 * process runs its own.
 *
 * Time and the coordinator are abstracted into ticks: each tick says whether
 * the wait ended with the worker exiting, what the fetch produced, and
 * whether syncing threw. A throw escapes to `retry(INF, …)`, which starts
 * the closure again after a pause, with `$prevNodes = []`.
 */
module PollLoop {
  import opened Php
  import opened Batches
  import Client
  import Driver

  datatype Loop = Polling(prevNodes: Batch) | Stopped

  datatype Fetch = Fetched(batch: Batch) | FetchThrew

  datatype Tick = Tick(workerExited: bool, fetch: Fetch, syncThrew: bool)

  /** The loop after one tick, and the batch handed to `syncNodes`, if any. */
  datatype StepResult = StepResult(next: Loop, synced: Option<Batch>)

  /** The state the closure starts in, first and after every retry. */
  function Start(): (loop: Loop)
    ensures loop.Polling? && |loop.prevNodes| == 0
  {
    Polling([])
  }

  /** One iteration of the `while (true)` body, with the retry wrapped around it. */
  function Step(loop: Loop, tick: Tick): (r: StepResult)
    ensures loop.Stopped? || tick.workerExited ==> r == StepResult(Stopped, None)
    ensures r.synced.Some? <==>
      loop.Polling? && !tick.workerExited && tick.fetch.Fetched? && !Identical(tick.fetch.batch, loop.prevNodes)
    ensures r.synced.Some? ==> r.synced.value == tick.fetch.batch
    ensures loop.Polling? && !tick.workerExited ==> r.next.Polling?
    ensures r.next.Polling? && (tick.fetch.FetchThrew? || (r.synced.Some? && tick.syncThrew)) ==> r.next == Start()
    ensures r.next.Polling? && tick.fetch.Fetched? && !(r.synced.Some? && tick.syncThrew) ==>
      r.next.prevNodes == tick.fetch.batch
  {
    match loop
    case Stopped => StepResult(Stopped, None)
    case Polling(prev) =>
      if tick.workerExited then StepResult(Stopped, None)
      else
        match tick.fetch
        case FetchThrew => StepResult(Start(), None)
        case Fetched(nodes) =>
          if !Identical(nodes, prev) then
            StepResult(if tick.syncThrew then Start() else Polling(nodes), Some(nodes))
          else StepResult(Polling(nodes), None)
  }

  /** A run over several ticks: the final loop and, per tick, what was synced. */
  function Run(loop: Loop, ticks: seq<Tick>): (r: (Loop, seq<Option<Batch>>))
    ensures |r.1| == |ticks|
    decreases |ticks|
  {
    if |ticks| == 0 then (loop, [])
    else
      var step := Step(loop, ticks[0]);
      var rest := Run(step.next, ticks[1..]);
      (rest.0, [step.synced] + rest.1)
  }

  // ---------------------------------------------------------------------------
  // Step-level properties

  /** A fetch that returns the very same batch objects is not synced again. */
  lemma UnchangedBatchNotResynced(prev: Batch, tick: Tick)
    requires tick.fetch.Fetched? && Identical(tick.fetch.batch, prev)
    ensures Step(Polling(prev), tick).synced.None?
  {
  }

  /** After a throw, the next fetch of a non-empty batch is synced, whatever it holds. */
  lemma ThrowForcesResync(prev: Batch, failed: Tick, tick: Tick)
    requires failed.fetch.FetchThrew? || (failed.fetch.Fetched? && !Identical(failed.fetch.batch, prev) && failed.syncThrew)
    requires !failed.workerExited && !tick.workerExited
    requires tick.fetch.Fetched? && 0 < |tick.fetch.batch|
    ensures Step(Step(Polling(prev), failed).next, tick).synced == Some(tick.fetch.batch)
  {
  }

  /** A batch holding a node from a fetch newer than the previous batch is always synced. */
  lemma FreshNodesAlwaysSync(prev: Batch, tick: Tick, fetch: nat)
    requires AllocatedBefore(prev, fetch)
    requires !tick.workerExited && tick.fetch.Fetched?
    requires AllocatedIn(tick.fetch.batch, fetch) && HasNode(tick.fetch.batch)
    ensures Step(Polling(prev), tick).synced == Some(tick.fetch.batch)
  {
    FreshBatchNeverIdentical(prev, tick.fetch.batch, fetch);
  }

  /**
   * Two successive `getNodes` results differ under `!==` exactly when
   * either holds a node: the consumer list fixes names and balancers, and
   * every fetch allocates new node objects.
   */
  lemma SuccessivePollsSyncIffNodes(client: Client.State, r1: Client.Registry, f1: nat, r2: Client.Registry, f2: nat, syncThrew: bool)
    requires f1 < f2
    ensures var prev := Client.GetNodes(client, r1, f1);
      var next := Client.GetNodes(client, r2, f2);
      Step(Polling(prev), Tick(false, Fetched(next), syncThrew)).synced.Some? <==> HasNode(prev) || HasNode(next)
  {
    var prev := Client.GetNodes(client, r1, f1);
    var next := Client.GetNodes(client, r2, f2);
    Client.GetNodesShape(client, r1, f1, r2, f2);
    Client.GetNodesAllocatesFresh(client, r1, f1);
    Client.GetNodesAllocatesFresh(client, r2, f2);
    if HasNode(next) {
      FreshBatchNeverIdentical(prev, next, f2);
    } else if HasNode(prev) {
      var i :| 0 <= i < |prev| && prev[i].nodes.Some? && 0 < |prev[i].nodes.value|;
      assert |next[i].nodes.value| == 0;
      assert !SameItem(next[i], prev[i]);
    } else {
      NodelessBatchesIdentical(next, prev);
    }
  }

  /** The first poll syncs exactly when there is at least one consumer, even if no service has nodes. */
  lemma FirstPollSyncsIffConsumers(client: Client.State, registry: Client.Registry, fetch: nat, syncThrew: bool)
    ensures Step(Start(), Tick(false, Fetched(Client.GetNodes(client, registry, fetch)), syncThrew)).synced.Some?
      <==> 0 < |client.consumers|
  {
    var batch := Client.GetNodes(client, registry, fetch);
    Client.GetNodesListsEachServiceOnce(client, registry, fetch);
    if 0 < |client.consumers| {
      Client.GetNodesCoversConsumers(client, registry, fetch, client.consumers[0]);
    } else {
      assert Client.ServiceNames(client.consumers) == {};
    }
  }

  // ---------------------------------------------------------------------------
  // Run-level properties

  /** A stopped loop does nothing on any later tick. */
  lemma {:induction false} StoppedStaysQuiet(ticks: seq<Tick>)
    ensures Run(Stopped, ticks).0 == Stopped
    ensures forall k :: 0 <= k < |ticks| ==> Run(Stopped, ticks).1[k].None?
    decreases |ticks|
  {
    if |ticks| > 0 {
      StoppedStaysQuiet(ticks[1..]);
    }
  }

  /** Once a wait ends with the worker exiting, the loop stops and never syncs again. */
  lemma {:induction false} ExitEndsLoop(loop: Loop, ticks: seq<Tick>, i: nat)
    requires i < |ticks| && ticks[i].workerExited
    ensures Run(loop, ticks).0 == Stopped
    ensures forall k :: i <= k < |ticks| ==> Run(loop, ticks).1[k].None?
    decreases i
  {
    var step := Step(loop, ticks[0]);
    if i == 0 {
      StoppedStaysQuiet(ticks[1..]);
    } else {
      ExitEndsLoop(step.next, ticks[1..], i - 1);
    }
  }

  /** A batch allocated by fetch `fetch` is allocated before every later fetch. */
  lemma AllocatedInBefore(b: Batch, fetch: nat)
    requires AllocatedIn(b, fetch)
    ensures AllocatedBefore(b, fetch + 1)
  {
  }

  /**
   * When tick `k` fetches with stamp `first + k` (as `getNodes` does), every
   * tick before the worker exits whose batch holds a node is synced: a
   * running loop never misses a registry answer that has instances.
   */
  lemma {:induction false} EveryPollWithNodesSyncs(prev: Batch, ticks: seq<Tick>, first: nat, i: nat)
    requires AllocatedBefore(prev, first)
    requires forall k :: 0 <= k < |ticks| && ticks[k].fetch.Fetched? ==> AllocatedIn(ticks[k].fetch.batch, first + k)
    requires i < |ticks| && forall k :: 0 <= k <= i ==> !ticks[k].workerExited
    requires ticks[i].fetch.Fetched? && HasNode(ticks[i].fetch.batch)
    ensures Run(Polling(prev), ticks).1[i] == Some(ticks[i].fetch.batch)
    decreases i
  {
    var step := Step(Polling(prev), ticks[0]);
    if i == 0 {
      FreshNodesAlwaysSync(prev, ticks[0], first);
    } else {
      var rest := ticks[1..];
      assert step.next.Polling?;
      var next := step.next.prevNodes;
      if ticks[0].fetch.Fetched? && next == ticks[0].fetch.batch {
        AllocatedInBefore(next, first);
      } else {
        assert next == [];
      }
      assert forall k :: 0 <= k < |rest| ==> rest[k] == ticks[k + 1];
      EveryPollWithNodesSyncs(next, rest, first + 1, i - 1);
    }
  }

  /**
   * A consumer whose configuration has no `load_balancer` is queried on every
   * poll, but `updateNodes` skips its item: no balancer of that service is
   * created or changed by the batch.
   */
  lemma UnbalancedConsumerNeverApplied(
    client: Client.State, registry: Client.Registry, fetch: nat, balancers: Driver.Balancers, k: nat, lb: string)
    requires k < |client.consumers|
    requires Client.LastIndexOf(client.consumers, client.consumers[k].serviceName) == k
    requires client.consumers[k].loadBalance.None?
    ensures var key := (client.consumers[k].serviceName, lb);
      var r := Driver.UpdateNodes(balancers, Client.GetNodes(client, registry, fetch));
      && (key in r <==> key in balancers)
      && (key in balancers ==> r[key] == balancers[key])
  {
    var batch := Client.GetNodes(client, registry, fetch);
    var key := (client.consumers[k].serviceName, lb);
    forall i | 0 <= i < |batch| && Driver.Applicable(batch[i])
      ensures Driver.KeyOf(batch[i]) != key
    {
      Client.GetNodesLastConsumerWins(client, registry, fetch, i);
    }
    Driver.UpdateNodesLeavesOthers(balancers, batch, key);
  }
}

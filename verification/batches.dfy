/**
 * The values that travel between the registry client, the driver and the
 * push listener: load-balancer nodes, the `{serviceName, loadBalance, nodes}`
 * items of a batch, and PHP's `!==` on batches.
 *
 * A node is a PHP object, and `===` on objects compares instances, not
 * contents. Every node therefore carries a `NodeRef` naming the allocation
 * that created it: the fetch, the query within the fetch, and its position
 * in that query's answer. Two nodes are the same object exactly when their
 * refs agree.
 */
module Batches {
  import opened Php

  datatype NodeRef = NodeRef(fetch: nat, query: nat, position: nat)

  /** `Hyperf\LoadBalancer\Node`: host, port, integer weight and path prefix. */
  datatype Node = Node(ref: NodeRef, host: string, port: int, weight: int, pathPrefix: string)

  /**
   * One element of a batch array. Each key may be absent (`isset` false),
   * because the driver also applies batches that arrive from other processes.
   */
  datatype Item = Item(serviceName: Option<string>, loadBalance: Option<string>, nodes: Option<seq<Node>>)

  type Batch = seq<Item>

  /** An item carrying all three keys, as the client builds them. */
  function Snapshot(serviceName: string, loadBalance: string, nodes: seq<Node>): (item: Item)
    ensures item.serviceName == Some(serviceName) && item.loadBalance == Some(loadBalance)
    ensures item.nodes == Some(nodes)
  {
    Item(Some(serviceName), Some(loadBalance), Some(nodes))
  }

  /**
   * An item as `getNodes` builds it: the name and node list are always set,
   * the balancer name only when the consumer's configuration has one.
   */
  function Gathered(serviceName: string, loadBalance: Option<string>, nodes: seq<Node>): (item: Item)
    ensures item.serviceName == Some(serviceName) && item.loadBalance == loadBalance
    ensures item.nodes == Some(nodes)
    ensures loadBalance.Some? ==> item == Snapshot(serviceName, loadBalance.value, nodes)
  {
    Item(Some(serviceName), loadBalance, Some(nodes))
  }

  // ---------------------------------------------------------------------------
  // PHP identity (`===`) on batches

  /** `$a === $b` on two lists of node objects: same length, same instances in order. */
  predicate SameNodes(a: seq<Node>, b: seq<Node>) {
    |a| == |b| && forall i :: 0 <= i < |a| ==> a[i].ref == b[i].ref
  }

  predicate SameNodeList(a: Option<seq<Node>>, b: Option<seq<Node>>) {
    match a
    case None => b.None?
    case Some(x) => b.Some? && SameNodes(x, b.value)
  }

  predicate SameItem(x: Item, y: Item) {
    x.serviceName == y.serviceName && x.loadBalance == y.loadBalance && SameNodeList(x.nodes, y.nodes)
  }

  /** `$a === $b` on two batches; the poll loop syncs when this is false. */
  predicate Identical(a: Batch, b: Batch) {
    |a| == |b| && forall i :: 0 <= i < |a| ==> SameItem(a[i], b[i])
  }

  /** Some item of the batch holds at least one node. */
  predicate HasNode(b: Batch) {
    exists i :: 0 <= i < |b| && b[i].nodes.Some? && 0 < |b[i].nodes.value|
  }

  /** Every node of the batch was allocated by a fetch numbered below `fetch`. */
  predicate AllocatedBefore(b: Batch, fetch: nat) {
    forall i, j :: 0 <= i < |b| && b[i].nodes.Some? && 0 <= j < |b[i].nodes.value| ==>
      b[i].nodes.value[j].ref.fetch < fetch
  }

  /** Every node of the batch was allocated by fetch number `fetch`. */
  predicate AllocatedIn(b: Batch, fetch: nat) {
    forall i, j :: 0 <= i < |b| && b[i].nodes.Some? && 0 <= j < |b[i].nodes.value| ==>
      b[i].nodes.value[j].ref.fetch == fetch
  }

  /**
   * A batch that holds a node allocated by a newer fetch is never identical
   * to one built earlier, whatever the nodes' contents.
   */
  lemma FreshBatchNeverIdentical(prev: Batch, next: Batch, fetch: nat)
    requires AllocatedBefore(prev, fetch)
    requires AllocatedIn(next, fetch)
    requires HasNode(next)
    ensures !Identical(next, prev)
  {
    var i :| 0 <= i < |next| && next[i].nodes.Some? && 0 < |next[i].nodes.value|;
    if |prev| == |next| && prev[i].nodes.Some? && |prev[i].nodes.value| == |next[i].nodes.value| {
      assert next[i].nodes.value[0].ref.fetch == fetch;
      assert prev[i].nodes.value[0].ref.fetch < fetch;
      assert !SameItem(next[i], prev[i]);
    }
  }

  /**
   * Two batches without nodes are identical when they list the same names and
   * balancer names with the same node-list presence.
   */
  lemma NodelessBatchesIdentical(a: Batch, b: Batch)
    requires !HasNode(a) && !HasNode(b)
    requires |a| == |b|
    requires forall i :: 0 <= i < |a| ==>
      a[i].serviceName == b[i].serviceName && a[i].loadBalance == b[i].loadBalance && a[i].nodes.Some? == b[i].nodes.Some?
    ensures Identical(a, b)
  {
    forall i | 0 <= i < |a|
      ensures SameItem(a[i], b[i])
    {
      if a[i].nodes.Some? {
        assert |a[i].nodes.value| == 0 && |b[i].nodes.value| == 0;
      }
    }
  }
}

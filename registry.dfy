/**
  The node registry of the cluster page: the list of instances fetched from the
  backend, folded into a map from node identifier to node record
  (resources/public/js/cluster.js:3-6). Later entries overwrite earlier ones.
 */
module Registry {
  import opened Wrappers

  type NodeId = string

  /** An instance as the page receives it; only `id` is read by the drag logic. */
  datatype Node = Node(id: NodeId, attributes: map<string, string>)

  /** The map the `reduce` builds: each node, left to right, written under its id. */
  function RegistryOf(nodes: seq<Node>): (r: map<NodeId, Node>)
    ensures |r| <= |nodes|
  {
    if nodes == [] then map[]
    else
      var last := nodes[|nodes| - 1];
      RegistryOf(nodes[..|nodes| - 1])[last.id := last]
  }

  /** `nodesMap[id]`: the node registered under `id`, or `undefined` (None). */
  function Lookup(registry: map<NodeId, Node>, id: NodeId): (r: Option<Node>)
    ensures r.Some? <==> id in registry
    ensures r.Some? ==> r.value == registry[id]
  {
    if id in registry then Some(registry[id]) else None
  }

  /** The identifiers occurring in the node list. */
  ghost function IdsOf(nodes: seq<Node>): set<NodeId>
  {
    set i | 0 <= i < |nodes| :: nodes[i].id
  }

  /** `nodes[i]` is the last node of the list that carries its id. */
  ghost predicate IsLastWithId(nodes: seq<Node>, i: int)
  {
    0 <= i < |nodes| && forall j :: i < j < |nodes| ==> nodes[j].id != nodes[i].id
  }

  /** Registering one more node extends the prefix's map by that node. */
  lemma RegistrySnoc(nodes: seq<Node>, i: nat)
    requires i < |nodes|
    ensures RegistryOf(nodes[..i + 1]) == RegistryOf(nodes[..i])[nodes[i].id := nodes[i]]
  {
    assert nodes[..i + 1][..i] == nodes[..i];
  }

  /** The registry holds exactly the ids of the list, no other key. */
  lemma {:induction false} RegistryKeys(nodes: seq<Node>)
    ensures RegistryOf(nodes).Keys == IdsOf(nodes)
  {
    if nodes != [] {
      var n := |nodes| - 1;
      var prefix := nodes[..n];
      RegistryKeys(prefix);
      forall id | id in IdsOf(nodes) ensures id in RegistryOf(nodes) {
        var i :| 0 <= i < |nodes| && nodes[i].id == id;
        if i < n {
          assert prefix[i].id == id;
        }
      }
      forall id | id in RegistryOf(nodes) ensures id in IdsOf(nodes) {
        if id != nodes[n].id {
          var i :| 0 <= i < |prefix| && prefix[i].id == id;
          assert nodes[i].id == id;
        }
      }
    }
  }

  /** Last write wins: the last node carrying an id is the one registered under it. */
  lemma {:induction false} RegistryLastWins(nodes: seq<Node>, i: int)
    requires IsLastWithId(nodes, i)
    ensures nodes[i].id in RegistryOf(nodes) && RegistryOf(nodes)[nodes[i].id] == nodes[i]
  {
    var n := |nodes| - 1;
    if i < n {
      var prefix := nodes[..n];
      assert IsLastWithId(prefix, i) by {
        forall j | i < j < |prefix| ensures prefix[j].id != prefix[i].id {
          assert prefix[j] == nodes[j];
        }
      }
      RegistryLastWins(prefix, i);
      assert nodes[n].id != nodes[i].id;
    }
  }

  /** Every registered node is the last node of the list with its id. */
  lemma {:induction false} RegistryValueIsLast(nodes: seq<Node>, id: NodeId)
    requires id in RegistryOf(nodes)
    ensures exists i :: IsLastWithId(nodes, i) && nodes[i].id == id && RegistryOf(nodes)[id] == nodes[i]
  {
    var n := |nodes| - 1;
    if nodes[n].id == id {
      assert IsLastWithId(nodes, n);
    } else {
      var prefix := nodes[..n];
      RegistryValueIsLast(prefix, id);
      var i :| IsLastWithId(prefix, i) && prefix[i].id == id && RegistryOf(prefix)[id] == prefix[i];
      assert nodes[i] == prefix[i];
      assert IsLastWithId(nodes, i);
    }
  }

  /** The `reduce` of lines 3-6, written as the loop it performs on its accumulator. */
  method BuildRegistry(nodes: seq<Node>) returns (registry: map<NodeId, Node>)
    ensures registry == RegistryOf(nodes)
    ensures registry.Keys == IdsOf(nodes)
  {
    registry := map[];
    for i := 0 to |nodes|
      invariant registry == RegistryOf(nodes[..i])
    {
      RegistrySnoc(nodes, i);
      registry := registry[nodes[i].id := nodes[i]];
    }
    assert nodes[..|nodes|] == nodes;
    RegistryKeys(nodes);
  }
}

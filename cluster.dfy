/**
  `generateInstanceDivs` (resources/public/js/cluster.js:2-101) as a whole:
  build the registry, bind and size the panels, then hand the page to the
  hover and drag handlers.
 */
module Cluster {
  import opened Wrappers
  import opened Registry
  import opened AnchorBinder
  import opened Overlay

  /**
    Builds the registry from `nodes`, binds every anchor's panel and returns
    the handlers' shared state, with no duplicate, no mark and no call yet.
   */
  method GenerateInstanceDivs(
    nodes: seq<Node>, diagram: Diagram,
    measure: Option<Node> -> Size, move: (Option<Node>, Option<Node>, bool) -> bool)
    returns (controller: DragController)
    modifies diagram.anchors
    ensures fresh(controller) && controller.Valid()
    ensures controller.registry == RegistryOf(nodes) && controller.move == move
    ensures controller.overlays == [] && controller.marks == {}
    ensures controller.calls == [] && controller.modals == []
    ensures forall k :: 0 <= k < diagram.anchors.Length ==>
      var content := Lookup(RegistryOf(nodes), old(diagram.anchors[k]).id);
      var s := measure(content);
      && diagram.anchors[k].id == old(diagram.anchors[k]).id
      && diagram.anchors[k].x == old(diagram.anchors[k]).x
      && diagram.anchors[k].panel == Panel(content, Some(diagram.anchors[k].x), Some(diagram.anchors[k].y))
      && diagram.anchors[k].width == s.width + 30.0
      && diagram.anchors[k].height == s.height + 16.0
      && diagram.anchors[k].y == 0.0 - s.height / 2.0 - 2.0
  {
    var registry := BuildRegistry(nodes);
    diagram.BindPanels(nodes, measure);
    controller := new DragController(registry, move);
  }

  /** A validator stub: a move is accepted exactly when its target is node 2. */
  function AcceptsSecond(source: Option<Node>, target: Option<Node>, commit: bool): bool
  {
    target.Some? && target.value.id == "2"
  }

  /** The registry of the three nodes 1, 2, 3: each id maps to its node. */
  method ThreeNodeRegistry() returns (registry: map<NodeId, Node>)
    ensures registry == map["1" := Node("1", map[]), "2" := Node("2", map[]), "3" := Node("3", map[])]
  {
    var nodes := [Node("1", map[]), Node("2", map[]), Node("3", map[])];
    registry := BuildRegistry(nodes);
    assert IsLastWithId(nodes, 0) && IsLastWithId(nodes, 1) && IsLastWithId(nodes, 2);
    RegistryLastWins(nodes, 0);
    RegistryLastWins(nodes, 1);
    RegistryLastWins(nodes, 2);
  }

  /**
    A fresh page where node `id` is hovered twice and its duplicate then
    dragged: the second hover changes nothing, so exactly one duplicate
    exists, and it is the dragged one.
   */
  method HoverTwiceThenDrag(
    registry: map<NodeId, Node>, move: (Option<Node>, Option<Node>, bool) -> bool, id: NodeId)
    returns (c: DragController)
    ensures fresh(c) && c.Valid()
    ensures c.registry == registry && c.move == move
    ensures c.overlays == [Overlay(id, true)] && c.marks == {} && c.calls == []
  {
    c := new DragController(registry, move);
    c.MouseEnter(id);
    assert c.overlays == [Overlay(id, false)];
    c.MouseEnter(id);
    assert c.overlays == [Overlay(id, false)];
    c.DragStart();
  }

  /**
    Three nodes 1, 2, 3 and a validator accepting only target 2. Hovering
    node 1 twice gives one duplicate; dragging it over 1, 2 and 3 marks only
    target 2 and makes no committing call.
   */
  method DragOverThreeTargets() returns (c: DragController, duplicates: seq<Overlay>, marked: set<NodeId>)
    ensures fresh(c) && c.Valid()
    ensures c.registry == map["1" := Node("1", map[]), "2" := Node("2", map[]), "3" := Node("3", map[])]
    ensures duplicates == [Overlay("1", true)] && c.overlays == duplicates
    ensures marked == {"2"} && c.marks == marked
    ensures Commits(c.calls) == []
  {
    var registry := ThreeNodeRegistry();
    c := HoverTwiceThenDrag(registry, AcceptsSecond, "1");
    duplicates := c.overlays;
    var a1 := c.Accept("1");
    assert !a1 && c.marks == {};
    var a2 := c.Accept("2");
    assert a2 && c.marks == {"2"};
    var a3 := c.Accept("3");
    assert !a3;
    marked := c.marks;
  }

  /**
    Continues the drag above with a drop on target 2: the duplicate is removed
    and exactly one committing call, for (1, 2), is made. The drop handler
    does not touch the `accept_drop` marks, so target 2 stays marked; the
    drag library fires no `stop` once the dragged duplicate is gone.
   */
  method AcceptOnlySecondTarget() returns (marked: set<NodeId>, left: seq<Overlay>, commits: seq<MoveCall>)
    ensures marked == {"2"}
    ensures left == []
    ensures commits == [MoveCall(Some(Node("1", map[])), Some(Node("2", map[])), true)]
  {
    var c, duplicates, before;
    c, duplicates, before := DragOverThreeTargets();
    c.Drop("2");
    left := c.overlays;
    marked := c.marks;
    commits := Commits(c.calls);
  }

  /**
    Continues the drag above with a release away from any target: `stop`
    clears every mark, the duplicate stays, no longer dragged, and no
    committing call is made.
   */
  method ReleaseElsewhere() returns (marked: set<NodeId>, left: seq<Overlay>, commits: seq<MoveCall>)
    ensures marked == {}
    ensures left == [Overlay("1", false)]
    ensures commits == []
  {
    var c, duplicates, before;
    c, duplicates, before := DragOverThreeTargets();
    c.DragStop();
    left := c.overlays;
    marked := c.marks;
    commits := Commits(c.calls);
  }
}

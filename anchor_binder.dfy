/**
  Binding information panels to the diagram's anchors
  (resources/public/js/cluster.js:8-31). Every anchor (an element carrying
  `data-fo-id`) first gets an empty popover template, then every node's panel
  is rendered, and only then is each anchor sized and positioned from the
  rendered size of its panel.
 */
module AnchorBinder {
  import opened Wrappers
  import opened Registry

  /** The rendered width and height of a panel, in pixels. */
  datatype Size = Size(width: real, height: real)

  /**
    A popover panel: what was rendered into it (None for the empty template)
    and its `x`/`y` attributes (None while unset).
   */
  datatype Panel = Panel(content: Option<Node>, x: Option<real>, y: Option<real>)

  /** A diagram anchor with its geometry attributes and the panel inside it. */
  datatype Anchor = Anchor(id: NodeId, x: real, y: real, width: real, height: real, panel: Panel)

  /** The popover template of line 11, as yet unrendered and unpositioned. */
  const EmptyPanel := Panel(None, None, None)

  /**
    The geometry of lines 23-30 for an anchor whose panel measures `s`: the
    panel takes the anchor's `x` and new `y`, and the anchor box is the panel
    padded by 30 horizontally and 16 vertically, placed so that its vertical
    middle stays at the same offset whatever the panel's height.
   */
  function Placed(a: Anchor, s: Size): (r: Anchor)
    ensures r.id == a.id && r.x == a.x && r.panel.content == a.panel.content
    ensures r.panel.x == Some(r.x) && r.panel.y == Some(r.y)
    ensures r.width - s.width == 30.0 && r.height - s.height == 16.0
    ensures r.y + r.height / 2.0 == 6.0
  {
    var y := 0.0 - s.height / 2.0 - 2.0;
    a.(y := y, width := s.width + 30.0, height := s.height + 16.0,
       panel := a.panel.(x := Some(a.x), y := Some(y)))
  }

  /**
    What rendering `nodes` leaves in the panel of the anchor `id` that held
    `before`: every node with that id is rendered into it in turn, so the last
    one, the registered one, stays.
   */
  function Rendered(nodes: seq<Node>, id: NodeId, before: Option<Node>): (r: Option<Node>)
    ensures id in IdsOf(nodes) ==> r.Some? && r.value.id == id
    ensures id !in IdsOf(nodes) ==> r == before
  {
    RegistryKeys(nodes);
    if id in RegistryOf(nodes) then
      RegistryValueIsLast(nodes, id);
      Some(RegistryOf(nodes)[id])
    else before
  }

  /** Rendering one more node only changes the panels carrying its id. */
  lemma RenderedSnoc(nodes: seq<Node>, i: nat, id: NodeId, before: Option<Node>)
    requires i < |nodes|
    ensures Rendered(nodes[..i + 1], id, before)
         == if id == nodes[i].id then Some(nodes[i]) else Rendered(nodes[..i], id, before)
  {
    RegistrySnoc(nodes, i);
  }

  class Diagram {
    /** The anchors matched by `[data-fo-id]`, in document order. */
    var anchors: array<Anchor>

    constructor (initial: seq<Anchor>)
      ensures fresh(anchors) && anchors[..] == initial
    {
      anchors := new Anchor[|initial|](i requires 0 <= i < |initial| => initial[i]);
    }

    /** Lines 8-13: every anchor's content is replaced by an empty popover template. */
    method ClearPanels()
      modifies anchors
      ensures forall k :: 0 <= k < anchors.Length ==> anchors[k] == old(anchors[k]).(panel := EmptyPanel)
    {
      var k := 0;
      while k < anchors.Length
        invariant 0 <= k <= anchors.Length
        invariant forall m :: 0 <= m < k ==> anchors[m] == old(anchors[m]).(panel := EmptyPanel)
        invariant forall m :: k <= m < anchors.Length ==> anchors[m] == old(anchors[m])
      {
        anchors[k] := anchors[k].(panel := EmptyPanel);
        k := k + 1;
      }
    }

    /**
      Lines 14-17: each node, in list order, is rendered into the panel of every
      anchor carrying its id; panels of other anchors are left as they were.
     */
    method RenderPanels(nodes: seq<Node>)
      modifies anchors
      ensures forall k :: 0 <= k < anchors.Length ==>
        anchors[k] == old(anchors[k]).(panel := old(anchors[k]).panel.(
          content := Rendered(nodes, old(anchors[k]).id, old(anchors[k]).panel.content)))
    {
      for i := 0 to |nodes|
        invariant forall k :: 0 <= k < anchors.Length ==>
          anchors[k] == old(anchors[k]).(panel := old(anchors[k]).panel.(
            content := Rendered(nodes[..i], old(anchors[k]).id, old(anchors[k]).panel.content)))
      {
        var node := nodes[i];
        var k := 0;
        while k < anchors.Length
          invariant 0 <= k <= anchors.Length
          invariant forall m :: 0 <= m < k ==>
            anchors[m] == old(anchors[m]).(panel := old(anchors[m]).panel.(
              content := Rendered(nodes[..i + 1], old(anchors[m]).id, old(anchors[m]).panel.content)))
          invariant forall m :: k <= m < anchors.Length ==>
            anchors[m] == old(anchors[m]).(panel := old(anchors[m]).panel.(
              content := Rendered(nodes[..i], old(anchors[m]).id, old(anchors[m]).panel.content)))
        {
          RenderedSnoc(nodes, i, anchors[k].id, old(anchors[k]).panel.content);
          if anchors[k].id == node.id {
            anchors[k] := anchors[k].(panel := anchors[k].panel.(content := Some(node)));
          }
          k := k + 1;
        }
      }
      assert nodes[..|nodes|] == nodes;
    }

    /**
      Lines 18-31: each anchor reads the size of its (already rendered) panel
      and takes the geometry `Placed` gives for it.
     */
    method PlaceAnchors(measure: Option<Node> -> Size)
      modifies anchors
      ensures forall k :: 0 <= k < anchors.Length ==>
        anchors[k] == Placed(old(anchors[k]), measure(old(anchors[k]).panel.content))
    {
      var k := 0;
      while k < anchors.Length
        invariant 0 <= k <= anchors.Length
        invariant forall m :: 0 <= m < k ==>
          anchors[m] == Placed(old(anchors[m]), measure(old(anchors[m]).panel.content))
        invariant forall m :: k <= m < anchors.Length ==> anchors[m] == old(anchors[m])
      {
        var size := measure(anchors[k].panel.content);
        anchors[k] := Placed(anchors[k], size);
        k := k + 1;
      }
    }

    /**
      Lines 8-31 in order. Geometry is read only after every panel has been
      rendered, so each anchor is sized from its registered node's panel (or
      from the empty template when no node carries its id).
     */
    method BindPanels(nodes: seq<Node>, measure: Option<Node> -> Size)
      modifies anchors
      ensures forall k :: 0 <= k < anchors.Length ==>
        var content := Lookup(RegistryOf(nodes), old(anchors[k]).id);
        var s := measure(content);
        && anchors[k].id == old(anchors[k]).id
        && anchors[k].x == old(anchors[k]).x
        && anchors[k].panel == Panel(content, Some(anchors[k].x), Some(anchors[k].y))
        && anchors[k].y == 0.0 - s.height / 2.0 - 2.0
        && anchors[k].width == s.width + 30.0
        && anchors[k].height == s.height + 16.0
    {
      ClearPanels();
      RenderPanels(nodes);
      PlaceAnchors(measure);
    }
  }
}

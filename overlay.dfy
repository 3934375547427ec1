/**
  The duplicate overlay and drag-to-reparent handlers
  (resources/public/js/cluster.js:35-100). Hovering a panel clones it into a
  single draggable "duplicate" overlay; dragging it asks `moveInstance` for a
  dry run against each candidate target, marking those that accept with
  `accept_drop`; dropping on a marked target issues the one committing call.
 */
module Overlay {
  import opened Wrappers
  import opened Registry

  /** A duplicate panel: the node it was cloned from and whether it is being dragged. */
  datatype Overlay = Overlay(nodeId: NodeId, dragging: bool)

  /** One call `moveInstance(source, target, commit)`; `undefined` arguments are None. */
  datatype MoveCall = MoveCall(source: Option<Node>, target: Option<Node>, commit: bool)

  /** The committing calls of a call log, in order. */
  function Commits(calls: seq<MoveCall>): (r: seq<MoveCall>)
    ensures |r| <= |calls|
  {
    if calls == [] then []
    else
      var last := calls[|calls| - 1];
      Commits(calls[..|calls| - 1]) + (if last.commit then [last] else [])
  }

  /** The commits are exactly the logged calls that commit. */
  lemma {:induction false} CommitsAreCommittingCalls(calls: seq<MoveCall>)
    ensures forall c :: c in Commits(calls) <==> c in calls && c.commit
  {
    if calls != [] {
      var prefix := calls[..|calls| - 1];
      CommitsAreCommittingCalls(prefix);
      assert calls == prefix + [calls[|calls| - 1]];
    }
  }

  /** Logging one more call adds it to the commits exactly when it commits. */
  lemma CommitsSnoc(calls: seq<MoveCall>, c: MoveCall)
    ensures Commits(calls + [c]) == Commits(calls) + (if c.commit then [c] else [])
  {
  }

  /**
    The page state the handlers share: the registry their closures capture,
    the `moveInstance` validator, the duplicate elements in the container,
    the panels marked `accept_drop`, and the calls made to `moveInstance` and
    `openNodeModal`.
   */
  class DragController {
    const registry: map<NodeId, Node>
    /** `moveInstance(source, target, false)`: the side-effect-free dry run. */
    const move: (Option<Node>, Option<Node>, bool) -> bool
    var overlays: seq<Overlay>
    var marks: set<NodeId>
    var calls: seq<MoveCall>
    var modals: seq<Option<Node>>

    /**
      At most one duplicate exists; while it is dragged every marked target
      passed the dry run for its node; and every committing call was one the
      dry run accepted.
     */
    ghost predicate Valid()
      reads this
    {
      && |overlays| <= 1
      && (Dragging() ==> forall t :: t in marks ==> AcceptsNow(t))
      && (forall c :: c in calls && c.commit ==> move(c.source, c.target, false))
    }

    /** `hasClass("ui-draggable-dragging")` on the duplicates: some duplicate is being dragged. */
    predicate Dragging()
      reads this`overlays
      ensures Dragging() ==> |overlays| > 0
    {
      exists o :: o in overlays && o.dragging
    }

    /** `attr("data-nodeid")` on the duplicates: the first one's node id, if any. */
    function DuplicateNodeId(): (r: Option<NodeId>)
      reads this`overlays
      ensures r.Some? <==> |overlays| > 0
    {
      if |overlays| > 0 then Some(overlays[0].nodeId) else None
    }

    /** The dry run `moveInstance(nodesMap[draggedNodeId], nodesMap[target], false)`. */
    ghost predicate AcceptsNow(target: NodeId)
      reads this`overlays
      ensures AcceptsNow(target) ==> |overlays| > 0
    {
      |overlays| > 0 && move(Lookup(registry, overlays[0].nodeId), Lookup(registry, target), false)
    }

    constructor (registry: map<NodeId, Node>, move: (Option<Node>, Option<Node>, bool) -> bool)
      ensures Valid()
      ensures this.registry == registry && this.move == move
      ensures overlays == [] && marks == {} && calls == [] && modals == []
    {
      this.registry := registry;
      this.move := move;
      overlays, marks, calls, modals := [], {}, [], [];
    }

    /**
      Lines 35-53, `mouseenter` on the panel of node `id`. Nothing changes while
      a duplicate is being dragged or when the duplicate already shows `id`;
      otherwise the old duplicate is removed and exactly one new, undragged
      duplicate of `id` is added.
     */
    method MouseEnter(id: NodeId)
      requires Valid()
      modifies this`overlays
      ensures Valid()
      ensures old(Dragging()) ==> overlays == old(overlays)
      ensures !old(Dragging()) && old(DuplicateNodeId()) == Some(id) ==> overlays == old(overlays)
      ensures !old(Dragging()) && old(DuplicateNodeId()) != Some(id) ==> overlays == [Overlay(id, false)]
    {
      if Dragging() {
        return;
      }
      if DuplicateNodeId() == Some(id) {
        return;
      }
      overlays := [];
      overlays := overlays + [Overlay(id, false)];
    }

    /**
      Lines 62-64, the drag library starts dragging the duplicate: it becomes
      the dragged element and every `accept_drop` mark is cleared.
     */
    method DragStart()
      requires Valid() && |overlays| == 1 && !overlays[0].dragging
      modifies this`overlays, this`marks
      ensures Valid()
      ensures overlays == [old(overlays[0]).(dragging := true)] && Dragging()
      ensures marks == {}
    {
      overlays := [overlays[0].(dragging := true)];
      marks := {};
    }

    /**
      Lines 66-73, the droppable's `accept` test for the panel of `target`: the
      answer is exactly the dry run for the dragged node and `target`, the
      target is marked when it accepts, and no committing call is made.
     */
    method Accept(target: NodeId) returns (accepted: bool)
      requires Valid() && Dragging()
      modifies this`marks, this`calls
      ensures Valid() && Dragging()
      ensures accepted == move(Lookup(registry, overlays[0].nodeId), Lookup(registry, target), false)
      ensures marks == if accepted then old(marks) + {target} else old(marks)
      ensures calls == old(calls) + [MoveCall(Lookup(registry, overlays[0].nodeId), Lookup(registry, target), false)]
      ensures Commits(calls) == Commits(old(calls))
    {
      var call := MoveCall(Lookup(registry, overlays[0].nodeId), Lookup(registry, target), false);
      accepted := move(call.source, call.target, false);
      CommitsSnoc(calls, call);
      calls := calls + [call];
      if accepted {
        marks := marks + {target};
      }
    }

    /**
      Lines 76-79, a drop on the marked panel of `target`: the duplicate is
      removed and exactly one committing call for the dragged node and
      `target` is made.
     */
    method Drop(target: NodeId)
      requires Valid() && Dragging() && target in marks
      modifies this`overlays, this`calls
      ensures Valid()
      ensures overlays == []
      ensures calls == old(calls) + [MoveCall(Lookup(registry, old(overlays[0]).nodeId), Lookup(registry, target), true)]
      ensures Commits(calls) == Commits(old(calls)) + [MoveCall(Lookup(registry, old(overlays[0]).nodeId), Lookup(registry, target), true)]
    {
      var source := Lookup(registry, overlays[0].nodeId);
      overlays := [];
      var call := MoveCall(source, Lookup(registry, target), true);
      CommitsSnoc(calls, call);
      calls := calls + [call];
    }

    /**
      Lines 85-88, the drag ends while the duplicate is still in the page (it
      was released away from any accepting target): every `accept_drop` mark
      is cleared and the duplicate is no longer dragged. After a drop the
      duplicate has been removed and the drag library fires no `stop`.
     */
    method DragStop()
      requires Valid()
      modifies this`overlays, this`marks
      ensures Valid()
      ensures marks == {}
      ensures overlays == if old(overlays) == [] then [] else [old(overlays[0]).(dragging := false)]
    {
      marks := {};
      if overlays != [] {
        overlays := [overlays[0].(dragging := false)];
      }
    }

    /** Lines 90-94, `mouseleave` on the duplicate: removed exactly when it is not dragged. */
    method MouseLeave()
      requires Valid() && |overlays| == 1
      modifies this`overlays
      ensures Valid()
      ensures old(overlays[0].dragging) ==> overlays == old(overlays)
      ensures !old(overlays[0].dragging) ==> overlays == []
    {
      if !overlays[0].dragging {
        overlays := [];
      }
    }

    /**
      Lines 95-99, a click on the duplicate: every `accept_drop` mark is
      cleared and the click is suppressed (the handler answers false).
     */
    method Click() returns (proceed: bool)
      requires Valid() && |overlays| == 1
      modifies this`marks
      ensures Valid()
      ensures marks == {} && !proceed
    {
      marks := {};
      proceed := false;
    }

    /**
      Lines 54-57, a click on the duplicate's title link: the detail view is
      opened for the duplicated node and the click is suppressed.
     */
    method LabelClick() returns (proceed: bool)
      requires Valid() && |overlays| == 1
      modifies this`modals
      ensures Valid()
      ensures modals == old(modals) + [Lookup(registry, overlays[0].nodeId)] && !proceed
    {
      modals := modals + [Lookup(registry, overlays[0].nodeId)];
      proceed := false;
    }
  }
}

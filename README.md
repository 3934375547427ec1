# Cluster page: drag-to-reparent overlay

A Dafny model of `generateInstanceDivs` in orchestrator's cluster page
(`resources/public/js/cluster.js`). The page draws a replication topology and
lets an operator move an instance under a new master by dragging it onto another
instance. The model covers four parts:

- **Registry** (`registry.dfy`): the fetched instance list is folded into a map
  from instance id to instance. A later entry with the same id overwrites an
  earlier one.
- **Anchor binding** (`anchor_binder.dfy`): runs in two phases over the diagram's
  anchors. First every anchor gets an empty popover, and every instance is
  rendered into the popover of the anchor with its id. Only then is each anchor
  positioned and sized from its popover's rendered size. The `class Diagram`
  holds the anchors in an array, and one method models each `.each` /
  `forEach` loop.
- **Duplicate overlay and drag** (`overlay.dfy`): the `class DragController` holds
  what the event handlers share:
  - the duplicate elements in the container
  - the panels marked `accept_drop`
  - the log of `moveInstance` calls
  - the log of `openNodeModal` calls

  There is one method per DOM event: mouseenter, drag start, the droppable's
  `accept` test, drop, drag stop, mouseleave, click, and a click on the title
  link. Its invariant `Valid()` says three things. At most one duplicate exists.
  While it is dragged, every marked target passed the dry run. Every committing
  `moveInstance` call is one the dry run accepted.
- **Glue and scenario** (`cluster.dfy`): `generateInstanceDivs` as a whole. It also
  holds a three-node scenario, proved: a validator accepts only target 2, only
  target 2 is marked, and a drop on it makes exactly one committing call
  `(1, 2)`. A release away from any target instead clears the marks and
  commits nothing.

External collaborators become parameters:

- `renderInstanceElement` sets the popover's content to the node. The popover's
  rendered size is the parameter `measure`.
- The dry run `moveInstance(source, target, false)` is the constant function
  `move`. The committing call is only recorded in the log.
- `nodesMap[id]` for an id that is not registered is JavaScript `undefined`. It is
  modelled as `None` (`Registry.Lookup`) and passed on unchanged, as the code does.

One would expect events for unknown ids to be ignored. The code instead passes
`undefined` to `moveInstance` and `openNodeModal` (lines 67-68, 78, 55). The model
follows the code.

## Model

| member | source | states |
|---|---|---|
| `Registry.Lookup` | resources/public/js/cluster.js:67-68 | `nodesMap[id]` is defined exactly when `id` is a key, and then it is that key's node |
| `Registry.RegistryOf` | resources/public/js/cluster.js:3-6 | the reduce: each node, left to right, written under its id; it has at most as many entries as the list has nodes (duplicate ids collapse) |
| `Registry.RegistrySnoc` | resources/public/js/cluster.js:3-6 | one step of the reduce writes the next node under its id over the map built so far |
| `Registry.RegistryKeys` | resources/public/js/cluster.js:3-6 | the registry's keys are exactly the ids occurring in the list, no other key |
| `Registry.RegistryLastWins` | resources/public/js/cluster.js:3-6 | the last node in the list carrying an id is the node registered under that id |
| `Registry.RegistryValueIsLast` | resources/public/js/cluster.js:3-6 | every registered node is the last node of the list with its id |
| `Registry.BuildRegistry` | resources/public/js/cluster.js:3-6 | the accumulator loop returns the fold `RegistryOf`, whose keys are the list's ids |
| `AnchorBinder.Placed` | resources/public/js/cluster.js:23-30 | the popover takes the anchor's x and new y; the anchor is the popover padded by 30 in width and 16 in height; its vertical middle is at offset 6 whatever the popover's height |
| `AnchorBinder.Rendered` | resources/public/js/cluster.js:14-17 | after rendering the list, a panel whose id occurs in the list holds a node with that id; a panel whose id does not occur keeps its previous content |
| `AnchorBinder.RenderedSnoc` | resources/public/js/cluster.js:14-17 | rendering one more node changes only the panels carrying its id, and those then hold that node |
| `AnchorBinder.Diagram.ClearPanels` | resources/public/js/cluster.js:8-13 | every anchor's panel becomes the empty, unpositioned template; nothing else changes |
| `AnchorBinder.Diagram.RenderPanels` | resources/public/js/cluster.js:14-17 | each anchor's panel holds the node registered under its id (the last one in the list); panels of other anchors are untouched |
| `AnchorBinder.Diagram.PlaceAnchors` | resources/public/js/cluster.js:18-31 | every anchor takes the geometry `Placed` gives for the measured size of its current panel |
| `AnchorBinder.Diagram.BindPanels` | resources/public/js/cluster.js:8-31 | geometry is read after rendering: each anchor's panel holds its registered node (or the empty template); y = 0 - h/2 - 2, width = w + 30, height = h + 16 for that panel's size; the panel copies x and y |
| `Overlay.DragController.Dragging` | resources/public/js/cluster.js:36 | `hasClass("ui-draggable-dragging")` on the duplicates: some duplicate is dragged, which implies a duplicate exists |
| `Overlay.DragController.AcceptsNow` | resources/public/js/cluster.js:67-69 | the dry run `moveInstance(nodesMap[draggedNodeId], nodesMap[target], false)` for the current duplicate; it can hold only while a duplicate exists |
| `Overlay.DragController.DuplicateNodeId` | resources/public/js/cluster.js:41 | the duplicate's node id is defined exactly when a duplicate exists |
| `Overlay.DragController.MouseEnter` | resources/public/js/cluster.js:35-53 | no change while a duplicate is dragged or when the duplicate already shows the hovered node; otherwise the old duplicate is removed and exactly one new, undragged duplicate of the hovered node exists; at most one duplicate afterwards |
| `Overlay.DragController.DragStart` | resources/public/js/cluster.js:58-64 | the duplicate becomes dragged and the `accept_drop` marks are empty |
| `Overlay.DragController.Accept` | resources/public/js/cluster.js:66-73 | the answer is exactly `moveInstance(source, target, false)` for the dragged node; the target is added to the marks exactly when it accepts; one dry-run call is logged and no committing call |
| `Overlay.DragController.Drop` | resources/public/js/cluster.js:76-79 | the duplicate is removed and exactly one call `moveInstance(source, target, true)` is appended, with the dragged node as source; it is a move the dry run accepted |
| `Overlay.DragController.DragStop` | resources/public/js/cluster.js:85-88 | at the end of a drag released away from any target, the `accept_drop` marks are empty and the duplicate is no longer dragged |
| `Overlay.DragController.MouseLeave` | resources/public/js/cluster.js:90-94 | the duplicate is removed if and only if it is not dragged |
| `Overlay.DragController.Click` | resources/public/js/cluster.js:95-99 | the `accept_drop` marks are empty and the click is suppressed |
| `Overlay.DragController.LabelClick` | resources/public/js/cluster.js:54-57 | the detail view is opened once, for the duplicated node's registry entry, and the click is suppressed |
| `Cluster.GenerateInstanceDivs` | resources/public/js/cluster.js:2-33 | the handlers start with the registry of the list, no duplicate, no mark and no call; every anchor keeps its id and x, its panel holds its registered node and copies the anchor's x and y, and it is sized from that panel (y = 0 - h/2 - 2, width = w + 30, height = h + 16) |
| `Cluster.ThreeNodeRegistry` | resources/public/js/cluster.js:3-6 | the registry of nodes 1, 2, 3 maps each id to its node |
| `Cluster.HoverTwiceThenDrag` | resources/public/js/cluster.js:35-64 | hovering the same node twice leaves exactly one duplicate; dragging it makes it the dragged one, with no mark and no call |
| `Cluster.DragOverThreeTargets` | resources/public/js/cluster.js:66-73 | with a validator accepting only target 2, testing targets 1, 2, 3 marks only 2 and makes no committing call |
| `Cluster.AcceptOnlySecondTarget` | resources/public/js/cluster.js:76-79 | dropping on 2 removes the duplicate; the only committing call is `(1, 2)`; target 2 stays marked, since the drop handler leaves the marks alone |
| `Cluster.ReleaseElsewhere` | resources/public/js/cluster.js:85-88 | releasing the drag away from any target clears every mark, leaves the duplicate undragged and makes no committing call |

## Left out

- Fetching the cluster and maintenance lists and the page start-up (lines 103-113): these are network I/O.
- `resetRefreshTimer` and the document-level click and mousemove handlers (lines 63, 83, 86, 115-121): an idle timer outside this logic. For the same reason the `drag` callback (lines 82-84) is not an event of the model.
- jQuery and jQuery UI mechanics:
  - `clone`, the copied offset, width and height, and `margin-left`
  - `popover()`, `show()` and opacity
  - `hoverClass` and `addClasses`

  The duplicate is modelled only by its node id and its dragging flag.
- The `cancel` option (line 61), which stops a click on the title link from starting a drag: modelled only as the separate `LabelClick` event.
- The `false` returned by the mouseenter handler (lines 38, 42), which stops the event from propagating: not modelled.
- `renderInstanceElement`, `normalizeInstances` and `visualizeInstances`: external renderers.
  - Rendering is modelled as setting the popover's content.
  - The popover's size is the `measure` parameter.
  - The anchors `visualizeInstances` lays out are the `Diagram`'s initial array.
- `moveInstance` with `commit = true` and `openNodeModal`: their effects and results are not modelled; the calls are only logged.
- Which panels the drag library tests with `accept`, and when: the library decides. `Accept` models one test for one target.
- `Overlay.DragController.Drop` requires the target to be marked: jQuery UI only delivers a drop where `accept` returned true. The handler itself does not check.
- `Overlay.DragController.DragStop` also clears the dragging flag: jQuery UI removes `ui-draggable-dragging` right after the `stop` callback, in the same turn.
- `Overlay.DragController.DragStop` models `stop` only for a drag released away from any target. After a drop the duplicate is already removed (line 77), and jQuery UI from 1.9 on fires no `stop` once the dragged element has left the document. So the marks survive a drop, as `Cluster.AcceptOnlySecondTarget` states. jQuery UI also runs `accept` once more on every droppable during the drop. The model does not log those calls; they are dry runs, so they cannot add a committing call.
- `AnchorBinder.Diagram.PlaceAnchors` measures each panel once. The code reads `popoverDiv.height()` twice, at lines 25 and 30, and writes the anchor's `width` in between (lines 27-28). The model assumes that width write does not change the popover's rendered height. The offset-6 clause of `AnchorBinder.Placed` holds only under that assumption.
- Rejecting a drop of a node onto itself: the code leaves it entirely to `moveInstance`, so nothing is claimed about it.
- `AnchorBinder.Diagram.PlaceAnchors` sizes every anchor from its own panel. If two anchors carried the same id, the selector at line 21 would read the first one's panel for both. The layout gives one anchor per node.
- Pixel arithmetic is exact (`real`), not JavaScript floating point.

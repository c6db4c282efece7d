/** The pointer-event state machine: main.js's session globals (lines 9-20)
    and its canvas event handlers, each as a pure transition from a diagram,
    a session and an event to a new diagram, session and effect. Prompts are
    effects; their answers arrive as inputs (the region-label answer with the
    mouseup that raises it, rename/delete answers as `Dialog` events). */
module Interaction {
  import opened Seqs
  import opened Entities
  import opened Text
  import opened Diagrams
  import opened Snapshots

  datatype Point = Point(x: int, y: int)

  /** The session globals. `selectedNode` keeps the reference's immutable
      part; captured drag targets are identities. */
  datatype Session = Session(
    isConnecting: bool,
    selectedNode: Option<NodeRef>,
    isDragging: bool,
    draggedNode: Option<Handle>,
    isCreatingRegion: bool,
    regionStart: Option<Point>,
    draggedRegion: Option<Handle>,
    resizingRegion: Option<Handle>,
    lastMouseX: int,
    lastMouseY: int)

  /** The globals at page load. */
  const Initial: Session := Session(false, None, false, None, false, None, None, None, 0, 0)

  /** A smaller drag than this in either direction proposes no region (main.js:456). */
  const MinRegionDrag: int := 10

  datatype Target = NodeTarget(node: Handle) | RegionTarget(region: Handle)

  /** What a handler asks of the page besides the model change. */
  datatype Effect =
    | NoEffect
    | ShowPanel(target: Target)
    | PromptRename(target: Target)
    | PromptRegionLabel(rect: Rect)

  /** How the region-label prompt was finally answered. */
  datatype LabelAnswer = Cancelled | Confirmed(text: string)

  /** How the rename/delete dialog opened by a double click was left. */
  datatype DialogOutcome = Renamed(text: string) | Dismissed | Deleted

  /** The canvas events and page commands, with their canvas-local
      coordinates. `labelWidth` is the canvas's text measurement; `freshId`
      supplies the random ids of a load. */
  datatype Event =
    | Click(x: int, y: int)
    | MouseDown(x: int, y: int, labelWidth: string -> int)
    | MouseMove(x: int, y: int)
    | MouseUp(x: int, y: int, answer: LabelAnswer)
    | DoubleClick(x: int, y: int)
    | StartConnection
    | StartRegionCreation
    | AddNodeCommand(kind: Kind, x: int, y: int, id: string)
    | Dialog(target: Target, outcome: DialogOutcome)
    | EditNotes(target: Target, text: string)
    | ClearCommand
    | Load(snapshot: Snapshot, freshId: nat -> string)

  datatype Outcome = Outcome(diagram: Diagram, session: Session, effect: Effect)

  function HitsNode(x: int, y: int): Node -> bool {
    (n: Node) => NodeHit(n, x, y)
  }

  function HitsRegion(x: int, y: int): Region -> bool {
    (g: Region) => InRegion(g, x, y)
  }

  function HitsHandle(x: int, y: int): Region -> bool {
    (g: Region) => InResizeHandle(g, x, y)
  }

  function HitsLabel(x: int, y: int, labelWidth: string -> int): Region -> bool {
    (g: Region) => InLabel(g, x, y, labelWidth(g.labelText))
  }

  /** Nothing is captured for dragging or resizing. */
  predicate NoCapture(s: Session) {
    !s.isDragging && s.draggedNode.None? && s.draggedRegion.None? && s.resizingRegion.None?
  }

  /** At most one of the three capture slots is in use, and the node-drag
      flag goes with its slot. */
  predicate AtMostOneCapture(s: Session) {
    && (s.isDragging <==> s.draggedNode.Some?)
    && (s.draggedNode.Some? ==> s.draggedRegion.None? && s.resizingRegion.None?)
    && (s.resizingRegion.Some? ==> s.draggedRegion.None?)
  }

  /** The captures every mouseup clears (main.js:475-478). */
  function ReleaseCaptures(s: Session): (r: Session)
    ensures NoCapture(r)
    ensures r.isConnecting == s.isConnecting && r.selectedNode == s.selectedNode
    ensures r.isCreatingRegion == s.isCreatingRegion && r.regionStart == s.regionStart
    ensures r.lastMouseX == s.lastMouseX && r.lastMouseY == s.lastMouseY
  {
    s.(isDragging := false, draggedNode := None, draggedRegion := None, resizingRegion := None)
  }

  // ---------------------------------------------------------------- click

  /** A click on node `clicked` in connecting mode, as main.js:366-384 is
      written: the first node clicked is selected; clicking it again changes
      nothing; a second, different node ends connecting mode and is joined
      to the selected one only if their types differ. The selection is used
      whether or not its node is still in the diagram. */
  function ConnectClickAsWritten(d: Diagram, s: Session, clicked: Node): (r: (Diagram, Session))
    ensures r.0.nodes == d.nodes && r.0.regions == d.regions && r.0.nextHandle == d.nextHandle
    ensures s.selectedNode.None? ==> r == (d, s.(selectedNode := Some(clicked.ref)))
    ensures s.selectedNode.Some? && s.selectedNode.value.handle == clicked.ref.handle ==> r == (d, s)
    ensures s.selectedNode.Some? && s.selectedNode.value.handle != clicked.ref.handle ==>
      && r.1 == s.(selectedNode := None, isConnecting := false)
      && (s.selectedNode.value.kind != clicked.ref.kind <==> |r.0.connections| == |d.connections| + 1)
      && (s.selectedNode.value.kind != clicked.ref.kind ==>
            r.0.connections == d.connections + [Connection(s.selectedNode.value, clicked.ref)])
      && (s.selectedNode.value.kind == clicked.ref.kind ==> r.0 == d)
  {
    match s.selectedNode
    case None => (d, s.(selectedNode := Some(clicked.ref)))
    case Some(sel) =>
      if sel.handle == clicked.ref.handle then (d, s)
      else
        var d' := if sel.kind != clicked.ref.kind then AddConnection(d, sel, clicked.ref) else d;
        (d', s.(selectedNode := None, isConnecting := false))
  }

  /** The connecting click with a selection whose node has left the diagram
      (deleted, or replaced by a load) treated as no selection: the clicked
      node becomes the selection. Otherwise as written. Every connection it
      adds joins two nodes of the diagram. */
  function ConnectClick(d: Diagram, s: Session, clicked: Node): (r: (Diagram, Session))
    requires clicked in d.nodes
    ensures s.selectedNode.Some? && !HasNode(d.nodes, s.selectedNode.value) ==>
      r == (d, s.(selectedNode := Some(clicked.ref)))
    ensures s.selectedNode.None? || HasNode(d.nodes, s.selectedNode.value) ==>
      r == ConnectClickAsWritten(d, s, clicked)
    ensures Valid(d) ==> Valid(r.0)
    ensures r.1.selectedNode.Some? ==> HasNode(d.nodes, r.1.selectedNode.value)
  {
    var s' := if s.selectedNode.Some? && !HasNode(d.nodes, s.selectedNode.value)
              then s.(selectedNode := None) else s;
    var r := ConnectClickAsWritten(d, s', clicked);
    assert HasNode(d.nodes, clicked.ref) by {
      var i :| 0 <= i < |d.nodes| && d.nodes[i] == clicked;
    }
    r
  }

  /** The click handler (main.js:345-385). Outside connecting mode a click
      on a node, else on a region body, opens its notes panel and changes
      nothing; in connecting mode only a click on a node has an effect. */
  function OnClick(d: Diagram, s: Session, x: int, y: int): (o: Outcome)
    ensures !s.isConnecting ==> o.diagram == d && o.session == s
    ensures !s.isConnecting ==> forall i :: IsFirst(d.nodes, HitsNode(x, y), i) ==>
      o.effect == ShowPanel(NodeTarget(d.nodes[i].ref.handle))
    ensures !s.isConnecting && NoneMatch(d.nodes, HitsNode(x, y)) ==> forall k :: IsFirst(d.regions, HitsRegion(x, y), k) ==>
      o.effect == ShowPanel(RegionTarget(d.regions[k].handle))
    ensures !s.isConnecting && NoneMatch(d.nodes, HitsNode(x, y)) && NoneMatch(d.regions, HitsRegion(x, y)) ==>
      o.effect == NoEffect
    ensures s.isConnecting ==> o.effect == NoEffect
    ensures s.isConnecting && NoneMatch(d.nodes, HitsNode(x, y)) ==> o.diagram == d && o.session == s
    ensures s.isConnecting ==> forall i :: IsFirst(d.nodes, HitsNode(x, y), i) ==>
      (o.diagram, o.session) == ConnectClick(d, s, d.nodes[i])
    ensures Valid(d) ==> Valid(o.diagram)
  {
    var hit := FindFirst(d.nodes, HitsNode(x, y));
    forall i | IsFirst(d.nodes, HitsNode(x, y), i) ensures hit == Some(i) {
      FirstIsUnique(d.nodes, HitsNode(x, y), i);
    }
    if !s.isConnecting then
      match hit
      case Some(i) => Outcome(d, s, ShowPanel(NodeTarget(d.nodes[i].ref.handle)))
      case None =>
        var area := FindFirst(d.regions, HitsRegion(x, y));
        forall k | IsFirst(d.regions, HitsRegion(x, y), k) ensures area == Some(k) {
          FirstIsUnique(d.regions, HitsRegion(x, y), k);
        }
        match area
        case Some(k) => Outcome(d, s, ShowPanel(RegionTarget(d.regions[k].handle)))
        case None => Outcome(d, s, NoEffect)
    else
      match hit
      case None => Outcome(d, s, NoEffect)
      case Some(i) =>
        var (d', s') := ConnectClick(d, s, d.nodes[i]);
        Outcome(d', s', NoEffect)
  }

  /** The click handler as main.js:345-385 is written: a connecting click
      goes through `ConnectClickAsWritten`, stale selection included. It
      agrees with `OnClick` whenever the selection, if any, is still a node
      of the diagram. */
  function OnClickAsWritten(d: Diagram, s: Session, x: int, y: int): (o: Outcome)
    ensures s.isConnecting ==> o.effect == NoEffect
    ensures s.isConnecting && NoneMatch(d.nodes, HitsNode(x, y)) ==> o.diagram == d && o.session == s
    ensures s.isConnecting ==> forall i :: IsFirst(d.nodes, HitsNode(x, y), i) ==>
      (o.diagram, o.session) == ConnectClickAsWritten(d, s, d.nodes[i])
    ensures s.selectedNode.None? || HasNode(d.nodes, s.selectedNode.value) ==> o == OnClick(d, s, x, y)
    ensures !s.isConnecting ==> o == OnClick(d, s, x, y)
  {
    FirstsAreFound(d.nodes, HitsNode(x, y));
    if !s.isConnecting then OnClick(d, s, x, y)
    else
      match FindFirst(d.nodes, HitsNode(x, y))
      case None => Outcome(d, s, NoEffect)
      case Some(i) =>
        var (d', s') := ConnectClickAsWritten(d, s, d.nodes[i]);
        Outcome(d', s', NoEffect)
  }

  // ------------------------------------------------------------ mousedown

  /** The mousedown handler as main.js:387-419 is written. In region-creation
      mode it only records the anchor. Otherwise it captures the first node
      hit, else the first region whose resize handle is hit, else the first
      region whose label is hit, else the first region whose body is hit;
      each slot the search reaches is overwritten, the others keep what they
      held. */
  function OnMouseDownAsWritten(d: Diagram, s: Session, x: int, y: int, labelWidth: string -> int): (r: Session)
    ensures r.lastMouseX == x && r.lastMouseY == y
    ensures r.isConnecting == s.isConnecting && r.selectedNode == s.selectedNode
    ensures r.isCreatingRegion == s.isCreatingRegion
    ensures s.isCreatingRegion ==> r == s.(lastMouseX := x, lastMouseY := y, regionStart := Some(Point(x, y)))
    ensures !s.isCreatingRegion ==> r.regionStart == s.regionStart
    ensures !s.isCreatingRegion ==> forall i :: IsFirst(d.nodes, HitsNode(x, y), i) ==>
      && r.draggedNode == Some(d.nodes[i].ref.handle) && r.isDragging
      && r.resizingRegion == s.resizingRegion && r.draggedRegion == s.draggedRegion
    ensures !s.isCreatingRegion && NoneMatch(d.nodes, HitsNode(x, y)) ==>
      r.draggedNode.None? && r.isDragging == s.isDragging
    ensures !s.isCreatingRegion && NoneMatch(d.nodes, HitsNode(x, y)) ==>
      forall k :: IsFirst(d.regions, HitsHandle(x, y), k) ==>
        r.resizingRegion == Some(d.regions[k].handle) && r.draggedRegion == s.draggedRegion
    ensures !s.isCreatingRegion && NoneMatch(d.nodes, HitsNode(x, y)) && NoneMatch(d.regions, HitsHandle(x, y)) ==>
      && r.resizingRegion.None?
      && (forall k :: IsFirst(d.regions, HitsLabel(x, y, labelWidth), k) ==>
            r.draggedRegion == Some(d.regions[k].handle))
      && (NoneMatch(d.regions, HitsLabel(x, y, labelWidth)) ==>
            forall k :: IsFirst(d.regions, HitsRegion(x, y), k) ==> r.draggedRegion == Some(d.regions[k].handle))
      && (NoneMatch(d.regions, HitsLabel(x, y, labelWidth)) && NoneMatch(d.regions, HitsRegion(x, y)) ==>
            r.draggedRegion.None?)
  {
    var s1 := s.(lastMouseX := x, lastMouseY := y);
    if s.isCreatingRegion then s1.(regionStart := Some(Point(x, y)))
    else
      var byNode := FindFirst(d.nodes, HitsNode(x, y));
      var byHandle := FindFirst(d.regions, HitsHandle(x, y));
      var byLabel := FindFirst(d.regions, HitsLabel(x, y, labelWidth));
      var byBody := FindFirst(d.regions, HitsRegion(x, y));
      FirstsAreFound(d.nodes, HitsNode(x, y));
      FirstsAreFound(d.regions, HitsHandle(x, y));
      FirstsAreFound(d.regions, HitsLabel(x, y, labelWidth));
      FirstsAreFound(d.regions, HitsRegion(x, y));
      match byNode
      case Some(i) => s1.(draggedNode := Some(d.nodes[i].ref.handle), isDragging := true)
      case None =>
        var s2 := s1.(draggedNode := None);
        match byHandle
        case Some(k) => s2.(resizingRegion := Some(d.regions[k].handle))
        case None =>
          var s3 := s2.(resizingRegion := None);
          match byLabel
          case Some(k) => s3.(draggedRegion := Some(d.regions[k].handle))
          case None =>
            match byBody
            case Some(k) => s3.(draggedRegion := Some(d.regions[k].handle))
            case None => s3.(draggedRegion := None)
  }

  /** No node, resize handle, region label or region body lies under the point. */
  predicate NothingUnder(d: Diagram, x: int, y: int, labelWidth: string -> int) {
    && NoneMatch(d.nodes, HitsNode(x, y))
    && NoneMatch(d.regions, HitsHandle(x, y))
    && NoneMatch(d.regions, HitsLabel(x, y, labelWidth))
    && NoneMatch(d.regions, HitsRegion(x, y))
  }

  /** The mousedown handler with the captures of an earlier gesture released
      first, so that a gesture whose mouseup never reached the canvas cannot
      leave a second capture behind. A gesture then captures at most one
      entity, the one of highest priority under the pointer. */
  function OnMouseDown(d: Diagram, s: Session, x: int, y: int, labelWidth: string -> int): (r: Session)
    ensures r.lastMouseX == x && r.lastMouseY == y
    ensures s.isCreatingRegion ==> r == s.(lastMouseX := x, lastMouseY := y, regionStart := Some(Point(x, y)))
    ensures !s.isCreatingRegion ==> r == OnMouseDownAsWritten(d, ReleaseCaptures(s), x, y, labelWidth)
    ensures !s.isCreatingRegion ==> AtMostOneCapture(r)
    ensures AtMostOneCapture(s) ==> AtMostOneCapture(r)
    ensures !s.isCreatingRegion && NothingUnder(d, x, y, labelWidth) ==> NoCapture(r)
  {
    var s0 := if s.isCreatingRegion then s else ReleaseCaptures(s);
    OnMouseDownAsWritten(d, s0, x, y, labelWidth)
  }

  // ------------------------------------------------------------ mousemove

  /** The mousemove handler (main.js:421-445): the pointer delta since the
      last recorded position resizes the region being resized, else
      translates the region being dragged, else moves the dragged node's
      centre to the pointer; the pointer position is recorded every time. */
  function OnMouseMove(d: Diagram, s: Session, x: int, y: int): (o: Outcome)
    ensures o.session == s.(lastMouseX := x, lastMouseY := y) && o.effect == NoEffect
    ensures Valid(d) ==> Valid(o.diagram)
    ensures o.diagram.connections == d.connections && o.diagram.nextHandle == d.nextHandle
    ensures s.resizingRegion.Some? ==>
      && o.diagram.nodes == d.nodes
      && |o.diagram.regions| == |d.regions|
      && forall k :: 0 <= k < |d.regions| && d.regions[k].handle == s.resizingRegion.value ==>
           && o.diagram.regions[k].width >= MinRegionSize && o.diagram.regions[k].height >= MinRegionSize
           && o.diagram.regions[k].width >= d.regions[k].width + (x - s.lastMouseX)
           && o.diagram.regions[k].height >= d.regions[k].height + (y - s.lastMouseY)
    ensures s.resizingRegion.None? && s.draggedRegion.Some? ==>
      && o.diagram.nodes == d.nodes
      && |o.diagram.regions| == |d.regions|
      && forall k :: 0 <= k < |d.regions| && d.regions[k].handle == s.draggedRegion.value ==>
           o.diagram.regions[k].x - d.regions[k].x == x - s.lastMouseX
           && o.diagram.regions[k].y - d.regions[k].y == y - s.lastMouseY
    ensures s.resizingRegion.None? && s.draggedRegion.None? && s.isDragging && s.draggedNode.Some? ==>
      && o.diagram.regions == d.regions
      && |o.diagram.nodes| == |d.nodes|
      && forall i :: 0 <= i < |d.nodes| && d.nodes[i].ref.handle == s.draggedNode.value ==>
           o.diagram.nodes[i].x == x && o.diagram.nodes[i].y == y
    ensures s.resizingRegion.None? && s.draggedRegion.None? && !(s.isDragging && s.draggedNode.Some?) ==>
      o.diagram == d
    ensures s.resizingRegion.Some? ==> o.diagram == ResizeRegion(d, s.resizingRegion.value, x - s.lastMouseX, y - s.lastMouseY)
    ensures s.resizingRegion.None? && s.draggedRegion.Some? ==>
      o.diagram == TranslateRegion(d, s.draggedRegion.value, x - s.lastMouseX, y - s.lastMouseY)
    ensures s.resizingRegion.None? && s.draggedRegion.None? && s.isDragging && s.draggedNode.Some? ==>
      o.diagram == MoveNode(d, s.draggedNode.value, x, y)
  {
    var dx, dy := x - s.lastMouseX, y - s.lastMouseY;
    var d' :=
      if s.resizingRegion.Some? then ResizeRegion(d, s.resizingRegion.value, dx, dy)
      else if s.draggedRegion.Some? then TranslateRegion(d, s.draggedRegion.value, dx, dy)
      else if s.isDragging && s.draggedNode.Some? then MoveNode(d, s.draggedNode.value, x, y)
      else d;
    Outcome(d', s.(lastMouseX := x, lastMouseY := y), NoEffect)
  }

  /** The mousemove events of a pointer path. */
  function Moves(ps: seq<Point>): (es: seq<Event>)
    ensures |es| == |ps|
    ensures forall i :: 0 <= i < |ps| ==> es[i] == MouseMove(ps[i].x, ps[i].y)
  {
    seq(|ps|, i requires 0 <= i < |ps| => MouseMove(ps[i].x, ps[i].y))
  }

  /** However the pointer wanders while a node is dragged, the node ends
      under the last pointer position; every other node, every connection
      and every region stays where it was, and the capture is kept. */
  lemma {:induction false} NodeDragEndsAtPointer(d: Diagram, s: Session, ps: seq<Point>)
    requires |ps| > 0
    requires s.resizingRegion.None? && s.draggedRegion.None? && s.isDragging && s.draggedNode.Some?
    ensures |Run(d, s, Moves(ps)).0.nodes| == |d.nodes|
    ensures forall i :: 0 <= i < |d.nodes| && d.nodes[i].ref.handle == s.draggedNode.value ==>
      Run(d, s, Moves(ps)).0.nodes[i] == d.nodes[i].(x := ps[|ps| - 1].x, y := ps[|ps| - 1].y)
    ensures forall i :: 0 <= i < |d.nodes| && d.nodes[i].ref.handle != s.draggedNode.value ==>
      Run(d, s, Moves(ps)).0.nodes[i] == d.nodes[i]
    ensures Run(d, s, Moves(ps)).0.connections == d.connections && Run(d, s, Moves(ps)).0.regions == d.regions
    ensures Run(d, s, Moves(ps)).1 == s.(lastMouseX := ps[|ps| - 1].x, lastMouseY := ps[|ps| - 1].y)
    decreases |ps|
  {
    var o := OnMouseMove(d, s, ps[0].x, ps[0].y);
    assert Moves(ps)[1..] == Moves(ps[1..]);
    assert Run(d, s, Moves(ps)) == Run(o.diagram, o.session, Moves(ps[1..]));
    if |ps| > 1 {
      NodeDragEndsAtPointer(o.diagram, o.session, ps[1..]);
    }
  }

  /** While a region is dragged its displacement is the pointer's total
      displacement since the last recorded position, whatever path the
      pointer took; its size, label and notes are kept. */
  lemma {:induction false} RegionDragTracksPointer(d: Diagram, s: Session, ps: seq<Point>)
    requires |ps| > 0
    requires s.resizingRegion.None? && s.draggedRegion.Some?
    ensures |Run(d, s, Moves(ps)).0.regions| == |d.regions|
    ensures forall k :: 0 <= k < |d.regions| && d.regions[k].handle == s.draggedRegion.value ==>
      Run(d, s, Moves(ps)).0.regions[k]
        == d.regions[k].(x := d.regions[k].x + (ps[|ps| - 1].x - s.lastMouseX),
                         y := d.regions[k].y + (ps[|ps| - 1].y - s.lastMouseY))
    ensures forall k :: 0 <= k < |d.regions| && d.regions[k].handle != s.draggedRegion.value ==>
      Run(d, s, Moves(ps)).0.regions[k] == d.regions[k]
    ensures Run(d, s, Moves(ps)).0.nodes == d.nodes && Run(d, s, Moves(ps)).0.connections == d.connections
    ensures Run(d, s, Moves(ps)).1 == s.(lastMouseX := ps[|ps| - 1].x, lastMouseY := ps[|ps| - 1].y)
    decreases |ps|
  {
    var o := OnMouseMove(d, s, ps[0].x, ps[0].y);
    assert Moves(ps)[1..] == Moves(ps[1..]);
    assert Run(d, s, Moves(ps)) == Run(o.diagram, o.session, Moves(ps[1..]));
    if |ps| > 1 {
      RegionDragTracksPointer(o.diagram, o.session, ps[1..]);
    }
  }

  // -------------------------------------------------------------- mouseup

  /** The rectangle spanned by the anchor and the release point, normalised
      to its top-left corner and non-negative size (main.js:458-461): it
      contains both points, and no point of it lies left of or above either. */
  function Normalise(a: Point, x: int, y: int): (r: Rect)
    ensures r.width >= 0 && r.height >= 0
    ensures Covers(r, a.x, a.y) && Covers(r, x, y)
    ensures r.width == Abs(x - a.x) && r.height == Abs(y - a.y)
    ensures forall px, py :: Covers(r, px, py) ==> Min(a.x, x) <= px && Min(a.y, y) <= py
  {
    Rect(Min(a.x, x), Min(a.y, y), Abs(x - a.x), Abs(y - a.y))
  }

  /** The creation-mode part of mouseup, from anchor `a` to the release
      point (main.js:453-468): a drag larger than `MinRegionDrag` both ways
      proposes the normalised rectangle and prompts for a label; a region is
      appended only when the prompt is confirmed with text that is not all
      whitespace, and its label is that text trimmed. */
  function FinishRegion(d: Diagram, a: Point, x: int, y: int, answer: LabelAnswer): (r: (Diagram, Effect))
    ensures r.1.PromptRegionLabel? <==> Abs(x - a.x) > MinRegionDrag && Abs(y - a.y) > MinRegionDrag
    ensures !r.1.PromptRegionLabel? ==> r.1 == NoEffect
    ensures r.1.PromptRegionLabel? ==> r.1.rect == Rect(Min(a.x, x), Min(a.y, y), Abs(x - a.x), Abs(y - a.y))
    ensures r.0 != d <==> r.1.PromptRegionLabel? && answer.Confirmed? && !AllWhitespace(answer.text)
    ensures r.0 != d ==>
      && |r.0.regions| == |d.regions| + 1
      && r.0.regions[..|d.regions|] == d.regions
      && r.0.nodes == d.nodes && r.0.connections == d.connections
      && var g := r.0.regions[|d.regions|];
         && g.x == Min(a.x, x) && g.y == Min(a.y, y)
         && g.width == Abs(x - a.x) && g.height == Abs(y - a.y)
         && g.width > MinRegionDrag && g.height > MinRegionDrag
         && InRegion(g, a.x, a.y) && InRegion(g, x, y)
         && g.labelText == Trim(answer.text) && g.labelText != [] && g.notes == []
         && g.handle == d.nextHandle
    ensures Valid(d) ==> Valid(r.0)
  {
    if Abs(x - a.x) > MinRegionDrag && Abs(y - a.y) > MinRegionDrag then
      var rect := Normalise(a, x, y);
      var effect := PromptRegionLabel(rect);
      if answer.Confirmed? && Trim(answer.text) != [] then
        var d' := AddRegion(d, rect.x, rect.y, rect.width, rect.height, Trim(answer.text));
        assert |d'.regions| != |d.regions|;
        (d', effect)
      else (d, effect)
    else (d, NoEffect)
  }

  /** The mouseup handler (main.js:447-479). In region-creation mode with an
      anchor, `FinishRegion` decides the prompt and the new region; creation
      mode and the anchor are then cleared. Every mouseup releases all
      captures. */
  function OnMouseUp(d: Diagram, s: Session, x: int, y: int, answer: LabelAnswer): (o: Outcome)
    ensures NoCapture(o.session)
    ensures o.session.isConnecting == s.isConnecting && o.session.selectedNode == s.selectedNode
    ensures o.session.lastMouseX == s.lastMouseX && o.session.lastMouseY == s.lastMouseY
    ensures !(s.isCreatingRegion && s.regionStart.Some?) ==>
      o.diagram == d && o.session == ReleaseCaptures(s) && o.effect == NoEffect
    ensures s.isCreatingRegion && s.regionStart.Some? ==>
      !o.session.isCreatingRegion && o.session.regionStart.None?
    ensures s.isCreatingRegion && s.regionStart.Some? ==>
      o.effect == FinishRegion(d, s.regionStart.value, x, y, answer).1
    ensures s.isCreatingRegion && s.regionStart.Some? ==>
      var a := s.regionStart.value;
      && (o.effect.PromptRegionLabel? <==> Abs(x - a.x) > MinRegionDrag && Abs(y - a.y) > MinRegionDrag)
      && (o.effect.PromptRegionLabel? ==>
            o.effect.rect == Rect(Min(a.x, x), Min(a.y, y), Abs(x - a.x), Abs(y - a.y)))
      && (o.diagram != d <==> o.effect.PromptRegionLabel? && answer.Confirmed? && !AllWhitespace(answer.text))
    ensures o.diagram != d ==>
      && s.regionStart.Some?
      && |o.diagram.regions| == |d.regions| + 1
      && o.diagram.regions[..|d.regions|] == d.regions
      && o.diagram.nodes == d.nodes && o.diagram.connections == d.connections
      && var g := o.diagram.regions[|d.regions|];
         var a := s.regionStart.value;
         && g.x == Min(a.x, x) && g.y == Min(a.y, y)
         && g.width == Abs(x - a.x) && g.height == Abs(y - a.y)
         && g.width > MinRegionDrag && g.height > MinRegionDrag
         && InRegion(g, a.x, a.y) && InRegion(g, x, y)
         && g.labelText == Trim(answer.text) && g.labelText != [] && g.notes == []
         && g.handle == d.nextHandle
    ensures Valid(d) ==> Valid(o.diagram)
  {
    if s.isCreatingRegion && s.regionStart.Some? then
      var (d', effect) := FinishRegion(d, s.regionStart.value, x, y, answer);
      Outcome(d', ReleaseCaptures(s).(isCreatingRegion := false, regionStart := None), effect)
    else Outcome(d, ReleaseCaptures(s), NoEffect)
  }

  // ------------------------------------------------------------- dblclick

  /** The double-click handler (main.js:586-603): opens the rename/delete
      dialog for the first node hit, else the first region whose body is
      hit, in any mode; the model and session are untouched. */
  function OnDoubleClick(d: Diagram, s: Session, x: int, y: int): (o: Outcome)
    ensures o.diagram == d && o.session == s
    ensures forall i :: IsFirst(d.nodes, HitsNode(x, y), i) ==> o.effect == PromptRename(NodeTarget(d.nodes[i].ref.handle))
    ensures NoneMatch(d.nodes, HitsNode(x, y)) ==> forall k :: IsFirst(d.regions, HitsRegion(x, y), k) ==>
      o.effect == PromptRename(RegionTarget(d.regions[k].handle))
    ensures NoneMatch(d.nodes, HitsNode(x, y)) && NoneMatch(d.regions, HitsRegion(x, y)) ==> o.effect == NoEffect
  {
    FirstsAreFound(d.nodes, HitsNode(x, y));
    FirstsAreFound(d.regions, HitsRegion(x, y));
    match FindFirst(d.nodes, HitsNode(x, y))
    case Some(i) => Outcome(d, s, PromptRename(NodeTarget(d.nodes[i].ref.handle)))
    case None =>
      match FindFirst(d.regions, HitsRegion(x, y))
      case Some(k) => Outcome(d, s, PromptRename(RegionTarget(d.regions[k].handle)))
      case None => Outcome(d, s, NoEffect)
  }

  // ------------------------------------------------------------- commands

  /** The rename/delete dialog's answer (main.js:62-80, 245-260). The dialog
      leaves the session globals alone: in particular a deleted node stays
      selected if it was. */
  function OnDialog(d: Diagram, s: Session, t: Target, outcome: DialogOutcome): (o: Outcome)
    ensures o.session == s && o.effect == NoEffect
    ensures outcome.Dismissed? ==> o.diagram == d
    ensures outcome.Deleted? && t.NodeTarget? ==> o.diagram == DeleteNode(d, t.node)
    ensures outcome.Deleted? && t.RegionTarget? ==> o.diagram == DeleteRegion(d, t.region)
    ensures outcome.Renamed? && AllWhitespace(outcome.text) ==> o.diagram == d
    ensures outcome.Renamed? && t.NodeTarget? ==> o.diagram == RenameNode(d, t.node, outcome.text)
    ensures outcome.Renamed? && t.RegionTarget? ==> o.diagram == RenameRegion(d, t.region, outcome.text)
    ensures Valid(d) ==> Valid(o.diagram)
  {
    var d' :=
      match (t, outcome)
      case (_, Dismissed) => d
      case (NodeTarget(h), Deleted) => DeleteNode(d, h)
      case (RegionTarget(h), Deleted) => DeleteRegion(d, h)
      case (NodeTarget(h), Renamed(text)) => RenameNode(d, h, text)
      case (RegionTarget(h), Renamed(text)) => RenameRegion(d, h, text);
    assert outcome.Renamed? && AllWhitespace(outcome.text) ==> d' == d by {
      if outcome.Renamed? && AllWhitespace(outcome.text) {
        if t.NodeTarget? {
          assert d'.nodes == d.nodes;
        } else {
          assert d'.regions == d.regions;
        }
      }
    }
    Outcome(d', s, NoEffect)
  }

  /** Typing into the notes panel opened for `t` (main.js:625-627). */
  function OnEditNotes(d: Diagram, s: Session, t: Target, text: string): (o: Outcome)
    ensures o.session == s && o.effect == NoEffect
    ensures t.NodeTarget? ==> o.diagram == SetNodeNotes(d, t.node, text)
    ensures t.RegionTarget? ==> o.diagram == SetRegionNotes(d, t.region, text)
    ensures Valid(d) ==> Valid(o.diagram)
  {
    match t
    case NodeTarget(h) => Outcome(SetNodeNotes(d, h, text), s, NoEffect)
    case RegionTarget(h) => Outcome(SetRegionNotes(d, h, text), s, NoEffect)
  }

  /** `clearMindMap` (main.js:655-671): empty collections and every mode,
      selection, anchor and capture reset; the last pointer position is kept. */
  function OnClear(d: Diagram, s: Session): (o: Outcome)
    ensures o.diagram.nodes == [] && o.diagram.connections == [] && o.diagram.regions == []
    ensures o.session == Initial.(lastMouseX := s.lastMouseX, lastMouseY := s.lastMouseY)
    ensures Valid(o.diagram) && NoCapture(o.session)
    ensures o.effect == NoEffect
  {
    Outcome(Clear(d), Session(false, None, false, None, false, None, None, None, s.lastMouseX, s.lastMouseY), NoEffect)
  }

  /** The load half of `loadFromJson` (main.js:535-569) applied to the page:
      the collections are replaced on success; the session globals are left
      as they were. */
  function OnLoad(d: Diagram, s: Session, snap: Snapshot, freshId: nat -> string): (o: Outcome)
    ensures o.session == s && o.effect == NoEffect
    ensures Import(snap, d.nextHandle, freshId).Failure? ==> o.diagram == d
    ensures Import(snap, d.nextHandle, freshId).Success? ==> Valid(o.diagram)
    ensures Import(snap, d.nextHandle, freshId).Success? ==> o.diagram == Import(snap, d.nextHandle, freshId).value
    ensures forall i :: 0 <= i < |o.diagram.nodes| && o.diagram != d ==> o.diagram.nodes[i].ref.handle >= d.nextHandle
    ensures Valid(d) ==> Valid(o.diagram)
  {
    match Import(snap, d.nextHandle, freshId)
    case Success(d') => Outcome(d', s, NoEffect)
    case Failure(_) => Outcome(d, s, NoEffect)
  }

  /** One event. */
  function Step(d: Diagram, s: Session, e: Event): (o: Outcome)
    ensures e.StartConnection? ==>
      o.diagram == d && o.effect == NoEffect && o.session.isConnecting
      && o.session.(isConnecting := s.isConnecting) == s
    ensures e.StartRegionCreation? ==>
      o.diagram == d && o.effect == NoEffect && o.session.isCreatingRegion
      && o.session.(isCreatingRegion := s.isCreatingRegion) == s
    ensures e.AddNodeCommand? ==>
      o.diagram == AddNode(d, e.kind, e.x, e.y, e.id) && o.session == s && o.effect == NoEffect
  {
    // Each event goes to its handler unchanged; the handlers' contracts state what it does.
    match e
    case Click(x, y) => OnClick(d, s, x, y)
    case MouseDown(x, y, labelWidth) => Outcome(d, OnMouseDown(d, s, x, y, labelWidth), NoEffect)
    case MouseMove(x, y) => OnMouseMove(d, s, x, y)
    case MouseUp(x, y, answer) => OnMouseUp(d, s, x, y, answer)
    case DoubleClick(x, y) => OnDoubleClick(d, s, x, y)
    case StartConnection => Outcome(d, s.(isConnecting := true), NoEffect)
    case StartRegionCreation => Outcome(d, s.(isCreatingRegion := true), NoEffect)
    case AddNodeCommand(kind, x, y, id) => Outcome(AddNode(d, kind, x, y, id), s, NoEffect)
    case Dialog(t, outcome) => OnDialog(d, s, t, outcome)
    case EditNotes(t, text) => OnEditNotes(d, s, t, text)
    case ClearCommand => OnClear(d, s)
    case Load(snap, freshId) => OnLoad(d, s, snap, freshId)
  }

  /** The state after a sequence of events. */
  function Run(d: Diagram, s: Session, events: seq<Event>): (Diagram, Session)
    decreases |events|
  {
    if |events| == 0 then (d, s)
    else
      var o := Step(d, s, events[0]);
      Run(o.diagram, o.session, events[1..])
  }

  /** One event, with the click and mousedown handlers as main.js writes
      them. It differs from `Step` only on a click with a stale selection
      and on a mousedown that finds an earlier capture still held. */
  function StepAsWritten(d: Diagram, s: Session, e: Event): (o: Outcome)
    ensures !e.Click? && !e.MouseDown? ==> o == Step(d, s, e)
    ensures e.Click? && (s.selectedNode.None? || HasNode(d.nodes, s.selectedNode.value)) ==> o == Step(d, s, e)
    ensures e.MouseDown? && (s.isCreatingRegion || NoCapture(s)) ==> o == Step(d, s, e)
  {
    match e
    case Click(x, y) => OnClickAsWritten(d, s, x, y)
    case MouseDown(x, y, labelWidth) =>
      assert NoCapture(s) ==> ReleaseCaptures(s) == s;
      Outcome(d, OnMouseDownAsWritten(d, s, x, y, labelWidth), NoEffect)
    case _ => Step(d, s, e)
  }

  /** The state after a sequence of events handled as main.js writes them. */
  function RunAsWritten(d: Diagram, s: Session, events: seq<Event>): (Diagram, Session)
    decreases |events|
  {
    if |events| == 0 then (d, s)
    else
      var o := StepAsWritten(d, s, events[0]);
      RunAsWritten(o.diagram, o.session, events[1..])
  }

  /** The session invariant: a selection only in connecting mode, an anchor
      only in creation mode, at most one capture. */
  predicate SessionOk(s: Session) {
    && (s.selectedNode.Some? ==> s.isConnecting)
    && (s.regionStart.Some? ==> s.isCreatingRegion)
    && AtMostOneCapture(s)
  }

  predicate Inv(d: Diagram, s: Session) {
    Valid(d) && SessionOk(s)
  }

  /** A connecting click keeps the session invariant. */
  lemma ConnectClickKeepsSessionOk(d: Diagram, s: Session, clicked: Node)
    requires clicked in d.nodes && SessionOk(s) && s.isConnecting
    ensures SessionOk(ConnectClick(d, s, clicked).1)
  {
  }

  /** A click in connecting mode keeps the diagram and session invariants. */
  lemma ConnectingClickKeepsInv(d: Diagram, s: Session, x: int, y: int)
    requires Inv(d, s) && s.isConnecting
    ensures Inv(OnClick(d, s, x, y).diagram, OnClick(d, s, x, y).session)
  {
    var o := OnClick(d, s, x, y);
    assert Valid(o.diagram);
    match FindFirst(d.nodes, HitsNode(x, y))
    case None =>
      assert o.session == s;
    case Some(i) =>
      assert IsFirst(d.nodes, HitsNode(x, y), i);
      ConnectClickKeepsSessionOk(d, s, d.nodes[i]);
      assert o.session == ConnectClick(d, s, d.nodes[i]).1;
  }

  /** A click keeps the diagram and session invariants. */
  lemma ClickKeepsInv(d: Diagram, s: Session, x: int, y: int)
    requires Inv(d, s)
    ensures Inv(OnClick(d, s, x, y).diagram, OnClick(d, s, x, y).session)
  {
    if s.isConnecting {
      ConnectingClickKeepsInv(d, s, x, y);
    }
  }

  /** A pointer event other than a click keeps the invariants. */
  lemma PointerEventKeepsInv(d: Diagram, s: Session, e: Event)
    requires Inv(d, s)
    requires e.MouseDown? || e.MouseMove? || e.MouseUp? || e.DoubleClick?
    ensures Inv(Step(d, s, e).diagram, Step(d, s, e).session)
  {
    match e
    case MouseDown(x, y, labelWidth) =>
      assert Step(d, s, e) == Outcome(d, OnMouseDown(d, s, x, y, labelWidth), NoEffect);
    case MouseMove(x, y) =>
      assert Step(d, s, e) == OnMouseMove(d, s, x, y);
    case MouseUp(x, y, answer) =>
      assert Step(d, s, e) == OnMouseUp(d, s, x, y, answer);
    case DoubleClick(x, y) =>
      assert Step(d, s, e) == OnDoubleClick(d, s, x, y);
  }

  /** A page command or a dialog or panel answer keeps the invariants. */
  lemma CommandKeepsInv(d: Diagram, s: Session, e: Event)
    requires Inv(d, s)
    requires !e.Click? && !e.MouseDown? && !e.MouseMove? && !e.MouseUp? && !e.DoubleClick?
    ensures Inv(Step(d, s, e).diagram, Step(d, s, e).session)
  {
    match e
    case StartConnection =>
    case StartRegionCreation =>
    case AddNodeCommand(kind, x, y, id) =>
    case Dialog(t, outcome) =>
      assert Step(d, s, e) == OnDialog(d, s, t, outcome);
    case EditNotes(t, text) =>
      assert Step(d, s, e) == OnEditNotes(d, s, t, text);
    case ClearCommand =>
      assert Step(d, s, e) == OnClear(d, s);
    case Load(snap, freshId) =>
      assert Step(d, s, e) == OnLoad(d, s, snap, freshId);
  }

  /** Every event keeps the diagram and session invariants. */
  lemma StepKeepsInv(d: Diagram, s: Session, e: Event)
    requires Inv(d, s)
    ensures Inv(Step(d, s, e).diagram, Step(d, s, e).session)
  {
    if e.Click? {
      ClickKeepsInv(d, s, e.x, e.y);
      assert Step(d, s, e) == OnClick(d, s, e.x, e.y);
    } else if e.MouseDown? || e.MouseMove? || e.MouseUp? || e.DoubleClick? {
      PointerEventKeepsInv(d, s, e);
    } else {
      CommandKeepsInv(d, s, e);
    }
  }

  /** Every state reachable from an invariant state satisfies the invariant. */
  lemma {:induction false} RunKeepsInv(d: Diagram, s: Session, events: seq<Event>)
    requires Inv(d, s)
    ensures Inv(Run(d, s, events).0, Run(d, s, events).1)
    decreases |events|
  {
    if |events| > 0 {
      StepKeepsInv(d, s, events[0]);
      var o := Step(d, s, events[0]);
      RunKeepsInv(o.diagram, o.session, events[1..]);
    }
  }

  /** No reachable state has a dangling connection or a second capture. */
  lemma ReachableStatesValid(events: seq<Event>)
    ensures NoDangling(Run(Empty, Initial, events).0)
    ensures Valid(Run(Empty, Initial, events).0)
    ensures AtMostOneCapture(Run(Empty, Initial, events).1)
  {
    RunKeepsInv(Empty, Initial, events);
  }
}

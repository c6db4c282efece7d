/** The diagram's entities, the `Node` and `Region` classes of main.js, with
    their hit-test methods. Coordinates are canvas-local integers. */
module Entities {

  datatype Kind = Team | Project

  /** JavaScript object identity. Every node or region object the program
      creates receives a handle no earlier object had; `===` and `!==` on
      objects compare handles. */
  type Handle = nat

  /** What a reference to a node object carries that never changes after the
      object is set up: its identity, its string `id` and its `type`. A
      connection endpoint or the connect-mode selection holds one of these,
      so it keeps them even after the node leaves the diagram. */
  datatype NodeRef = NodeRef(handle: Handle, id: string, kind: Kind)

  /** A node object: the reference plus its mutable centre, label (`labelText`, since
      `label` is a Dafny keyword) and notes. */
  datatype Node = Node(ref: NodeRef, x: int, y: int, labelText: string, notes: string)

  /** A region object; `x`, `y` is the top-left corner. */
  datatype Region = Region(handle: Handle, x: int, y: int, width: int, height: int, labelText: string, notes: string)

  /** A connection holds references to its two endpoint node objects. */
  datatype Connection = Connection(from: NodeRef, to: NodeRef)

  /** Every node's `radius` (main.js:27). */
  const NodeRadius: int := 30
  /** Every region's `resizeHandle` side (main.js:121). */
  const ResizeHandle: int := 10
  /** Offset of a region's label from its top-left corner (main.js:192, 228-230). */
  const LabelInset: int := 5
  /** Assumed text height of a region label (main.js:231). */
  const LabelHeight: int := 20
  /** Floor on a region's width and height while it is being resized (main.js:430-431). */
  const MinRegionSize: int := 50

  function DefaultLabel(k: Kind): string {
    match k
    case Team => "New Team Member"
    case Project => "New Project"
  }

  /** The `Node` constructor: a fresh object with the kind's default label and empty notes. */
  function NewNode(h: Handle, id: string, kind: Kind, x: int, y: int): Node {
    Node(NodeRef(h, id, kind), x, y, DefaultLabel(kind), "")
  }

  /** `Node.isClicked`: within `radius` of the centre, boundary included,
      written as squared distance against squared radius. A hit lies within
      `NodeRadius` of the centre along each axis, and along the two axes
      through the centre exactly the points at most `NodeRadius` away hit. */
  function NodeHit(n: Node, x: int, y: int): (b: bool)
    ensures b ==> -NodeRadius <= x - n.x <= NodeRadius && -NodeRadius <= y - n.y <= NodeRadius
    ensures y == n.y ==> (b <==> -NodeRadius <= x - n.x <= NodeRadius)
    ensures x == n.x ==> (b <==> -NodeRadius <= y - n.y <= NodeRadius)
  {
    var dx, dy := x - n.x, y - n.y;
    SquareFacts(dx);
    SquareFacts(dy);
    dx * dx + dy * dy <= NodeRadius * NodeRadius
  }

  /** An axis-aligned rectangle by its top-left corner and size. */
  datatype Rect = Rect(x: int, y: int, width: int, height: int)

  /** The closed rectangle contains the point. */
  predicate Covers(r: Rect, px: int, py: int) {
    r.x <= px <= r.x + r.width && r.y <= py <= r.y + r.height
  }

  /** `Region.isInRegion`: inside the region's closed rectangle. */
  function InRegion(r: Region, x: int, y: int): (b: bool)
    ensures b ==> r.width >= 0 && r.height >= 0
    ensures b ==> r.x <= x && r.y <= y
  {
    Covers(Rect(r.x, r.y, r.width, r.height), x, y)
  }

  /** `Region.isInResizeHandle`: inside the closed square of side
      `ResizeHandle` at the bottom-right corner. For a region at least as large
      as the handle, the handle lies inside the region body. */
  function InResizeHandle(r: Region, x: int, y: int): (b: bool)
    ensures b && r.width >= ResizeHandle && r.height >= ResizeHandle ==> InRegion(r, x, y)
    ensures b ==> r.x + r.width - ResizeHandle <= x && r.y + r.height - ResizeHandle <= y
  {
    && r.x + r.width - ResizeHandle <= x <= r.x + r.width
    && r.y + r.height - ResizeHandle <= y <= r.y + r.height
  }

  /** `Region.isInLabel`: inside the box of the measured label width and
      `LabelHeight`, inset by `LabelInset` from the top-left corner. The width
      is what the canvas's text measurement reports for the label. When the
      label box fits, it lies inside the region body. */
  function InLabel(r: Region, x: int, y: int, labelWidth: int): (b: bool)
    ensures b && LabelInset + labelWidth <= r.width && LabelInset + LabelHeight <= r.height
            ==> InRegion(r, x, y)
    ensures b ==> labelWidth >= 0
  {
    && r.x + LabelInset <= x <= r.x + LabelInset + labelWidth
    && r.y + LabelInset <= y <= r.y + LabelInset + LabelHeight
  }

  /** Along the horizontal and the vertical through the centre, the hit test
      accepts exactly the points at most `NodeRadius` away: a point 30 to the
      right of the centre hits, one 31 to the right does not. */
  lemma NodeHitOnAxes(n: Node)
    ensures NodeHit(n, n.x + 30, n.y) && !NodeHit(n, n.x + 31, n.y)
    ensures NodeHit(n, n.x, n.y - 30) && !NodeHit(n, n.x, n.y - 31)
  {
  }

  /** What the hit test needs of a square: it is non-negative, exceeds the
      squared radius outside the radius, and stays within it inside. */
  lemma SquareFacts(d: int)
    ensures d * d >= 0
    ensures d > NodeRadius || d < -NodeRadius ==> d * d > NodeRadius * NodeRadius
    ensures -NodeRadius <= d <= NodeRadius ==> d * d <= NodeRadius * NodeRadius
  {
    SquareNonNegative(d);
    if d > NodeRadius || d < -NodeRadius {
      SquareGrows(d);
    } else {
      SquareBounded(d);
    }
  }

  lemma SquareNonNegative(d: int)
    ensures d * d >= 0
  {
    if d < 0 {
      assert d * d == (-d) * (-d);
    }
  }

  lemma SquareGrows(d: int)
    requires d > NodeRadius || d < -NodeRadius
    ensures d * d > NodeRadius * NodeRadius
  {
    var a := if d < 0 then -d else d;
    assert d * d == a * a;
    assert a * a >= a * (NodeRadius + 1) >= (NodeRadius + 1) * (NodeRadius + 1);
  }

  lemma SquareBounded(d: int)
    requires -NodeRadius <= d <= NodeRadius
    ensures d * d <= NodeRadius * NodeRadius
  {
    var a := if d < 0 then -d else d;
    assert d * d == a * a;
    assert a * a <= a * NodeRadius <= NodeRadius * NodeRadius;
  }
}

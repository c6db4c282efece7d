/** The diagram: main.js's three global collections `nodes`, `connections`
    and `regions`, plus the supply of fresh object identities, with the
    mutations the program performs on them. */
module Diagrams {
  import opened Seqs
  import opened Entities
  import opened Text

  /** `nextHandle` is the identity the next object created will receive. */
  datatype Diagram = Diagram(nodes: seq<Node>, connections: seq<Connection>, regions: seq<Region>, nextHandle: Handle)

  /** The collections at page load. */
  const Empty: Diagram := Diagram([], [], [], 0)

  /** The node object `r` refers to is currently in the diagram. */
  predicate HasNode(nodes: seq<Node>, r: NodeRef) {
    exists i :: 0 <= i < |nodes| && nodes[i].ref == r
  }

  /** Every connection's endpoints are nodes of the diagram. */
  predicate NoDangling(d: Diagram) {
    forall k :: 0 <= k < |d.connections| ==>
      HasNode(d.nodes, d.connections[k].from) && HasNode(d.nodes, d.connections[k].to)
  }

  /** Distinct objects in a collection have distinct identities, all already handed out. */
  predicate HandlesIssued(d: Diagram) {
    && (forall i :: 0 <= i < |d.nodes| ==> d.nodes[i].ref.handle < d.nextHandle)
    && (forall k :: 0 <= k < |d.regions| ==> d.regions[k].handle < d.nextHandle)
    && (forall i, j :: 0 <= i < j < |d.nodes| ==> d.nodes[i].ref.handle != d.nodes[j].ref.handle)
    && (forall k, l :: 0 <= k < l < |d.regions| ==> d.regions[k].handle != d.regions[l].handle)
  }

  /** Every region has a non-empty label. */
  predicate RegionsLabelled(d: Diagram) {
    forall k :: 0 <= k < |d.regions| ==> d.regions[k].labelText != []
  }

  /** The diagram invariant. */
  predicate Valid(d: Diagram) {
    NoDangling(d) && HandlesIssued(d) && RegionsLabelled(d)
  }

  /** `addNode` (main.js:292-297): append a fresh node of `kind` at the
      given centre; the position and the `id` are the random choices of the
      source, taken as inputs. */
  function AddNode(d: Diagram, kind: Kind, x: int, y: int, id: string): (r: Diagram)
    ensures |r.nodes| == |d.nodes| + 1 && r.nodes[..|d.nodes|] == d.nodes
    ensures r.nodes[|d.nodes|].ref.kind == kind && r.nodes[|d.nodes|].ref.id == id
    ensures r.nodes[|d.nodes|].x == x && r.nodes[|d.nodes|].y == y
    ensures r.nodes[|d.nodes|].labelText == DefaultLabel(kind) && r.nodes[|d.nodes|].notes == []
    ensures HandlesIssued(d) ==> forall i :: 0 <= i < |d.nodes| ==> d.nodes[i].ref.handle != r.nodes[|d.nodes|].ref.handle
    ensures r.connections == d.connections && r.regions == d.regions
    ensures Valid(d) ==> Valid(r)
  {
    var n := NewNode(d.nextHandle, id, kind, x, y);
    var r := d.(nodes := d.nodes + [n], nextHandle := d.nextHandle + 1);
    assert forall c :: HasNode(d.nodes, c) ==> HasNode(r.nodes, c) by {
      forall c | HasNode(d.nodes, c) ensures HasNode(r.nodes, c) {
        var i :| 0 <= i < |d.nodes| && d.nodes[i].ref == c;
        assert r.nodes[i] == d.nodes[i];
      }
    }
    r
  }

  /** The label a rename or label prompt leaves: the trimmed input when it is
      non-empty, otherwise the old label (main.js:62-66, 245-249). */
  function Relabel(current: string, input: string): (r: string)
    ensures Trim(input) != [] ==> r == Trim(input)
    ensures Trim(input) == [] ==> r == current
    ensures r != current ==> IsTrimmed(r) && r != [] && !AllWhitespace(input)
    ensures current != [] ==> r != []
  {
    var t := Trim(input);
    if t != [] then t else current
  }

  /** A confirmed rename of node `h` (main.js:62-66): only that node's label
      can change; everything else is kept. */
  function RenameNode(d: Diagram, h: Handle, input: string): (r: Diagram)
    ensures |r.nodes| == |d.nodes|
    ensures forall i :: 0 <= i < |d.nodes| && d.nodes[i].ref.handle == h ==>
      r.nodes[i] == d.nodes[i].(labelText := Relabel(d.nodes[i].labelText, input))
    ensures forall i :: 0 <= i < |d.nodes| && d.nodes[i].ref.handle != h ==> r.nodes[i] == d.nodes[i]
    ensures r.connections == d.connections && r.regions == d.regions && r.nextHandle == d.nextHandle
    ensures Valid(d) ==> Valid(r)
  {
    var r := d.(nodes := MapWhere(d.nodes, (n: Node) => n.ref.handle == h,
                                 (n: Node) => n.(labelText := Relabel(n.labelText, input))));
    SameRefsKeepValid(d, r);
    r
  }

  /** A confirmed rename of region `h` (main.js:245-249). A labelled region stays labelled. */
  function RenameRegion(d: Diagram, h: Handle, input: string): (r: Diagram)
    ensures |r.regions| == |d.regions|
    ensures forall k :: 0 <= k < |d.regions| && d.regions[k].handle == h ==>
      r.regions[k] == d.regions[k].(labelText := Relabel(d.regions[k].labelText, input))
    ensures forall k :: 0 <= k < |d.regions| && d.regions[k].handle != h ==> r.regions[k] == d.regions[k]
    ensures r.nodes == d.nodes && r.connections == d.connections && r.nextHandle == d.nextHandle
    ensures Valid(d) ==> Valid(r)
  {
    d.(regions := MapWhere(d.regions, (g: Region) => g.handle == h,
                           (g: Region) => g.(labelText := Relabel(g.labelText, input))))
  }

  /** Confirming the same rename input a second time changes nothing. */
  lemma RenameNodeIdempotent(d: Diagram, h: Handle, input: string)
    ensures RenameNode(RenameNode(d, h, input), h, input) == RenameNode(d, h, input)
  {
    var r1 := RenameNode(d, h, input);
    var r2 := RenameNode(r1, h, input);
    forall i | 0 <= i < |d.nodes| ensures r2.nodes[i] == r1.nodes[i] {
      if d.nodes[i].ref.handle == h {
        RelabelIdempotent(d.nodes[i].labelText, input);
      }
    }
  }

  /** Confirming the same region rename input a second time changes nothing. */
  lemma RenameRegionIdempotent(d: Diagram, h: Handle, input: string)
    ensures RenameRegion(RenameRegion(d, h, input), h, input) == RenameRegion(d, h, input)
  {
    var r1 := RenameRegion(d, h, input);
    var r2 := RenameRegion(r1, h, input);
    forall k | 0 <= k < |d.regions| ensures r2.regions[k] == r1.regions[k] {
      if d.regions[k].handle == h {
        RelabelIdempotent(d.regions[k].labelText, input);
      }
    }
  }

  lemma RelabelIdempotent(current: string, input: string)
    ensures Relabel(Relabel(current, input), input) == Relabel(current, input)
  {
  }

  /** Node delete (main.js:72-76): the node leaves `nodes`, and every
      connection with it as `from` or `to` leaves `connections`; every other
      node and connection stays. */
  function DeleteNode(d: Diagram, h: Handle): (r: Diagram)
    ensures forall n :: n in r.nodes <==> n in d.nodes && n.ref.handle != h
    ensures forall c :: c in r.connections <==> c in d.connections && c.from.handle != h && c.to.handle != h
    ensures r.regions == d.regions && r.nextHandle == d.nextHandle
    ensures Valid(d) ==> Valid(r)
  {
    var keepNode := (n: Node) => n.ref.handle != h;
    var keepConn := (c: Connection) => c.from.handle != h && c.to.handle != h;
    FilterMembershipAll(d.nodes, keepNode);
    FilterMembershipAll(d.connections, keepConn);
    var r := d.(nodes := Filter(d.nodes, keepNode), connections := Filter(d.connections, keepConn));
    assert Valid(d) ==> Valid(r) by {
      if Valid(d) {
        DeleteNodeKeepsValid(d, h, r);
      }
    }
    r
  }

  lemma DeleteNodeKeepsValid(d: Diagram, h: Handle, r: Diagram)
    requires Valid(d)
    requires forall n :: n in d.nodes && n.ref.handle != h ==> n in r.nodes
    requires forall c :: c in r.connections ==> c in d.connections && c.from.handle != h && c.to.handle != h
    requires r.regions == d.regions && r.nextHandle == d.nextHandle
    requires r.nodes == Filter(d.nodes, (n: Node) => n.ref.handle != h)
    ensures Valid(r)
  {
    forall k | 0 <= k < |r.connections|
      ensures HasNode(r.nodes, r.connections[k].from) && HasNode(r.nodes, r.connections[k].to)
    {
      var c := r.connections[k];
      assert c in r.connections;
      KeptEndpoint(d, h, r, c.from);
      KeptEndpoint(d, h, r, c.to);
    }
    FilterKeepsDistinct(d.nodes, (n: Node) => n.ref.handle != h, (n: Node) => n.ref.handle);
    FilterAvoidsKey(d.nodes, (n: Node) => n.ref.handle != h, (n: Node) => n.ref.handle < d.nextHandle, false);
  }

  lemma KeptEndpoint(d: Diagram, h: Handle, r: Diagram, e: NodeRef)
    requires HasNode(d.nodes, e) && e.handle != h
    requires forall n :: n in d.nodes && n.ref.handle != h ==> n in r.nodes
    ensures HasNode(r.nodes, e)
  {
    var i :| 0 <= i < |d.nodes| && d.nodes[i].ref == e;
    assert d.nodes[i] in r.nodes;
    var i' :| 0 <= i' < |r.nodes| && r.nodes[i'] == d.nodes[i];
  }

  /** Region delete (main.js:256): only that region leaves `regions`. */
  function DeleteRegion(d: Diagram, h: Handle): (r: Diagram)
    ensures forall g :: g in r.regions <==> g in d.regions && g.handle != h
    ensures r.nodes == d.nodes && r.connections == d.connections && r.nextHandle == d.nextHandle
    ensures Valid(d) ==> Valid(r)
  {
    var keep := (g: Region) => g.handle != h;
    FilterMembershipAll(d.regions, keep);
    var r := d.(regions := Filter(d.regions, keep));
    assert Valid(d) ==> Valid(r) by {
      if Valid(d) {
        FilterKeepsDistinct(d.regions, keep, (g: Region) => g.handle);
        forall k | 0 <= k < |r.regions| ensures r.regions[k].labelText != [] && r.regions[k].handle < r.nextHandle {
          assert r.regions[k] in r.regions;
        }
      }
    }
    r
  }

  /** With distinct handles, deleting the node at index `i` removes exactly
      that slot: the other nodes keep their order. */
  lemma DeleteNodeRemovesSlot(d: Diagram, i: nat)
    requires HandlesIssued(d) && i < |d.nodes|
    ensures DeleteNode(d, d.nodes[i].ref.handle).nodes == d.nodes[..i] + d.nodes[i + 1..]
  {
    var h := d.nodes[i].ref.handle;
    FilterDropsOne(d.nodes, (n: Node) => n.ref.handle != h, i);
  }

  /** With distinct handles, deleting the region at index `k` removes exactly that slot. */
  lemma DeleteRegionRemovesSlot(d: Diagram, k: nat)
    requires HandlesIssued(d) && k < |d.regions|
    ensures DeleteRegion(d, d.regions[k].handle).regions == d.regions[..k] + d.regions[k + 1..]
  {
    var h := d.regions[k].handle;
    FilterDropsOne(d.regions, (g: Region) => g.handle != h, k);
  }

  /** The connections a node delete keeps stay in their original order:
      deleting from a concatenation is deleting from each part. */
  lemma DeleteNodeKeepsConnectionOrder(d: Diagram, h: Handle, a: seq<Connection>, b: seq<Connection>)
    requires d.connections == a + b
    ensures DeleteNode(d, h).connections
         == DeleteNode(d.(connections := a), h).connections + DeleteNode(d.(connections := b), h).connections
  {
    FilterConcat(a, b, (c: Connection) => c.from.handle != h && c.to.handle != h);
  }

  /** Deleting a node no connection mentions leaves the connections as they were. */
  lemma DeleteUnconnectedNodeKeepsConnections(d: Diagram, h: Handle)
    requires forall k :: 0 <= k < |d.connections| ==>
      d.connections[k].from.handle != h && d.connections[k].to.handle != h
    ensures DeleteNode(d, h).connections == d.connections
  {
    FilterKeepsAll(d.connections, (c: Connection) => c.from.handle != h && c.to.handle != h);
  }

  /** The notes panel writing `text` into node `h`'s notes (main.js:625-627). */
  function SetNodeNotes(d: Diagram, h: Handle, text: string): (r: Diagram)
    ensures |r.nodes| == |d.nodes|
    ensures forall i :: 0 <= i < |d.nodes| && d.nodes[i].ref.handle == h ==>
      r.nodes[i] == d.nodes[i].(notes := text)
    ensures forall i :: 0 <= i < |d.nodes| && d.nodes[i].ref.handle != h ==> r.nodes[i] == d.nodes[i]
    ensures r.connections == d.connections && r.regions == d.regions && r.nextHandle == d.nextHandle
    ensures Valid(d) ==> Valid(r)
  {
    var r := d.(nodes := MapWhere(d.nodes, (n: Node) => n.ref.handle == h, (n: Node) => n.(notes := text)));
    SameRefsKeepValid(d, r);
    r
  }

  /** The notes panel writing `text` into region `h`'s notes (main.js:625-627). */
  function SetRegionNotes(d: Diagram, h: Handle, text: string): (r: Diagram)
    ensures |r.regions| == |d.regions|
    ensures forall k :: 0 <= k < |d.regions| && d.regions[k].handle == h ==>
      r.regions[k] == d.regions[k].(notes := text)
    ensures forall k :: 0 <= k < |d.regions| && d.regions[k].handle != h ==> r.regions[k] == d.regions[k]
    ensures r.nodes == d.nodes && r.connections == d.connections && r.nextHandle == d.nextHandle
    ensures Valid(d) ==> Valid(r)
  {
    d.(regions := MapWhere(d.regions, (g: Region) => g.handle == h, (g: Region) => g.(notes := text)))
  }

  /** A node drag step (main.js:438-439): the dragged node's centre becomes
      the pointer; nothing else changes. */
  function MoveNode(d: Diagram, h: Handle, x: int, y: int): (r: Diagram)
    ensures |r.nodes| == |d.nodes|
    ensures forall i :: 0 <= i < |d.nodes| && d.nodes[i].ref.handle == h ==>
      r.nodes[i] == d.nodes[i].(x := x, y := y)
    ensures forall i :: 0 <= i < |d.nodes| && d.nodes[i].ref.handle != h ==> r.nodes[i] == d.nodes[i]
    ensures r.connections == d.connections && r.regions == d.regions && r.nextHandle == d.nextHandle
    ensures Valid(d) ==> Valid(r)
  {
    var r := d.(nodes := MapWhere(d.nodes, (n: Node) => n.ref.handle == h, (n: Node) => n.(x := x, y := y)));
    SameRefsKeepValid(d, r);
    r
  }

  /** A region drag step (main.js:434-435): the dragged region is translated
      by exactly (`dx`, `dy`), keeping its size. */
  function TranslateRegion(d: Diagram, h: Handle, dx: int, dy: int): (r: Diagram)
    ensures |r.regions| == |d.regions|
    ensures forall k :: 0 <= k < |d.regions| && d.regions[k].handle == h ==>
      && r.regions[k].x - d.regions[k].x == dx && r.regions[k].y - d.regions[k].y == dy
      && r.regions[k] == d.regions[k].(x := r.regions[k].x, y := r.regions[k].y)
    ensures forall k :: 0 <= k < |d.regions| && d.regions[k].handle != h ==> r.regions[k] == d.regions[k]
    ensures r.nodes == d.nodes && r.connections == d.connections && r.nextHandle == d.nextHandle
    ensures Valid(d) ==> Valid(r)
  {
    d.(regions := MapWhere(d.regions, (g: Region) => g.handle == h, (g: Region) => g.(x := g.x + dx, y := g.y + dy)))
  }

  /** A resize step (main.js:430-431): each dimension grows by the pointer
      delta but never drops below `MinRegionSize`; the corner stays put. */
  function ResizeRegion(d: Diagram, h: Handle, dx: int, dy: int): (r: Diagram)
    ensures |r.regions| == |d.regions|
    ensures forall k :: 0 <= k < |d.regions| && d.regions[k].handle == h ==>
      && r.regions[k].width >= MinRegionSize && r.regions[k].height >= MinRegionSize
      && r.regions[k].width >= d.regions[k].width + dx && r.regions[k].height >= d.regions[k].height + dy
      && (r.regions[k].width == MinRegionSize || r.regions[k].width == d.regions[k].width + dx)
      && (r.regions[k].height == MinRegionSize || r.regions[k].height == d.regions[k].height + dy)
      && r.regions[k] == d.regions[k].(width := r.regions[k].width, height := r.regions[k].height)
    ensures forall k :: 0 <= k < |d.regions| && d.regions[k].handle != h ==> r.regions[k] == d.regions[k]
    ensures r.nodes == d.nodes && r.connections == d.connections && r.nextHandle == d.nextHandle
    ensures Valid(d) ==> Valid(r)
  {
    d.(regions := MapWhere(d.regions, (g: Region) => g.handle == h,
                           (g: Region) => g.(width := Max(MinRegionSize, g.width + dx),
                                             height := Max(MinRegionSize, g.height + dy))))
  }

  /** Appending a connection between two node references (main.js:373-376). */
  function AddConnection(d: Diagram, from: NodeRef, to: NodeRef): (r: Diagram)
    ensures r.connections == d.connections + [Connection(from, to)]
    ensures r.nodes == d.nodes && r.regions == d.regions && r.nextHandle == d.nextHandle
    ensures Valid(d) && HasNode(d.nodes, from) && HasNode(d.nodes, to) ==> Valid(r)
    ensures !HasNode(d.nodes, from) ==> !NoDangling(r)
  {
    var r := d.(connections := d.connections + [Connection(from, to)]);
    assert r.connections[|d.connections|] == Connection(from, to);
    r
  }

  /** Appending a freshly created region (main.js:457-465), with empty notes. */
  function AddRegion(d: Diagram, x: int, y: int, width: int, height: int, labelText: string): (r: Diagram)
    ensures |r.regions| == |d.regions| + 1 && r.regions[..|d.regions|] == d.regions
    ensures r.regions[|d.regions|] == Region(d.nextHandle, x, y, width, height, labelText, "")
    ensures r.nodes == d.nodes && r.connections == d.connections
    ensures Valid(d) && labelText != [] ==> Valid(r)
  {
    d.(regions := d.regions + [Region(d.nextHandle, x, y, width, height, labelText, "")],
       nextHandle := d.nextHandle + 1)
  }

  /** `clearMindMap`'s data part (main.js:657-659): all three collections
      emptied. Object identities are never reused. */
  function Clear(d: Diagram): (r: Diagram)
    ensures r.nodes == [] && r.connections == [] && r.regions == []
    ensures r.nextHandle == d.nextHandle
    ensures Valid(r)
  {
    Diagram([], [], [], d.nextHandle)
  }

  /** An in-place update that keeps every node's reference keeps the invariant. */
  lemma SameRefsKeepValid(d: Diagram, r: Diagram)
    requires |r.nodes| == |d.nodes|
    requires forall i :: 0 <= i < |d.nodes| ==> r.nodes[i].ref == d.nodes[i].ref
    requires r.connections == d.connections && r.regions == d.regions && r.nextHandle == d.nextHandle
    ensures Valid(d) ==> Valid(r)
  {
    forall c | HasNode(d.nodes, c) ensures HasNode(r.nodes, c) {
      var i :| 0 <= i < |d.nodes| && d.nodes[i].ref == c;
      assert r.nodes[i].ref == c;
    }
  }
}

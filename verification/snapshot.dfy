/** The snapshot codec: the flat record `exportToJson` builds
    (main.js:487-509) and the reconstruction `loadFromJson` performs once the
    file is parsed (main.js:535-569). JSON text itself is not modelled; an
    absent `id` or `notes` field is the empty string here. */
module Snapshots {
  import opened Seqs
  import opened Entities
  import opened Diagrams

  datatype NodeRecord = NodeRecord(id: string, kind: Kind, labelText: string, x: int, y: int, notes: string)
  /** A connection refers to its endpoints by node `id`. */
  datatype LinkRecord = LinkRecord(from: string, to: string)
  /** Regions carry no id. */
  datatype RegionRecord = RegionRecord(labelText: string, x: int, y: int, width: int, height: int, notes: string)
  datatype Snapshot = Snapshot(nodes: seq<NodeRecord>, connections: seq<LinkRecord>, regions: seq<RegionRecord>)

  /** Loading a region record without a label does not produce a region: the
      `Region` constructor then returns a label-prompt promise instead of a
      region, and the load ends in its error handler. */
  datatype LoadError = UnlabelledRegion(index: nat)

  function ExportNode(n: Node): NodeRecord {
    NodeRecord(n.ref.id, n.ref.kind, n.labelText, n.x, n.y, n.notes)
  }

  function ExportLink(c: Connection): LinkRecord {
    LinkRecord(c.from.id, c.to.id)
  }

  function ExportRegion(g: Region): RegionRecord {
    RegionRecord(g.labelText, g.x, g.y, g.width, g.height, g.notes)
  }

  /** `exportToJson`'s record: every node, connection and region, in order. */
  function Export(d: Diagram): (s: Snapshot)
    ensures |s.nodes| == |d.nodes| && |s.connections| == |d.connections| && |s.regions| == |d.regions|
    ensures forall i :: 0 <= i < |d.nodes| ==>
      s.nodes[i] == NodeRecord(d.nodes[i].ref.id, d.nodes[i].ref.kind, d.nodes[i].labelText,
                               d.nodes[i].x, d.nodes[i].y, d.nodes[i].notes)
    ensures forall k :: 0 <= k < |d.connections| ==>
      s.connections[k].from == d.connections[k].from.id && s.connections[k].to == d.connections[k].to.id
    ensures forall k :: 0 <= k < |d.regions| ==>
      s.regions[k] == RegionRecord(d.regions[k].labelText, d.regions[k].x, d.regions[k].y,
                                   d.regions[k].width, d.regions[k].height, d.regions[k].notes)
  {
    Snapshot(seq(|d.nodes|, i requires 0 <= i < |d.nodes| => ExportNode(d.nodes[i])),
             seq(|d.connections|, k requires 0 <= k < |d.connections| => ExportLink(d.connections[k])),
             seq(|d.regions|, k requires 0 <= k < |d.regions| => ExportRegion(d.regions[k])))
  }

  /** Recreating nodes (main.js:541-547): record `i` becomes a fresh object
      with identity `base + i`; a missing id is replaced by `freshId(i)`, the
      random id of the source. */
  function ImportNodes(recs: seq<NodeRecord>, base: Handle, freshId: nat -> string): (ns: seq<Node>)
    ensures |ns| == |recs|
    ensures forall i :: 0 <= i < |recs| ==>
      && ns[i].ref.handle == base + i
      && ns[i].ref.id == (if recs[i].id == [] then freshId(i) else recs[i].id)
      && ns[i].ref.kind == recs[i].kind
      && ns[i].labelText == recs[i].labelText && ns[i].notes == recs[i].notes
      && ns[i].x == recs[i].x && ns[i].y == recs[i].y
  {
    var ns := seq(|recs|, i requires 0 <= i < |recs| => ImportNode(recs[i], base + i, freshId(i)));
    assert forall i :: 0 <= i < |recs| ==> ns[i] == ImportNode(recs[i], base + i, freshId(i));
    ns
  }

  /** `new Node(x, y, type)` followed by overwriting its label, id and notes. */
  function ImportNode(rec: NodeRecord, h: Handle, randomId: string): Node {
    NewNode(h, if rec.id == [] then randomId else rec.id, rec.kind, rec.x, rec.y)
      .(labelText := rec.labelText, notes := rec.notes)
  }

  /** Some loaded node has this `id`. */
  predicate HasId(nodes: seq<Node>, id: string) {
    exists i :: 0 <= i < |nodes| && nodes[i].ref.id == id
  }

  /** Both endpoints of `link` name a loaded node. */
  predicate Resolves(nodes: seq<Node>, link: LinkRecord) {
    HasId(nodes, link.from) && HasId(nodes, link.to)
  }

  function WithId(id: string): Node -> bool {
    (n: Node) => n.ref.id == id
  }

  /** One connection record: each endpoint is the first loaded node with the
      recorded id (main.js:551-552); unless both are found, nothing. */
  function ResolveLink(nodes: seq<Node>, link: LinkRecord): seq<Connection> {
    match (FindFirst(nodes, WithId(link.from)), FindFirst(nodes, WithId(link.to)))
    case (Some(i), Some(j)) => [Connection(nodes[i].ref, nodes[j].ref)]
    case _ => []
  }

  /** Recreating connections (main.js:550-556), record by record in order; a
      record with an endpoint that names no loaded node is skipped. */
  function ResolveLinks(nodes: seq<Node>, links: seq<LinkRecord>): (cs: seq<Connection>)
    ensures |cs| <= |links|
    ensures forall k :: 0 <= k < |cs| ==> HasNode(nodes, cs[k].from) && HasNode(nodes, cs[k].to)
    ensures (forall k :: 0 <= k < |links| ==> Resolves(nodes, links[k])) ==>
      && |cs| == |links|
      && forall k :: 0 <= k < |links| ==> cs[k].from.id == links[k].from && cs[k].to.id == links[k].to
  {
    if |links| == 0 then []
    else
      var rest := ResolveLinks(nodes, links[1..]);
      ResolveLinksCons(nodes, links, rest);
      ResolveLink(nodes, links[0]) + rest
  }

  /** The step of `ResolveLinks`: the first record's connection, if any,
      followed by connections rebuilt from the remaining records. */
  lemma ResolveLinksCons(nodes: seq<Node>, links: seq<LinkRecord>, rest: seq<Connection>)
    requires |links| > 0
    requires |rest| <= |links[1..]|
    requires forall k :: 0 <= k < |rest| ==> HasNode(nodes, rest[k].from) && HasNode(nodes, rest[k].to)
    requires (forall k :: 0 <= k < |links[1..]| ==> Resolves(nodes, links[1..][k])) ==>
      && |rest| == |links[1..]|
      && forall k :: 0 <= k < |links[1..]| ==> rest[k].from.id == links[1..][k].from && rest[k].to.id == links[1..][k].to
    ensures var cs := ResolveLink(nodes, links[0]) + rest;
      && |cs| <= |links|
      && (forall k :: 0 <= k < |cs| ==> HasNode(nodes, cs[k].from) && HasNode(nodes, cs[k].to))
      && ((forall k :: 0 <= k < |links| ==> Resolves(nodes, links[k])) ==>
            && |cs| == |links|
            && forall k :: 0 <= k < |links| ==> cs[k].from.id == links[k].from && cs[k].to.id == links[k].to)
  {
    ResolveLinkFacts(nodes, links[0]);
    ConsEndpoints(nodes, ResolveLink(nodes, links[0]), rest);
    if forall k :: 0 <= k < |links| ==> Resolves(nodes, links[k]) {
      var tail := links[1..];
      forall k | 0 <= k < |tail| ensures Resolves(nodes, tail[k]) {
        assert tail[k] == links[k + 1];
      }
      ConsIds(nodes, links, rest);
    }
  }

  /** Two lists of connections between loaded nodes concatenate to one. */
  lemma ConsEndpoints(nodes: seq<Node>, head: seq<Connection>, rest: seq<Connection>)
    requires forall k :: 0 <= k < |head| ==> HasNode(nodes, head[k].from) && HasNode(nodes, head[k].to)
    requires forall k :: 0 <= k < |rest| ==> HasNode(nodes, rest[k].from) && HasNode(nodes, rest[k].to)
    ensures forall k :: 0 <= k < |head + rest| ==>
      HasNode(nodes, (head + rest)[k].from) && HasNode(nodes, (head + rest)[k].to)
  {
    forall k | 0 <= k < |head + rest|
      ensures HasNode(nodes, (head + rest)[k].from) && HasNode(nodes, (head + rest)[k].to)
    {
      if k >= |head| {
        assert (head + rest)[k] == rest[k - |head|];
      }
    }
  }

  /** When every record resolves, the ids line up record by record. */
  lemma ConsIds(nodes: seq<Node>, links: seq<LinkRecord>, rest: seq<Connection>)
    requires |links| > 0 && Resolves(nodes, links[0])
    requires |rest| == |links[1..]|
    requires forall k :: 0 <= k < |links[1..]| ==> rest[k].from.id == links[1..][k].from && rest[k].to.id == links[1..][k].to
    ensures var cs := ResolveLink(nodes, links[0]) + rest;
      && |cs| == |links|
      && forall k :: 0 <= k < |links| ==> cs[k].from.id == links[k].from && cs[k].to.id == links[k].to
  {
    ResolveLinkFacts(nodes, links[0]);
    var head, tail := ResolveLink(nodes, links[0]), links[1..];
    var cs := head + rest;
    forall k | 0 <= k < |links|
      ensures cs[k].from.id == links[k].from && cs[k].to.id == links[k].to
    {
      if k > 0 {
        assert cs[k] == rest[k - 1];
        assert links[k] == tail[k - 1];
      }
    }
  }

  /** One record yields at most one connection, between loaded nodes; a
      record that resolves yields exactly the connection between the first
      nodes carrying its ids. */
  lemma ResolveLinkFacts(nodes: seq<Node>, link: LinkRecord)
    ensures |ResolveLink(nodes, link)| <= 1
    ensures forall k :: 0 <= k < |ResolveLink(nodes, link)| ==>
      HasNode(nodes, ResolveLink(nodes, link)[k].from) && HasNode(nodes, ResolveLink(nodes, link)[k].to)
    ensures Resolves(nodes, link) ==>
      ResolveLink(nodes, link) == [Connection(FirstWithId(nodes, link.from), FirstWithId(nodes, link.to))]
  {
    var a, b := FindFirst(nodes, WithId(link.from)), FindFirst(nodes, WithId(link.to));
    if a.Some? && b.Some? {
      assert nodes[a.value].ref == nodes[a.value].ref;
      assert nodes[b.value].ref == nodes[b.value].ref;
    }
    if Resolves(nodes, link) {
      var i :| 0 <= i < |nodes| && nodes[i].ref.id == link.from;
      var j :| 0 <= j < |nodes| && nodes[j].ref.id == link.to;
      assert WithId(link.from)(nodes[i]) && WithId(link.to)(nodes[j]);
    }
  }

  /** The node `nodes.find(n => n.id === id)` returns: the earliest loaded
      node carrying `id`. */
  function FirstWithId(nodes: seq<Node>, id: string): (r: NodeRef)
    requires HasId(nodes, id)
    ensures r.id == id
    ensures exists i :: 0 <= i < |nodes| && nodes[i].ref == r && forall j :: 0 <= j < i ==> nodes[j].ref.id != id
  {
    var i := FindFirst(nodes, WithId(id)).value;
    assert forall j :: 0 <= j < i ==> !WithId(id)(nodes[j]);
    nodes[i].ref
  }

  /** When every record resolves, record `k` joins the first loaded node
      with its `from` id to the first with its `to` id, even when several
      loaded nodes share an id. */
  lemma {:induction false} ResolveLinksFindsFirst(nodes: seq<Node>, links: seq<LinkRecord>)
    requires forall k :: 0 <= k < |links| ==> Resolves(nodes, links[k])
    ensures |ResolveLinks(nodes, links)| == |links|
    ensures forall k :: 0 <= k < |links| ==>
      ResolveLinks(nodes, links)[k] == Connection(FirstWithId(nodes, links[k].from), FirstWithId(nodes, links[k].to))
  {
    if |links| > 0 {
      var l, rest := links[0], links[1..];
      forall k | 0 <= k < |rest| ensures Resolves(nodes, rest[k]) {
        assert rest[k] == links[k + 1];
      }
      ResolveLinksFindsFirst(nodes, rest);
      ResolveLinkFacts(nodes, l);
      var cs, tail := ResolveLinks(nodes, links), ResolveLinks(nodes, rest);
      var head := [Connection(FirstWithId(nodes, l.from), FirstWithId(nodes, l.to))];
      assert cs == head + tail;
      forall k | 0 <= k < |links|
        ensures cs[k] == Connection(FirstWithId(nodes, links[k].from), FirstWithId(nodes, links[k].to))
      {
        if k > 0 {
          assert (head + tail)[k] == tail[k - 1];
          assert links[k] == rest[k - 1];
        }
      }
    }
  }

  /** Resolving distributes over concatenation of the records. */
  lemma {:induction false} ResolveLinksConcat(nodes: seq<Node>, a: seq<LinkRecord>, b: seq<LinkRecord>)
    ensures ResolveLinks(nodes, a + b) == ResolveLinks(nodes, a) + ResolveLinks(nodes, b)
  {
    if |a| > 0 {
      assert (a + b)[1..] == a[1..] + b;
      assert (a + b)[0] == a[0];
      ResolveLinksConcat(nodes, a[1..], b);
    } else {
      assert a + b == b;
    }
  }

  /** A record that does not resolve is dropped without trace: the result is
      what the other records give. */
  lemma ResolveLinksDropsUnresolved(nodes: seq<Node>, links: seq<LinkRecord>, k: nat)
    requires k < |links| && !Resolves(nodes, links[k])
    ensures ResolveLinks(nodes, links) == ResolveLinks(nodes, links[..k] + links[k + 1..])
  {
    var pre, l, post := links[..k], links[k], links[k + 1..];
    assert links[k..] == [l] + post;
    assert links == pre + links[k..];
    UnresolvedGivesNothing(nodes, l);
    ResolveLinksSplice(nodes, pre, l, post);
  }

  lemma ResolveLinksSplice(nodes: seq<Node>, pre: seq<LinkRecord>, l: LinkRecord, post: seq<LinkRecord>)
    requires ResolveLinks(nodes, [l]) == []
    ensures ResolveLinks(nodes, pre + ([l] + post)) == ResolveLinks(nodes, pre + post)
  {
    ResolveLinksConcat(nodes, [l], post);
    assert ResolveLinks(nodes, [l] + post) == ResolveLinks(nodes, post);
    ResolveLinksConcat(nodes, pre, [l] + post);
    ResolveLinksConcat(nodes, pre, post);
  }

  lemma UnresolvedGivesNothing(nodes: seq<Node>, l: LinkRecord)
    requires !Resolves(nodes, l)
    ensures ResolveLinks(nodes, [l]) == []
  {
    assert [l][1..] == [];
    assert ResolveLink(nodes, l) == [];
  }

  /** Recreating regions (main.js:559-569): region record `k` becomes a
      fresh region with identity `base + k`, unless a record has no label. */
  function ImportRegions(recs: seq<RegionRecord>, base: Handle): (r: Result<seq<Region>, LoadError>)
    ensures r.Success? <==> forall k :: 0 <= k < |recs| ==> recs[k].labelText != []
    ensures r.Success? ==> |r.value| == |recs|
    ensures r.Success? ==> forall k :: 0 <= k < |recs| ==>
      && r.value[k].handle == base + k
      && ExportRegion(r.value[k]) == recs[k]
    ensures r.Failure? ==> r.error.index < |recs| && recs[r.error.index].labelText == []
  {
    match FindFirst(recs, (rec: RegionRecord) => rec.labelText == [])
    case Some(k) => Failure(UnlabelledRegion(k))
    case None =>
      Success(seq(|recs|, k requires 0 <= k < |recs| =>
        Region(base + k, recs[k].x, recs[k].y, recs[k].width, recs[k].height, recs[k].labelText, recs[k].notes)))
  }

  /** The load half of `loadFromJson`: nodes first, then connections resolved
      against them, then regions. A successful load yields a valid diagram
      whose objects are all fresh. */
  function Import(s: Snapshot, next: Handle, freshId: nat -> string): (r: Result<Diagram, LoadError>)
    ensures r.Success? <==> forall k :: 0 <= k < |s.regions| ==> s.regions[k].labelText != []
    ensures r.Success? ==> Valid(r.value)
    ensures r.Success? ==> |r.value.nodes| == |s.nodes| && |r.value.regions| == |s.regions|
    ensures r.Success? ==> forall i :: 0 <= i < |r.value.nodes| ==> r.value.nodes[i].ref.handle >= next
    ensures r.Success? ==> forall k :: 0 <= k < |r.value.regions| ==> r.value.regions[k].handle >= next
    ensures r.Success? ==>
      && r.value.nodes == ImportNodes(s.nodes, next, freshId)
      && r.value.connections == ResolveLinks(r.value.nodes, s.connections)
      && r.value.regions == ImportRegions(s.regions, next + |s.nodes|).value
    ensures r.Failure? ==> r == Failure(ImportRegions(s.regions, next + |s.nodes|).error)
  {
    var nodes := ImportNodes(s.nodes, next, freshId);
    var links := ResolveLinks(nodes, s.connections);
    match ImportRegions(s.regions, next + |s.nodes|)
    case Failure(e) => Failure(e)
    case Success(regions) =>
      var d := Diagram(nodes, links, regions, next + |nodes| + |regions|);
      LoadedIsValid(s, next, freshId, d);
      assert d.nodes == nodes && d.connections == links && d.regions == regions;
      Success(d)
  }

  lemma LoadedIsValid(s: Snapshot, next: Handle, freshId: nat -> string, d: Diagram)
    requires ImportRegions(s.regions, next + |s.nodes|).Success?
    requires d.nodes == ImportNodes(s.nodes, next, freshId)
    requires d.connections == ResolveLinks(d.nodes, s.connections)
    requires d.regions == ImportRegions(s.regions, next + |s.nodes|).value
    requires d.nextHandle == next + |d.nodes| + |d.regions|
    ensures Valid(d)
    ensures |d.nodes| == |s.nodes| && |d.regions| == |s.regions|
    ensures forall i :: 0 <= i < |d.nodes| ==> d.nodes[i].ref.handle >= next
    ensures forall k :: 0 <= k < |d.regions| ==> d.regions[k].handle >= next
  {
    assert forall k :: 0 <= k < |d.regions| ==> d.regions[k].labelText == ExportRegion(d.regions[k]).labelText;
  }

  /** Two nodes agree on everything a snapshot records. */
  predicate SameNodeContent(a: Node, b: Node) {
    a.ref.id == b.ref.id && a.ref.kind == b.ref.kind && a.labelText == b.labelText
    && a.x == b.x && a.y == b.y && a.notes == b.notes
  }

  /** Two regions agree on everything a snapshot records. */
  predicate SameRegionContent(a: Region, b: Region) {
    a.x == b.x && a.y == b.y && a.width == b.width && a.height == b.height
    && a.labelText == b.labelText && a.notes == b.notes
  }

  /** `e` reproduces `d` up to object identity: same nodes, connection
      endpoints and regions, slot by slot. */
  predicate Reproduces(d: Diagram, e: Diagram) {
    && |e.nodes| == |d.nodes|
    && (forall i :: 0 <= i < |d.nodes| ==> SameNodeContent(e.nodes[i], d.nodes[i]))
    && |e.connections| == |d.connections|
    && (forall k :: 0 <= k < |d.connections| ==>
          e.connections[k].from.id == d.connections[k].from.id && e.connections[k].to.id == d.connections[k].to.id)
    && |e.regions| == |d.regions|
    && (forall k :: 0 <= k < |d.regions| ==> SameRegionContent(e.regions[k], d.regions[k]))
  }

  /** Node ids that are present and pairwise distinct. */
  predicate IdsDistinct(nodes: seq<Node>) {
    && (forall i :: 0 <= i < |nodes| ==> nodes[i].ref.id != [])
    && (forall i, j :: 0 <= i < j < |nodes| ==> nodes[i].ref.id != nodes[j].ref.id)
  }

  /** Export then import reproduces a valid diagram with present, distinct
      node ids: node id/type/label/position/notes, connection endpoints and
      region rectangle/label/notes all come back, every connection survives,
      and the loaded diagram is valid. */
  lemma ExportImportRoundTrip(d: Diagram, next: Handle, freshId: nat -> string)
    requires Valid(d) && IdsDistinct(d.nodes)
    ensures Import(Export(d), next, freshId).Success?
    ensures Reproduces(d, Import(Export(d), next, freshId).value)
    ensures Valid(Import(Export(d), next, freshId).value)
  {
    var s := Export(d);
    var nodes := ImportNodes(s.nodes, next, freshId);
    assert forall i :: 0 <= i < |d.nodes| ==> nodes[i].ref.id == d.nodes[i].ref.id;
    forall k | 0 <= k < |s.connections| ensures Resolves(nodes, s.connections[k]) {
      var c := d.connections[k];
      var i :| 0 <= i < |d.nodes| && d.nodes[i].ref == c.from;
      var j :| 0 <= j < |d.nodes| && d.nodes[j].ref == c.to;
      assert nodes[i].ref.id == s.connections[k].from;
      assert nodes[j].ref.id == s.connections[k].to;
    }
    forall k | 0 <= k < |s.regions| ensures s.regions[k].labelText != [] {
      assert s.regions[k] == ExportRegion(d.regions[k]);
    }
    var e := Import(s, next, freshId).value;
    assert e.nodes == nodes;
    forall i | 0 <= i < |d.nodes| ensures SameNodeContent(e.nodes[i], d.nodes[i]) {
      assert s.nodes[i] == ExportNode(d.nodes[i]);
    }
    forall k | 0 <= k < |d.regions| ensures SameRegionContent(e.regions[k], d.regions[k]) {
      assert s.regions[k] == ExportRegion(d.regions[k]);
    }
  }

  /** A small example: a team node at (10, 20), a project node
      "X" at (30, 40), one connection between them and a region "R" at
      (0, 0, 100, 80) survive export and import. */
  lemma SmallDiagramRoundTrip(freshId: nat -> string)
    ensures var d := Diagram(
        [Node(NodeRef(0, "a", Team), 10, 20, "New Team Member", ""), Node(NodeRef(1, "b", Project), 30, 40, "X", "")],
        [Connection(NodeRef(0, "a", Team), NodeRef(1, "b", Project))],
        [Region(2, 0, 0, 100, 80, "R", "")],
        3);
      && Import(Export(d), 3, freshId).Success?
      && Reproduces(d, Import(Export(d), 3, freshId).value)
  {
    var d := Diagram(
        [Node(NodeRef(0, "a", Team), 10, 20, "New Team Member", ""), Node(NodeRef(1, "b", Project), 30, 40, "X", "")],
        [Connection(NodeRef(0, "a", Team), NodeRef(1, "b", Project))],
        [Region(2, 0, 0, 100, 80, "R", "")],
        3);
    assert HasNode(d.nodes, d.nodes[0].ref) && HasNode(d.nodes, d.nodes[1].ref);
    ExportImportRoundTrip(d, 3, freshId);
  }

  /** A connection record naming an id no node has is left out, and the load
      still succeeds. */
  lemma DanglingRecordSkipped(freshId: nat -> string)
    ensures var s := Snapshot([NodeRecord("a", Team, "T", 0, 0, "")], [LinkRecord("a", "zz")], []);
      && Import(s, 0, freshId).Success?
      && Import(s, 0, freshId).value.connections == []
  {
    var s := Snapshot([NodeRecord("a", Team, "T", 0, 0, "")], [LinkRecord("a", "zz")], []);
    var nodes := ImportNodes(s.nodes, 0, freshId);
    assert !HasId(nodes, "zz");
    assert s.connections[1..] == [];
  }
}

/** The canvas graph, its one-hop adjacency index and the selection of syndication items
    (syndicate-json-canvas-lib/src/lib.rs). */
module Graph {
  import opened Wrappers

  type NodeId = string
  type EdgeId = string

  /** The preset colours of a JSON Canvas file; other colours are hex codes. */
  datatype PresetColor = Red | Orange | Yellow | Green | Cyan | Purple
  datatype Color = Preset(preset: PresetColor) | Hex(code: string)

  /** A canvas node. Only text nodes carry text; every kind may carry a colour. */
  datatype Node =
    | TextNode(id: NodeId, text: string, color: Option<Color>)
    | FileNode(id: NodeId, file: string, color: Option<Color>)
    | LinkNode(id: NodeId, url: string, color: Option<Color>)
    | GroupNode(id: NodeId, color: Option<Color>)

  /** A directed edge. Several edges may join the same two nodes. */
  datatype Edge = Edge(id: EdgeId, fromNode: NodeId, toNode: NodeId)

  /** A parsed canvas: the node map and the edges in the order the edge map is iterated. */
  datatype Canvas = Canvas(nodes: map<NodeId, Node>, edges: seq<Edge>)

  /** The parser keys every node by its own identifier. */
  ghost predicate WellKeyed(nodes: map<NodeId, Node>)
  {
    forall k :: k in nodes ==> nodes[k].id == k
  }

  /** One entry of an adjacency list: the neighbour and the edge that joins it. */
  type Adjacency = (NodeId, EdgeId)
  type AdjacencyMap = map<NodeId, seq<Adjacency>>

  /** The publishable form of a selected node. */
  datatype SyndicationFormat = SyndicationFormat(
    id: NodeId,
    text: string,
    inNeighborIds: seq<NodeId>,   // nodes with an edge TO this node
    outNeighborIds: seq<NodeId>)  // nodes this node has an edge to

  /** Which of the two adjacency maps is meant. */
  datatype Direction = Out | In

  /** The node whose list records `e`: its source for out-lists, its destination for in-lists. */
  function Owner(e: Edge, d: Direction): NodeId
  {
    if d == Out then e.fromNode else e.toNode
  }

  /** What is recorded for `e`: the other end of the edge and the edge's id. */
  function Entry(e: Edge, d: Direction): Adjacency
  {
    if d == Out then (e.toNode, e.id) else (e.fromNode, e.id)
  }

  /** The list of `n`, or the empty list when `n` has none (`get(..).cloned().unwrap_or_default()`). */
  function Lookup(m: AdjacencyMap, n: NodeId): seq<Adjacency>
  {
    if n in m then m[n] else []
  }

  /** Append `a` to the list of `n`, creating the list when it is missing. */
  function Push(m: AdjacencyMap, n: NodeId, a: Adjacency): (r: AdjacencyMap)
    ensures r.Keys == m.Keys + {n}
    ensures r[n] == Lookup(m, n) + [a]
    ensures forall k :: k in m && k != n ==> r[k] == m[k]
  {
    m[n := Lookup(m, n) + [a]]
  }

  /** The adjacency map after the loop over `edges` has pushed one entry per edge. */
  function Index(edges: seq<Edge>, d: Direction): AdjacencyMap
    decreases |edges|
  {
    if edges == [] then map[]
    else
      var last := edges[|edges| - 1];
      Push(Index(edges[..|edges| - 1], d), Owner(last, d), Entry(last, d))
  }

  /** Reference definition: the entries that the edges owned by `n` contribute, in edge order. */
  function Incident(edges: seq<Edge>, n: NodeId, d: Direction): seq<Adjacency>
  {
    if edges == [] then []
    else (if Owner(edges[0], d) == n then [Entry(edges[0], d)] else []) + Incident(edges[1..], n, d)
  }

  lemma {:induction false} IncidentSnoc(edges: seq<Edge>, e: Edge, n: NodeId, d: Direction)
    ensures Incident(edges + [e], n, d)
         == Incident(edges, n, d) + (if Owner(e, d) == n then [Entry(e, d)] else [])
  {
    if edges != [] {
      TailOfAppend(edges, [e]);
      IncidentSnoc(edges[1..], e, n, d);
    }
  }

  /** `Incident` keeps exactly the entries of the edges that `n` owns. */
  lemma {:induction false} IncidentMembers(edges: seq<Edge>, n: NodeId, d: Direction, a: Adjacency)
    ensures a in Incident(edges, n, d)
        <==> exists j :: 0 <= j < |edges| && Owner(edges[j], d) == n && Entry(edges[j], d) == a
  {
    if edges != [] {
      IncidentMembers(edges[1..], n, d, a);
      if a in Incident(edges, n, d) && !(Owner(edges[0], d) == n && Entry(edges[0], d) == a) {
        var j :| 0 <= j < |edges[1..]| && Owner(edges[1..][j], d) == n && Entry(edges[1..][j], d) == a;
        assert edges[j + 1] == edges[1..][j];
      }
      if exists j :: 0 <= j < |edges| && Owner(edges[j], d) == n && Entry(edges[j], d) == a {
        var j :| 0 <= j < |edges| && Owner(edges[j], d) == n && Entry(edges[j], d) == a;
        if j > 0 {
          assert edges[1..][j - 1] == edges[j];
        }
      }
    }
  }

  /** The index holds, for every node, exactly the entries of its edges in edge order
      (duplicates kept). */
  lemma {:induction false} IndexIsIncident(edges: seq<Edge>, d: Direction, n: NodeId)
    ensures Lookup(Index(edges, d), n) == Incident(edges, n, d)
    decreases |edges|
  {
    if edges != [] {
      var init, last := edges[..|edges| - 1], edges[|edges| - 1];
      assert edges == init + [last];
      IndexIsIncident(init, d, n);
      IncidentSnoc(init, last, n, d);
    }
  }

  /** The index has a list exactly for the nodes that own at least one edge. */
  lemma {:induction false} IndexKeys(edges: seq<Edge>, d: Direction, n: NodeId)
    ensures n in Index(edges, d) <==> exists j :: 0 <= j < |edges| && Owner(edges[j], d) == n
    decreases |edges|
  {
    if edges != [] {
      var init, last := edges[..|edges| - 1], edges[|edges| - 1];
      IndexKeys(init, d, n);
      if n in Index(init, d) {
        var j :| 0 <= j < |init| && Owner(init[j], d) == n;
        assert edges[j] == init[j];
      }
      if exists j :: 0 <= j < |edges| && Owner(edges[j], d) == n {
        var j :| 0 <= j < |edges| && Owner(edges[j], d) == n;
        if j < |init| {
          assert init[j] == edges[j];
        }
      }
    }
  }

  /** Every edge is recorded on its owner's list, and every recorded entry comes from an edge
      that the list's node owns. */
  lemma EdgeRecorded(edges: seq<Edge>, d: Direction, n: NodeId, a: Adjacency)
    ensures a in Lookup(Index(edges, d), n)
        <==> exists j :: 0 <= j < |edges| && Owner(edges[j], d) == n && Entry(edges[j], d) == a
  {
    IndexIsIncident(edges, d, n);
    IncidentMembers(edges, n, d, a);
  }

  /** A node that no edge touches on this side gets the empty list, not an error. */
  lemma {:induction false} UntouchedNodeIsEmpty(edges: seq<Edge>, d: Direction, n: NodeId)
    requires forall j :: 0 <= j < |edges| ==> Owner(edges[j], d) != n
    ensures n !in Index(edges, d)
    ensures Lookup(Index(edges, d), n) == []
  {
    IndexKeys(edges, d, n);
  }

  /** The summed length of all lists of a map. */
  ghost function Total(m: AdjacencyMap): nat
    decreases |m.Keys|
  {
    if m == map[] then 0
    else
      var k :| k in m;
      assert |(m - {k}).Keys| < |m.Keys| by {
        assert (m - {k}).Keys == m.Keys - {k};
      }
      |m[k]| + Total(m - {k})
  }

  lemma {:induction false} TotalRemove(m: AdjacencyMap, k: NodeId)
    requires k in m
    ensures Total(m) == |m[k]| + Total(m - {k})
    decreases |m.Keys|
  {
    var k' :| k' in m && Total(m) == |m[k']| + Total(m - {k'});
    if k' != k {
      assert (m - {k'}).Keys == m.Keys - {k'};
      assert (m - {k}).Keys == m.Keys - {k};
      TotalRemove(m - {k'}, k);
      TotalRemove(m - {k}, k');
      assert m - {k'} - {k} == m - {k} - {k'};
    }
  }

  lemma TotalPush(m: AdjacencyMap, n: NodeId, a: Adjacency)
    ensures Total(Push(m, n, a)) == Total(m) + 1
  {
    var r := Push(m, n, a);
    TotalRemove(r, n);
    if n in m {
      TotalRemove(m, n);
      assert r - {n} == m - {n};
    } else {
      assert r - {n} == m;
    }
  }

  /** Each edge adds exactly one entry to each map: the lists' lengths sum to the edge count,
      so no entry appears that no edge put there. */
  lemma {:induction false} IndexTotal(edges: seq<Edge>, d: Direction)
    ensures Total(Index(edges, d)) == |edges|
    decreases |edges|
  {
    if edges != [] {
      var last := edges[|edges| - 1];
      IndexTotal(edges[..|edges| - 1], d);
      TotalPush(Index(edges[..|edges| - 1], d), Owner(last, d), Entry(last, d));
    }
  }

  /** The loop of `to_syndication_format` that builds both adjacency maps. */
  method BuildAdjacency(edges: seq<Edge>) returns (outMap: AdjacencyMap, inMap: AdjacencyMap)
    ensures outMap == Index(edges, Out)
    ensures inMap == Index(edges, In)
  {
    outMap, inMap := map[], map[];
    var i := 0;
    while i < |edges|
      invariant 0 <= i <= |edges|
      invariant outMap == Index(edges[..i], Out)
      invariant inMap == Index(edges[..i], In)
    {
      var e := edges[i];
      outMap := outMap[e.fromNode := Lookup(outMap, e.fromNode) + [(e.toNode, e.id)]];
      inMap := inMap[e.toNode := Lookup(inMap, e.toNode) + [(e.fromNode, e.id)]];
      assert edges[..i + 1][..i] == edges[..i];
      i := i + 1;
    }
    assert edges[..|edges|] == edges;
  }

  /** The neighbour identifiers of an adjacency list, in the same order. */
  function Neighbors(adj: seq<Adjacency>): (r: seq<NodeId>)
    ensures |r| == |adj|
    ensures forall i :: 0 <= i < |adj| ==> r[i] == adj[i].0
  {
    if adj == [] then [] else [adj[0].0] + Neighbors(adj[1..])
  }

  /** The default acceptance rule: a red text node with non-empty text. */
  predicate IsMarked(node: Node)
  {
    node.TextNode? && node.text != [] && node.color == Some(Preset(Red))
  }

  /** `default_process_node`: keep only non-empty red text nodes, copying the neighbour ids. */
  function DefaultProcessNode(node: Node, outAdj: seq<Adjacency>, inAdj: seq<Adjacency>)
    : (r: Option<SyndicationFormat>)
    ensures r.Some? <==> node.TextNode? && |node.text| > 0 && node.color == Some(Preset(Red))
    ensures r.Some? ==> r.value.id == node.id && r.value.text == node.text
    ensures r.Some? ==> |r.value.inNeighborIds| == |inAdj| && |r.value.outNeighborIds| == |outAdj|
    ensures r.Some? ==> forall i :: 0 <= i < |inAdj| ==> r.value.inNeighborIds[i] == inAdj[i].0
    ensures r.Some? ==> forall i :: 0 <= i < |outAdj| ==> r.value.outNeighborIds[i] == outAdj[i].0
  {
    match node
    case TextNode(id, text, color) =>
      if text == [] then None
      else if color != Some(Preset(Red)) then None
      else Some(SyndicationFormat(id, text, Neighbors(inAdj), Neighbors(outAdj)))
    case _ => None
  }

  type Processor = (Node, seq<Adjacency>, seq<Adjacency>) -> Option<SyndicationFormat>

  /** The caller's processor when one is given, the default one otherwise. */
  function Process(processor: Option<Processor>, node: Node, outAdj: seq<Adjacency>, inAdj: seq<Adjacency>)
    : Option<SyndicationFormat>
  {
    match processor
    case Some(f) => f(node, outAdj, inAdj)
    case None => DefaultProcessNode(node, outAdj, inAdj)
  }

  /** What the processor makes of node `n`, given the two adjacency maps. */
  function Candidate(nodes: map<NodeId, Node>, outMap: AdjacencyMap, inMap: AdjacencyMap,
                     processor: Option<Processor>, n: NodeId): Option<SyndicationFormat>
    requires n in nodes
  {
    Process(processor, nodes[n], Lookup(outMap, n), Lookup(inMap, n))
  }

  /** The node pass: visit the nodes in `order`, keep the items the processor returns and
      collect them keyed by their own id (a later item replaces an earlier one of equal id). */
  function Collect(nodes: map<NodeId, Node>, order: seq<NodeId>, outMap: AdjacencyMap,
                   inMap: AdjacencyMap, processor: Option<Processor>): map<NodeId, SyndicationFormat>
    requires forall i :: 0 <= i < |order| ==> order[i] in nodes
    decreases |order|
  {
    if order == [] then map[]
    else
      var rest := Collect(nodes, order[..|order| - 1], outMap, inMap, processor);
      match Candidate(nodes, outMap, inMap, processor, order[|order| - 1])
      case Some(item) => rest[item.id := item]
      case None => rest
  }

  /** The result of `to_syndication_format` for a canvas whose nodes are visited in `order`. */
  function SyndicationItems(canvas: Canvas, order: seq<NodeId>, processor: Option<Processor>)
    : map<NodeId, SyndicationFormat>
    requires forall i :: 0 <= i < |order| ==> order[i] in canvas.nodes
  {
    Collect(canvas.nodes, order, Index(canvas.edges, Out), Index(canvas.edges, In), processor)
  }

  /** Every item of the result is keyed by its own id and is what the processor returned
      for one of the visited nodes. */
  lemma {:induction false} CollectSound(
    nodes: map<NodeId, Node>, order: seq<NodeId>, outMap: AdjacencyMap, inMap: AdjacencyMap,
    processor: Option<Processor>, k: NodeId)
    requires forall i :: 0 <= i < |order| ==> order[i] in nodes
    requires k in Collect(nodes, order, outMap, inMap, processor)
    ensures Collect(nodes, order, outMap, inMap, processor)[k].id == k
    ensures exists i :: 0 <= i < |order|
              && Candidate(nodes, outMap, inMap, processor, order[i])
                 == Some(Collect(nodes, order, outMap, inMap, processor)[k])
    decreases |order|
  {
    var init := order[..|order| - 1];
    var c := Candidate(nodes, outMap, inMap, processor, order[|order| - 1]);
    if !(c.Some? && c.value.id == k) {
      CollectSound(nodes, init, outMap, inMap, processor, k);
      var i :| 0 <= i < |init| && Candidate(nodes, outMap, inMap, processor, init[i])
                                  == Some(Collect(nodes, init, outMap, inMap, processor)[k]);
      assert order[i] == init[i];
    }
  }

  /** Every item the processor returns for a visited node has its id in the result. */
  lemma {:induction false} CollectComplete(
    nodes: map<NodeId, Node>, order: seq<NodeId>, outMap: AdjacencyMap, inMap: AdjacencyMap,
    processor: Option<Processor>, i: nat)
    requires forall j :: 0 <= j < |order| ==> order[j] in nodes
    requires i < |order| && Candidate(nodes, outMap, inMap, processor, order[i]).Some?
    ensures Candidate(nodes, outMap, inMap, processor, order[i]).value.id
            in Collect(nodes, order, outMap, inMap, processor)
    decreases |order|
  {
    if i < |order| - 1 {
      var init := order[..|order| - 1];
      assert init[i] == order[i];
      CollectComplete(nodes, init, outMap, inMap, processor, i);
    }
  }

  /** An accepted item whose id no other accepted item shares is in the result unchanged. */
  lemma {:induction false} CollectUnique(
    nodes: map<NodeId, Node>, order: seq<NodeId>, outMap: AdjacencyMap, inMap: AdjacencyMap,
    processor: Option<Processor>, i: nat)
    requires forall j :: 0 <= j < |order| ==> order[j] in nodes
    requires i < |order| && Candidate(nodes, outMap, inMap, processor, order[i]).Some?
    requires forall j :: (0 <= j < |order| && j != i
                          && Candidate(nodes, outMap, inMap, processor, order[j]).Some?) ==>
               Candidate(nodes, outMap, inMap, processor, order[j]).value.id
               != Candidate(nodes, outMap, inMap, processor, order[i]).value.id
    ensures var item := Candidate(nodes, outMap, inMap, processor, order[i]).value;
            item.id in Collect(nodes, order, outMap, inMap, processor)
            && Collect(nodes, order, outMap, inMap, processor)[item.id] == item
    decreases |order|
  {
    var init := order[..|order| - 1];
    if i < |order| - 1 {
      forall j | 0 <= j < |init| && j != i && Candidate(nodes, outMap, inMap, processor, init[j]).Some?
        ensures Candidate(nodes, outMap, inMap, processor, init[j]).value.id
             != Candidate(nodes, outMap, inMap, processor, init[i]).value.id
      {
        assert init[j] == order[j] && init[i] == order[i];
      }
      CollectUnique(nodes, init, outMap, inMap, processor, i);
      assert init[i] == order[i];
    }
  }

  /** With the default processor on a parsed canvas, exactly the marked nodes become items,
      keyed by their node id, with the neighbour ids of their adjacency lists. Edges that name
      a node absent from the node map therefore never yield an item. */
  lemma DefaultSelection(canvas: Canvas, order: seq<NodeId>, k: NodeId)
    requires WellKeyed(canvas.nodes) && IsEnumeration(order, canvas.nodes.Keys)
    ensures k in SyndicationItems(canvas, order, None) <==> k in canvas.nodes && IsMarked(canvas.nodes[k])
    ensures k in SyndicationItems(canvas, order, None) ==>
              SyndicationItems(canvas, order, None)[k]
              == SyndicationFormat(k, canvas.nodes[k].text,
                                   Neighbors(Lookup(Index(canvas.edges, In), k)),
                                   Neighbors(Lookup(Index(canvas.edges, Out), k)))
  {
    var nodes, outMap, inMap := canvas.nodes, Index(canvas.edges, Out), Index(canvas.edges, In);
    if k in SyndicationItems(canvas, order, None) {
      CollectSound(nodes, order, outMap, inMap, None, k);
    }
    if k in nodes && IsMarked(nodes[k]) {
      var i :| 0 <= i < |order| && order[i] == k;
      forall j | 0 <= j < |order| && j != i && Candidate(nodes, outMap, inMap, None, order[j]).Some?
        ensures Candidate(nodes, outMap, inMap, None, order[j]).value.id
             != Candidate(nodes, outMap, inMap, None, order[i]).value.id
      {
      }
      CollectUnique(nodes, order, outMap, inMap, None, i);
    }
  }

  /** For an edge A -> B between two marked nodes, A is an in-neighbour of B's item and B an
      out-neighbour of A's item. */
  lemma EdgeBecomesNeighbor(canvas: Canvas, order: seq<NodeId>, j: nat)
    requires WellKeyed(canvas.nodes) && IsEnumeration(order, canvas.nodes.Keys)
    requires j < |canvas.edges|
    ensures var e := canvas.edges[j];
            var items := SyndicationItems(canvas, order, None);
            && (e.toNode in items ==> e.fromNode in items[e.toNode].inNeighborIds)
            && (e.fromNode in items ==> e.toNode in items[e.fromNode].outNeighborIds)
  {
    var e := canvas.edges[j];
    var items := SyndicationItems(canvas, order, None);
    if e.toNode in items {
      DefaultSelection(canvas, order, e.toNode);
      EdgeRecorded(canvas.edges, In, e.toNode, Entry(e, In));
      var adj := Lookup(Index(canvas.edges, In), e.toNode);
      var p :| 0 <= p < |adj| && adj[p] == Entry(e, In);
      assert Neighbors(adj)[p] == e.fromNode;
    }
    if e.fromNode in items {
      DefaultSelection(canvas, order, e.fromNode);
      EdgeRecorded(canvas.edges, Out, e.fromNode, Entry(e, Out));
      var adj := Lookup(Index(canvas.edges, Out), e.fromNode);
      var p :| 0 <= p < |adj| && adj[p] == Entry(e, Out);
      assert Neighbors(adj)[p] == e.toNode;
    }
  }

  /** `to_syndication_format`: index the edges, then run the processor over every node. */
  method ToSyndicationFormat(canvas: Canvas, order: seq<NodeId>, processor: Option<Processor>)
    returns (items: map<NodeId, SyndicationFormat>)
    requires IsEnumeration(order, canvas.nodes.Keys)
    ensures items == SyndicationItems(canvas, order, processor)
  {
    var outMap, inMap := BuildAdjacency(canvas.edges);
    items := Collect(canvas.nodes, order, outMap, inMap, processor);
  }
}

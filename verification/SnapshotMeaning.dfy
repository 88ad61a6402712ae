/** The bytes that are hashed for a graph, spelled out. */
module SnapshotMeaning {
  import opened Sorting
  import opened Text
  import opened Utf8
  import opened GraphModel
  import opened GraphSnapshot

  /** The stored form of a node, field by field. */
  predicate Stores(p: PersistedNode, n: Node) {
    && p.id == n.id && p.lineStart == n.lineStart && p.lineEnd == n.lineEnd && p.signature == n.signature
    && p.body == n.body && p.metadata == n.metadata && p.source == n.source
  }

  /** The line of a node: the word, the id and the stored form, each behind a NUL, and a terminator. */
  ghost predicate NodeLine(z: Serializer, n: Node, line: seq<Byte>) {
    exists p :: Stores(p, n) &&
      line == Encode("node") + [0]
              + Encode(n.id.root + ":" + n.id.file + ":" + n.id.name + ":" + n.id.kind.text) + [0] + z.nodeJson(p) + [255]
  }

  /** The id of an edge: its ends, what is between them and, if it has any, its evidence. */
  function EdgeName(from: string, kind: string, to: string, evidence: seq<string>, hash: seq<string> -> string): string {
    if |evidence| > 0 then from + "->" + kind + "->" + to + "->evidence:" + hash(evidence)
    else from + "->" + kind + "->" + to
  }

  ghost predicate EdgeLine(z: Serializer, e: Edge, line: seq<Byte>) {
    exists kind :: Labelled(e.kind, kind) &&
      line == Encode("edge") + [0]
              + Encode(EdgeName(e.from.ToStableId(), kind, e.to.ToStableId(), e.evidence, z.evidenceHash)) + [0]
              + z.edgeJson(e) + [255]
  }

  /** What stands between the ends of an edge. */
  predicate Labelled(kind: EdgeKind, text: string) {
    match kind
    case Calls => text == "calls"
    case ReferencedBy => text == "referenced_by"
    case Implements => text == "implements"
    case DependsOn => text == "depends_on"
    case Uncounted(other) => text == other
  }

  lemma LabelMeans(kind: EdgeKind)
    ensures Labelled(kind, kind.Label())
  {
  }

  lemma TagWords()
    ensures TagBytes(NodeTag) == Encode("node") + [0] && TagBytes(EdgeTag) == Encode("edge") + [0]
  {
    EncodeAscii("node");
    EncodeAscii("edge");
  }

  lemma NodeLineIs(z: Serializer, n: Node)
    ensures NodeLine(z, n, FrameOne(NodeRec(z, Persisted(n))))
  {
    TagWords();
    assert Stores(Persisted(n), n);
    assert n.id.ToStableId() == n.id.root + ":" + n.id.file + ":" + n.id.name + ":" + n.id.kind.text;
  }

  lemma EdgeLineIs(z: Serializer, e: Edge)
    ensures EdgeLine(z, e, FrameOne(EdgeRec(z, e)))
  {
    TagWords();
    LabelMeans(e.kind);
  }

  /** The lines of `items`, one after another. */
  ghost predicate Lines<T>(items: seq<T>, line: (T, seq<Byte>) -> bool, bytes: seq<Byte>)
    decreases |items|
  {
    if items == [] then bytes == []
    else exists k: nat :: k <= |bytes| && line(items[0], bytes[..k]) && Lines(items[1..], line, bytes[k..])
  }

  lemma LinesCons<T>(items: seq<T>, line: (T, seq<Byte>) -> bool, first: seq<Byte>, rest: seq<Byte>)
    requires items != [] && line(items[0], first) && Lines(items[1..], line, rest)
    ensures Lines(items, line, first + rest)
  {
    var bytes := first + rest;
    assert bytes[..|first|] == first && bytes[|first|..] == rest;
  }

  ghost function NodeLines(z: Serializer): (Node, seq<Byte>) -> bool {
    (n, line) => NodeLine(z, n, line)
  }

  ghost function EdgeLines(z: Serializer): (Edge, seq<Byte>) -> bool {
    (e, line) => EdgeLine(z, e, line)
  }

  lemma {:induction false} NodesAsLines(z: Serializer, nodes: seq<Node>)
    ensures Lines(nodes, NodeLines(z), Frame(NodeRecs(z, Map(nodes, Persisted))))
  {
    if nodes != [] {
      NodesAsLines(z, nodes[1..]);
      NodeLineIs(z, nodes[0]);
      assert Map(nodes, Persisted)[1..] == Map(nodes[1..], Persisted);
      FrameHead(NodeRec(z, Persisted(nodes[0])), NodeRecs(z, Map(nodes[1..], Persisted)));
      LinesCons(nodes, NodeLines(z), FrameOne(NodeRec(z, Persisted(nodes[0]))), Frame(NodeRecs(z, Map(nodes[1..], Persisted))));
    }
  }

  lemma {:induction false} EdgesAsLines(z: Serializer, edges: seq<Edge>)
    ensures Lines(edges, EdgeLines(z), Frame(EdgeRecs(z, edges)))
  {
    if edges != [] {
      EdgesAsLines(z, edges[1..]);
      EdgeLineIs(z, edges[0]);
      FrameHead(EdgeRec(z, edges[0]), EdgeRecs(z, edges[1..]));
      LinesCons(edges, EdgeLines(z), FrameOne(EdgeRec(z, edges[0])), Frame(EdgeRecs(z, edges[1..])));
    }
  }

  /** By ascending stable id. */
  ghost predicate ByStableId<T>(items: seq<T>, id: T -> string) {
    forall i, j | 0 <= i < j < |items| :: StrLe(id(items[i]), id(items[j]))
  }

  /** The digest of a graph is that of the lines of its nodes by stable id, and then of its edges. */
  lemma DigestMeans(z: Serializer, nodes: seq<Node>, edges: seq<Edge>)
    returns (n: seq<Node>, e: seq<Edge>, nodePart: seq<Byte>, edgePart: seq<Byte>)
    ensures multiset(n) == multiset(nodes) && ByStableId(n, (x: Node) => x.id.ToStableId())
    ensures multiset(e) == multiset(edges) && ByStableId(e, (x: Edge) => x.StableId(z.evidenceHash))
    ensures Lines(n, NodeLines(z), nodePart) && Lines(e, EdgeLines(z), edgePart)
    ensures GraphDigest(z, nodes, edges) == z.digest(nodePart + edgePart)
  {
    var le := EdgeOrder(z.evidenceHash);
    n, e := Sort(nodes, NodeLe), Sort(edges, le);
    NodeOrder();
    EdgeOrderTotal(z.evidenceHash);
    SortSorts(nodes, NodeLe);
    SortSorts(edges, le);
    SortPermutes(nodes, NodeLe);
    SortPermutes(edges, le);
    NodesAsLines(z, n);
    EdgesAsLines(z, e);
    nodePart, edgePart := Frame(NodeRecs(z, Map(n, Persisted))), Frame(EdgeRecs(z, e));
    FrameConcat(NodeRecs(z, Map(n, Persisted)), EdgeRecs(z, e));
  }
}

/** The framed byte stream that identifies a persisted graph. */
module GraphSnapshot {
  import opened Wrappers
  import opened Sorting
  import opened Text
  import opened Utf8
  import opened GraphModel

  /** The node projection that is stored: everything but `language`. */
  datatype PersistedNode = PersistedNode(
    id: NodeId,
    lineStart: nat,
    lineEnd: nat,
    signature: string,
    body: string,
    metadata: map<string, string>,
    source: ExtractionSource)

  function Persisted(n: Node): PersistedNode {
    PersistedNode(n.id, n.lineStart, n.lineEnd, n.signature, n.body, n.metadata, n.source)
  }

  function WithoutLanguage(n: Node): Node {
    n.(language := "")
  }

  /** The projection forgets the language and nothing else. */
  lemma ForgetsOnlyLanguage(m: Node, n: Node)
    ensures Persisted(m) == Persisted(n) <==> m.(language := "") == n.(language := "")
  {
  }

  function Restored(p: PersistedNode): Node {
    Node(p.id, "", p.lineStart, p.lineEnd, p.signature, p.body, p.metadata, p.source)
  }

  lemma SameStored(n1: seq<Node>, n2: seq<Node>)
    ensures multiset(Map(n1, Persisted)) == multiset(Map(n2, Persisted)) <==>
            multiset(Map(n1, WithoutLanguage)) == multiset(Map(n2, WithoutLanguage))
  {
    assert Map(Map(n1, Persisted), Restored) == Map(n1, WithoutLanguage);
    assert Map(Map(n2, Persisted), Restored) == Map(n2, WithoutLanguage);
    assert Map(Map(n1, WithoutLanguage), Persisted) == Map(n1, Persisted);
    assert Map(Map(n2, WithoutLanguage), Persisted) == Map(n2, Persisted);
    if multiset(Map(n1, Persisted)) == multiset(Map(n2, Persisted)) {
      MapPermutation(Map(n1, Persisted), Map(n2, Persisted), Restored);
    }
    if multiset(Map(n1, WithoutLanguage)) == multiset(Map(n2, WithoutLanguage)) {
      MapPermutation(Map(n1, WithoutLanguage), Map(n2, WithoutLanguage), Persisted);
    }
  }

  /** Serialisation and hashing, taken as given. */
  datatype Serializer = Serializer(
    nodeJson: PersistedNode -> seq<Byte>,
    edgeJson: Edge -> seq<Byte>,
    evidenceHash: seq<string> -> string,
    digest: seq<Byte> -> string)
  {
    /** JSON text is UTF-8 with control characters escaped, and determines its value; the
        hash has no collisions. */
    ghost predicate Lawful() {
      && (forall n :: JsonBytes(nodeJson(n)))
      && (forall e :: JsonBytes(edgeJson(e)))
      && (forall m, n :: nodeJson(m) == nodeJson(n) ==> m == n)
      && (forall e, f :: edgeJson(e) == edgeJson(f) ==> e == f)
      && (forall a, b :: digest(a) == digest(b) ==> a == b)
    }
  }

  predicate JsonBytes(b: seq<Byte>) {
    0 !in b && 0xFF !in b
  }

  // ---- framing ----

  datatype Tag = NodeTag | EdgeTag

  datatype Rec = Rec(tag: Tag, id: seq<Byte>, json: seq<Byte>)

  function TagBytes(tag: Tag): seq<Byte> {
    match tag
    case NodeTag => [110, 111, 100, 101, 0]
    case EdgeTag => [101, 100, 103, 101, 0]
  }

  function Body(r: Rec): seq<Byte> {
    TagBytes(r.tag) + r.id + [0] + r.json
  }

  function FrameOne(r: Rec): seq<Byte> {
    Body(r) + [0xFF]
  }

  function Frame(recs: seq<Rec>): seq<Byte> {
    if recs == [] then [] else FrameOne(recs[0]) + Frame(recs[1..])
  }

  predicate Framable(r: Rec) {
    0xFF !in r.id && JsonBytes(r.json)
  }

  /** Position after the last `x`, or zero. */
  function AfterLast(b: seq<Byte>, x: Byte): (i: nat)
    ensures i <= |b|
    ensures i > 0 ==> b[i - 1] == x
  {
    if b == [] then 0
    else if b[|b| - 1] == x then |b|
    else AfterLast(b[..|b| - 1], x)
  }

  lemma {:induction false} AfterLastAt(a: seq<Byte>, x: Byte, rest: seq<Byte>)
    requires x !in rest
    ensures AfterLast(a + [x] + rest, x) == |a| + 1
  {
    var s := a + [x] + rest;
    if rest != [] {
      var n := |rest| - 1;
      assert s[|s| - 1] == rest[n] && rest[n] in rest;
      assert s[..|s| - 1] == a + [x] + rest[..n];
      AfterLastAt(a, x, rest[..n]);
    }
  }

  function TagOf(bytes: seq<Byte>): Option<Tag> {
    if bytes == TagBytes(NodeTag) then Some(NodeTag)
    else if bytes == TagBytes(EdgeTag) then Some(EdgeTag)
    else None
  }

  lemma TagReadsBack(tag: Tag)
    ensures |TagBytes(tag)| == 5 && TagOf(TagBytes(tag)) == Some(tag)
  {
    assert TagBytes(NodeTag)[0] != TagBytes(EdgeTag)[0];
  }

  /** Reads one record back from the bytes before its terminator. */
  function UnframeOne(body: seq<Byte>): Option<Rec> {
    if |body| < 5 then None
    else
      var tail := body[5..];
      var k := AfterLast(tail, 0);
      if k == 0 then None
      else
        match TagOf(body[..5])
        case None => None
        case Some(tag) => Some(Rec(tag, tail[..k - 1], tail[k..]))
  }

  function Unframe(b: seq<Byte>): Option<seq<Rec>> {
    if b == [] then Some([])
    else
      var i := IndexOf(b, 0xFF);
      if i == |b| then None
      else
        match (UnframeOne(b[..i]), Unframe(b[i + 1..]))
        case (Some(r), Some(rest)) => Some([r] + rest)
        case _ => None
  }

  lemma UnframeFrameOne(r: Rec)
    requires JsonBytes(r.json)
    ensures UnframeOne(Body(r)) == Some(r)
  {
    var body := Body(r);
    var tail := r.id + [0] + r.json;
    TagReadsBack(r.tag);
    assert body == TagBytes(r.tag) + tail;
    assert body[5..] == tail && body[..5] == TagBytes(r.tag);
    AfterLastAt(r.id, 0, r.json);
    assert tail[..|r.id|] == r.id && tail[|r.id| + 1..] == r.json;
  }

  lemma UnframeStep(body: seq<Byte>, rest: seq<Byte>)
    requires 0xFF !in body
    ensures Unframe(body + [0xFF] + rest) ==
            match (UnframeOne(body), Unframe(rest)) case (Some(r), Some(recs)) => Some([r] + recs) case _ => None
  {
    var b := body + [0xFF] + rest;
    IndexOfAt(body, 0xFF, rest);
    assert b[..|body|] == body && b[|body| + 1..] == rest;
  }

  lemma FrameBody(r: Rec)
    requires Framable(r)
    ensures 0xFF !in Body(r)
  {
    assert 0xFF !in TagBytes(r.tag);
  }

  /** The stream is uniquely decodable, even when an id contains a NUL byte. */
  lemma {:induction false} UnframeFrame(recs: seq<Rec>)
    requires forall r | r in recs :: Framable(r)
    ensures Unframe(Frame(recs)) == Some(recs)
  {
    if recs != [] {
      var r, rest := recs[0], recs[1..];
      UnframeFrame(rest);
      assert r in recs;
      FrameBody(r);
      UnframeStep(Body(r), Frame(rest));
      UnframeFrameOne(r);
      assert recs == [r] + rest;
    }
  }

  lemma FrameInjective(a: seq<Rec>, b: seq<Rec>)
    requires forall r | r in a :: Framable(r)
    requires forall r | r in b :: Framable(r)
    requires Frame(a) == Frame(b)
    ensures a == b
  {
    UnframeFrame(a);
    UnframeFrame(b);
  }

  lemma {:induction false} FrameConcat(a: seq<Rec>, b: seq<Rec>)
    ensures Frame(a + b) == Frame(a) + Frame(b)
  {
    if a == [] {
      assert a + b == b;
    } else {
      assert (a + b)[1..] == a[1..] + b;
      FrameConcat(a[1..], b);
    }
  }

  // ---- the snapshot ----

  predicate NodeLe(a: Node, b: Node) {
    StrLe(a.StableId(), b.StableId())
  }

  predicate PersistedLe(a: PersistedNode, b: PersistedNode) {
    StrLe(a.id.ToStableId(), b.id.ToStableId())
  }

  function EdgeOrder(evidenceHash: seq<string> -> string): (Edge, Edge) -> bool {
    (a: Edge, b: Edge) => StrLe(a.StableId(evidenceHash), b.StableId(evidenceHash))
  }

  function NodeRec(z: Serializer, n: PersistedNode): Rec {
    Rec(NodeTag, Encode(n.id.ToStableId()), z.nodeJson(n))
  }

  function EdgeRec(z: Serializer, e: Edge): Rec {
    Rec(EdgeTag, Encode(e.StableId(z.evidenceHash)), z.edgeJson(e))
  }

  function NodeRecs(z: Serializer, nodes: seq<PersistedNode>): seq<Rec> {
    if nodes == [] then [] else [NodeRec(z, nodes[0])] + NodeRecs(z, nodes[1..])
  }

  function EdgeRecs(z: Serializer, edges: seq<Edge>): seq<Rec> {
    if edges == [] then [] else [EdgeRec(z, edges[0])] + EdgeRecs(z, edges[1..])
  }

  function Snapshot(z: Serializer, nodes: seq<Node>, edges: seq<Edge>): seq<Rec> {
    NodeRecs(z, Map(Sort(nodes, NodeLe), Persisted)) + EdgeRecs(z, Sort(edges, EdgeOrder(z.evidenceHash)))
  }

  function GraphDigest(z: Serializer, nodes: seq<Node>, edges: seq<Edge>): string {
    z.digest(Frame(Snapshot(z, nodes, edges)))
  }

  lemma FrameHead(r: Rec, rest: seq<Rec>)
    ensures Frame([r] + rest) == FrameOne(r) + Frame(rest)
  {
    assert ([r] + rest)[1..] == rest;
  }

  method HashNodes(z: Serializer, ordered: seq<Node>) returns (hashed: seq<Byte>)
    ensures hashed == Frame(NodeRecs(z, Map(ordered, Persisted)))
  {
    hashed := [];
    ghost var projected := Map(ordered, Persisted);
    for i := 0 to |ordered|
      invariant hashed + Frame(NodeRecs(z, projected[i..])) == Frame(NodeRecs(z, projected))
    {
      assert projected[i..][0] == projected[i] && projected[i..][1..] == projected[i + 1..];
      var n := Persisted(ordered[i]);
      var chunk := TagBytes(NodeTag) + Encode(ordered[i].StableId()) + [0] + z.nodeJson(n) + [0xFF];
      assert chunk == FrameOne(NodeRec(z, n));
      FrameHead(NodeRec(z, n), NodeRecs(z, projected[i + 1..]));
      hashed := hashed + chunk;
    }
  }

  method HashEdges(z: Serializer, ordered: seq<Edge>) returns (hashed: seq<Byte>)
    ensures hashed == Frame(EdgeRecs(z, ordered))
  {
    hashed := [];
    for i := 0 to |ordered|
      invariant hashed + Frame(EdgeRecs(z, ordered[i..])) == Frame(EdgeRecs(z, ordered))
    {
      assert ordered[i..][0] == ordered[i] && ordered[i..][1..] == ordered[i + 1..];
      var e := ordered[i];
      var chunk := TagBytes(EdgeTag) + Encode(e.StableId(z.evidenceHash)) + [0] + z.edgeJson(e) + [0xFF];
      assert chunk == FrameOne(EdgeRec(z, e));
      FrameHead(EdgeRec(z, e), EdgeRecs(z, ordered[i + 1..]));
      hashed := hashed + chunk;
    }
  }

  method GraphSnapshotDigest(z: Serializer, nodes: seq<Node>, edges: seq<Edge>) returns (digest: string)
    ensures digest == GraphDigest(z, nodes, edges)
  {
    var orderedNodes := Sort(nodes, NodeLe);
    var orderedEdges := Sort(edges, EdgeOrder(z.evidenceHash));
    var nodePart := HashNodes(z, orderedNodes);
    var edgePart := HashEdges(z, orderedEdges);
    FrameConcat(NodeRecs(z, Map(orderedNodes, Persisted)), EdgeRecs(z, orderedEdges));
    digest := z.digest(nodePart + edgePart);
  }

  // ---- what the snapshot identifies ----

  /** Nodes with one stable id store the same thing, and so do edges: weaker than asking for
      distinct ids. */
  ghost predicate NodeIdsIdentify(nodes: seq<Node>) {
    forall m, n | m in nodes && n in nodes && m.StableId() == n.StableId() ::
      m.(language := "") == n.(language := "")
  }

  ghost predicate EdgeIdsIdentify(z: Serializer, edges: seq<Edge>) {
    forall e, f | e in edges && f in edges && e.StableId(z.evidenceHash) == f.StableId(z.evidenceHash) :: e == f
  }

  ghost predicate IdsIdentify(z: Serializer, nodes: seq<Node>, edges: seq<Edge>) {
    NodeIdsIdentify(nodes) && EdgeIdsIdentify(z, edges)
  }

  lemma {:induction false} NodeRecsInjective(z: Serializer, a: seq<PersistedNode>, b: seq<PersistedNode>)
    requires z.Lawful() && NodeRecs(z, a) == NodeRecs(z, b)
    ensures a == b
  {
    if a != [] && b != [] {
      assert NodeRecs(z, a)[1..] == NodeRecs(z, a[1..]) && NodeRecs(z, b)[1..] == NodeRecs(z, b[1..]);
      NodeRecsInjective(z, a[1..], b[1..]);
      assert NodeRecs(z, a)[0] == NodeRec(z, a[0]) && NodeRecs(z, b)[0] == NodeRec(z, b[0]);
      assert a == [a[0]] + a[1..] && b == [b[0]] + b[1..];
    }
  }

  lemma {:induction false} EdgeRecsInjective(z: Serializer, a: seq<Edge>, b: seq<Edge>)
    requires z.Lawful() && EdgeRecs(z, a) == EdgeRecs(z, b)
    ensures a == b
  {
    if a != [] && b != [] {
      assert EdgeRecs(z, a)[1..] == EdgeRecs(z, a[1..]) && EdgeRecs(z, b)[1..] == EdgeRecs(z, b[1..]);
      EdgeRecsInjective(z, a[1..], b[1..]);
      assert EdgeRecs(z, a)[0] == EdgeRec(z, a[0]) && EdgeRecs(z, b)[0] == EdgeRec(z, b[0]);
      assert a == [a[0]] + a[1..] && b == [b[0]] + b[1..];
    }
  }

  lemma {:induction false} RecsFramable(z: Serializer, nodes: seq<PersistedNode>, edges: seq<Edge>)
    requires z.Lawful()
    ensures |NodeRecs(z, nodes)| == |nodes| && |EdgeRecs(z, edges)| == |edges|
    ensures forall r | r in NodeRecs(z, nodes) :: Framable(r) && r.tag == NodeTag
    ensures forall r | r in EdgeRecs(z, edges) :: Framable(r) && r.tag == EdgeTag
    decreases |nodes| + |edges|
  {
    if nodes != [] {
      EncodeBytes(nodes[0].id.ToStableId());
      RecsFramable(z, nodes[1..], edges);
    } else if edges != [] {
      EncodeBytes(edges[0].StableId(z.evidenceHash));
      RecsFramable(z, nodes, edges[1..]);
    }
  }

  /** Where the node records end is visible in the list itself. */
  lemma {:induction false} SplitByTag(a: seq<Rec>, b: seq<Rec>, c: seq<Rec>, d: seq<Rec>)
    requires forall r | r in a + c :: r.tag == NodeTag
    requires forall r | r in b + d :: r.tag == EdgeTag
    requires a + b == c + d
    ensures a == c && b == d
  {
    var s := a + b;
    forall i | 0 <= i < |s|
      ensures s[i].tag == NodeTag <==> i < |a|
      ensures s[i].tag == NodeTag <==> i < |c|
    {
      assert s[i] in (if i < |a| then a + c else b + d);
      assert (c + d)[i] in (if i < |c| then a + c else b + d);
    }
    assert |c| < |s| ==> (s[|c|].tag == NodeTag <==> |c| < |a|);
    assert |a| < |s| ==> (s[|a|].tag == NodeTag <==> |a| < |c|);
    assert |a| == |c|;
    assert a == s[..|a|] && c == (c + d)[..|a|];
    assert b == s[|a|..] && d == (c + d)[|a|..];
  }

  lemma SameStreamSameRecords(z: Serializer, n1: seq<Node>, e1: seq<Edge>, n2: seq<Node>, e2: seq<Edge>)
    requires z.Lawful() && GraphDigest(z, n1, e1) == GraphDigest(z, n2, e2)
    ensures Map(Sort(n1, NodeLe), Persisted) == Map(Sort(n2, NodeLe), Persisted)
    ensures Sort(e1, EdgeOrder(z.evidenceHash)) == Sort(e2, EdgeOrder(z.evidenceHash))
  {
    var p1, p2 := Map(Sort(n1, NodeLe), Persisted), Map(Sort(n2, NodeLe), Persisted);
    var s1, s2 := Sort(e1, EdgeOrder(z.evidenceHash)), Sort(e2, EdgeOrder(z.evidenceHash));
    RecsFramable(z, p1, s1);
    RecsFramable(z, p2, s2);
    FrameInjective(Snapshot(z, n1, e1), Snapshot(z, n2, e2));
    SplitByTag(NodeRecs(z, p1), EdgeRecs(z, s1), NodeRecs(z, p2), EdgeRecs(z, s2));
    NodeRecsInjective(z, p1, p2);
    EdgeRecsInjective(z, s1, s2);
  }

  lemma PersistedOrder()
    ensures TotalPreorder(PersistedLe)
    ensures forall m, n :: NodeLe(m, n) == PersistedLe(Persisted(m), Persisted(n))
  {
    forall a: PersistedNode, b: PersistedNode ensures PersistedLe(a, b) || PersistedLe(b, a) {
      StrLeTotal(a.id.ToStableId(), b.id.ToStableId());
    }
    forall a: PersistedNode, b: PersistedNode, c: PersistedNode | PersistedLe(a, b) && PersistedLe(b, c)
      ensures PersistedLe(a, c)
    {
      StrLeTransitive(a.id.ToStableId(), b.id.ToStableId(), c.id.ToStableId());
    }
  }

  lemma EdgeOrderTotal(h: seq<string> -> string)
    ensures TotalPreorder(EdgeOrder(h))
  {
    var le := EdgeOrder(h);
    forall a: Edge, b: Edge ensures le(a, b) || le(b, a) {
      StrLeTotal(a.StableId(h), b.StableId(h));
    }
    forall a: Edge, b: Edge, c: Edge | le(a, b) && le(b, c) ensures le(a, c) {
      StrLeTransitive(a.StableId(h), b.StableId(h), c.StableId(h));
    }
  }

  lemma SortedProjection(n: seq<Node>)
    ensures Map(Sort(n, NodeLe), Persisted) == Sort(Map(n, Persisted), PersistedLe)
  {
    PersistedOrder();
    MapSort(n, Persisted, NodeLe, PersistedLe);
  }

  lemma ProjectionSeparates(z: Serializer, n: seq<Node>, e: seq<Edge>)
    requires IdsIdentify(z, n, e)
    ensures Separates(Map(n, Persisted), PersistedLe) && Separates(e, EdgeOrder(z.evidenceHash))
  {
    var projected := Map(n, Persisted);
    forall a, b | a in projected && b in projected && PersistedLe(a, b) && PersistedLe(b, a) ensures a == b {
      StrLeAntisymmetric(a.id.ToStableId(), b.id.ToStableId());
      var i :| 0 <= i < |projected| && projected[i] == a;
      var j :| 0 <= j < |projected| && projected[j] == b;
      assert n[i] in n && n[j] in n;
      ForgetsOnlyLanguage(n[i], n[j]);
    }
    var le := EdgeOrder(z.evidenceHash);
    forall a, b | a in e && b in e && le(a, b) && le(b, a) ensures a == b {
      StrLeAntisymmetric(a.StableId(z.evidenceHash), b.StableId(z.evidenceHash));
    }
  }

  /** The digest determines what is stored, whatever the stable ids are: graphs with one digest
      hold the same nodes, up to their language, and the same edges. */
  lemma DigestBinds(z: Serializer, n1: seq<Node>, e1: seq<Edge>, n2: seq<Node>, e2: seq<Edge>)
    requires z.Lawful() && GraphDigest(z, n1, e1) == GraphDigest(z, n2, e2)
    ensures multiset(Map(n1, WithoutLanguage)) == multiset(Map(n2, WithoutLanguage)) && multiset(e1) == multiset(e2)
  {
    SameStored(n1, n2);
    var le := EdgeOrder(z.evidenceHash);
    SameStreamSameRecords(z, n1, e1, n2, e2);
    SortedProjection(n1);
    SortedProjection(n2);
    SortPermutes(Map(n1, Persisted), PersistedLe);
    SortPermutes(Map(n2, Persisted), PersistedLe);
    SortPermutes(e1, le);
    SortPermutes(e2, le);
  }

  /** If stable ids identify, two graphs have one digest exactly when they store the same nodes and
      the same edges: neither the order of the lists nor the language of a node matters, and nothing
      else is ignored. */
  lemma SnapshotIdentity(z: Serializer, n1: seq<Node>, e1: seq<Edge>, n2: seq<Node>, e2: seq<Edge>)
    requires z.Lawful() && IdsIdentify(z, n1, e1)
    ensures GraphDigest(z, n1, e1) == GraphDigest(z, n2, e2) <==>
            multiset(Map(n1, WithoutLanguage)) == multiset(Map(n2, WithoutLanguage)) && multiset(e1) == multiset(e2)
  {
    SameStored(n1, n2);
    if GraphDigest(z, n1, e1) == GraphDigest(z, n2, e2) {
      DigestBinds(z, n1, e1, n2, e2);
    }
    if multiset(Map(n1, Persisted)) == multiset(Map(n2, Persisted)) && multiset(e1) == multiset(e2) {
      SortedProjection(n1);
      SortedProjection(n2);
      PersistedOrder();
      EdgeOrderTotal(z.evidenceHash);
      ProjectionSeparates(z, n1, e1);
      SortCanonical(Map(n1, Persisted), Map(n2, Persisted), PersistedLe);
      SortCanonical(e1, e2, EdgeOrder(z.evidenceHash));
    }
  }

  lemma SwapChangesDigest(z: Serializer, m: Node, n: Node, rest: seq<Node>, edges: seq<Edge>)
    requires z.Lawful() && m.StableId() == n.StableId() && m.(language := "") != n.(language := "")
    ensures GraphDigest(z, [m, n] + rest, edges) != GraphDigest(z, [n, m] + rest, edges)
  {
    StrLeTotal(m.StableId(), n.StableId());
    ForgetsOnlyLanguage(m, n);
    PersistedOrder();
    NodeOrder();
    var a, b := SwapFirstTwo(m, n, rest, NodeLe);
    var p1, p2 := Map(a + [m, n] + b, Persisted), Map(a + [n, m] + b, Persisted);
    assert p1[|a|] == Persisted(m) && p2[|a|] == Persisted(n);
    if GraphDigest(z, [m, n] + rest, edges) == GraphDigest(z, [n, m] + rest, edges) {
      SameStreamSameRecords(z, [m, n] + rest, edges, [n, m] + rest, edges);
    }
  }

  lemma NodeOrder()
    ensures TotalPreorder(NodeLe)
  {
    forall a: Node, b: Node ensures NodeLe(a, b) || NodeLe(b, a) {
      StrLeTotal(a.StableId(), b.StableId());
    }
    forall a: Node, b: Node, c: Node | NodeLe(a, b) && NodeLe(b, c) ensures NodeLe(a, c) {
      StrLeTransitive(a.StableId(), b.StableId(), c.StableId());
    }
  }

  lemma SwappedFront<T>(m: T, n: T, rest: seq<T>)
    ensures multiset([m, n] + rest) == multiset([n, m] + rest)
  {
    assert [m, n] + rest == [m] + ([n] + rest) && [n, m] + rest == [n] + ([m] + rest);
  }

  /** Two members at different places can change places in front of all others. */
  lemma TwoOrders<T>(s: seq<T>, m: T, n: T) returns (rest: seq<T>)
    requires m in s && n in s && m != n
    ensures multiset([m, n] + rest) == multiset(s) && multiset([n, m] + rest) == multiset(s)
  {
    var i :| 0 <= i < |s| && s[i] == m;
    var j :| 0 <= j < |s| && s[j] == n;
    rest := BringToFront(s, if i < j then i else j, if i < j then j else i);
    SwappedFront(m, n, rest);
  }

  lemma CollisionRemembersOrder(z: Serializer, nodes: seq<Node>, edges: seq<Edge>)
    returns (first: seq<Node>, second: seq<Node>)
    requires z.Lawful() && !NodeIdsIdentify(nodes)
    ensures multiset(first) == multiset(nodes) && multiset(second) == multiset(nodes)
    ensures GraphDigest(z, first, edges) != GraphDigest(z, second, edges)
  {
    var m, n :| m in nodes && n in nodes && m.StableId() == n.StableId() && m.(language := "") != n.(language := "");
    var rest := TwoOrders(nodes, m, n);
    first, second := [m, n] + rest, [n, m] + rest;
    SwapChangesDigest(z, m, n, rest, edges);
  }

  lemma EdgeSwapChangesDigest(z: Serializer, nodes: seq<Node>, e: Edge, f: Edge, rest: seq<Edge>)
    requires z.Lawful() && e.StableId(z.evidenceHash) == f.StableId(z.evidenceHash) && e != f
    ensures GraphDigest(z, nodes, [e, f] + rest) != GraphDigest(z, nodes, [f, e] + rest)
  {
    var le := EdgeOrder(z.evidenceHash);
    StrLeTotal(e.StableId(z.evidenceHash), f.StableId(z.evidenceHash));
    EdgeOrderTotal(z.evidenceHash);
    var a, b := SwapFirstTwo(e, f, rest, le);
    assert (a + [e, f] + b)[|a|] == e && (a + [f, e] + b)[|a|] == f;
    if GraphDigest(z, nodes, [e, f] + rest) == GraphDigest(z, nodes, [f, e] + rest) {
      SameStreamSameRecords(z, nodes, [e, f] + rest, nodes, [f, e] + rest);
    }
  }

  /** Such edges: one edge before and after its confidence was revised. */
  lemma RevisedEdgeRemembersOrder(z: Serializer, nodes: seq<Node>, e: Edge, confidence: string)
    requires z.Lawful() && confidence != e.confidence
    ensures GraphDigest(z, nodes, [e, e.(confidence := confidence)]) != GraphDigest(z, nodes, [e.(confidence := confidence), e])
  {
    var revised := e.(confidence := confidence);
    EdgeSwapChangesDigest(z, nodes, e, revised, []);
    assert [e, revised] + [] == [e, revised] && [revised, e] + [] == [revised, e];
  }

  lemma EdgeCollisionRemembersOrder(z: Serializer, nodes: seq<Node>, edges: seq<Edge>)
    returns (first: seq<Edge>, second: seq<Edge>)
    requires z.Lawful() && !EdgeIdsIdentify(z, edges)
    ensures multiset(first) == multiset(edges) && multiset(second) == multiset(edges)
    ensures GraphDigest(z, nodes, first) != GraphDigest(z, nodes, second)
  {
    var e, f :| e in edges && f in edges && e.StableId(z.evidenceHash) == f.StableId(z.evidenceHash) && e != f;
    var rest := TwoOrders(edges, e, f);
    first, second := [e, f] + rest, [f, e] + rest;
    EdgeSwapChangesDigest(z, nodes, e, f, rest);
  }

  /** Every listing of these nodes and edges has the same digest. */
  ghost predicate OrderForgotten(z: Serializer, nodes: seq<Node>, edges: seq<Edge>) {
    forall n, e | multiset(n) == multiset(nodes) && multiset(e) == multiset(edges) ::
      GraphDigest(z, n, e) == GraphDigest(z, nodes, edges)
  }

  /** The digest forgets the order of nodes and edges exactly when no stable id is shared by two
      nodes that store different things, nor by two different edges. */
  lemma OrderForgottenExactly(z: Serializer, nodes: seq<Node>, edges: seq<Edge>)
    requires z.Lawful()
    ensures OrderForgotten(z, nodes, edges) <==> IdsIdentify(z, nodes, edges)
  {
    if !NodeIdsIdentify(nodes) {
      var first, second := CollisionRemembersOrder(z, nodes, edges);
      assert GraphDigest(z, first, edges) != GraphDigest(z, nodes, edges)
          || GraphDigest(z, second, edges) != GraphDigest(z, nodes, edges);
    } else if !EdgeIdsIdentify(z, edges) {
      var first, second := EdgeCollisionRemembersOrder(z, nodes, edges);
      assert GraphDigest(z, nodes, first) != GraphDigest(z, nodes, edges)
          || GraphDigest(z, nodes, second) != GraphDigest(z, nodes, edges);
    } else {
      forall n, e | multiset(n) == multiset(nodes) && multiset(e) == multiset(edges)
        ensures GraphDigest(z, n, e) == GraphDigest(z, nodes, edges)
      {
        MapPermutation(n, nodes, WithoutLanguage);
        SnapshotIdentity(z, nodes, edges, n, e);
      }
    }
  }
}

/** The one-pass index of persisted LSP results, against the filter it replaces. */
module PersistedIndex {
  import opened Wrappers
  import opened Sorting
  import opened Text
  import opened Totals
  import opened RepoPath
  import opened ReportModel
  import opened GraphModel

  // ---- the naive per-path filter ----

  predicate LspNodeAt(path: string, n: Node) {
    n.source == Lsp && Normalized(n.id.file) == Ok(path)
  }

  predicate LspEdgeAt(path: string, e: Edge) {
    e.source == Lsp && (Normalized(e.from.file) == Ok(path) || Normalized(e.to.file) == Ok(path))
  }

  function NodeTest(path: string, kind: string): Node -> bool {
    n => LspNodeAt(path, n) && n.id.kind == OtherKind(kind)
  }

  function EdgeTest(path: string, kind: EdgeKind): Edge -> bool {
    e => LspEdgeAt(path, e) && e.kind == kind
  }

  /** The ids of all LSP nodes in the graph. */
  function LspNodeIds(nodes: seq<Node>): set<string> {
    set n | n in nodes && n.source == Lsp :: n.StableId()
  }

  /** The endpoints of an edge that are themselves persisted LSP nodes. */
  function PersistedEndpoints(e: Edge, ids: set<string>): set<string> {
    {e.from.ToStableId(), e.to.ToStableId()} * ids
  }

  function NodeProvenance(path: string, nodes: seq<Node>): set<string> {
    set n | n in nodes && LspNodeAt(path, n) :: n.StableId()
  }

  function EdgeProvenance(path: string, edges: seq<Edge>, ids: set<string>, h: seq<string> -> string): set<string> {
    if edges == [] then {}
    else
      var n := |edges| - 1;
      EdgeProvenance(path, edges[..n], ids, h)
      + if LspEdgeAt(path, edges[n]) then {edges[n].StableId(h)} + PersistedEndpoints(edges[n], ids) else {}
  }

  const SYMBOL := "lsp_document_symbol"
  const DIAGNOSTIC := "diagnostic"

  /** What `persisted_results_for_path` says about one path, by filtering the whole graph. */
  function Naive(path: string, nodes: seq<Node>, edges: seq<Edge>, ids: set<string>, h: seq<string> -> string)
    : PersistedResults
  {
    PersistedResults(
      |Filter(nodes, NodeTest(path, SYMBOL))|,
      |Filter(edges, EdgeTest(path, Implements))|,
      |Filter(edges, EdgeTest(path, ReferencedBy))|,
      |Filter(edges, EdgeTest(path, Calls))|,
      |Filter(edges, EdgeTest(path, DependsOn))|,
      |Filter(nodes, NodeTest(path, DIAGNOSTIC))|,
      NodeProvenance(path, nodes) + EdgeProvenance(path, edges, ids, h))
  }

  // ---- the accumulating pass ----

  function At(index: map<string, PersistedResults>, path: string): PersistedResults {
    if path in index then index[path] else NO_RESULTS
  }

  function AddNode(r: PersistedResults, n: Node): PersistedResults {
    var r' := r.(provenance := r.provenance + {n.StableId()});
    if n.id.kind == OtherKind(SYMBOL) then r'.(documentSymbols := r.documentSymbols + 1)
    else if n.id.kind == OtherKind(DIAGNOSTIC) then r'.(diagnostics := r.diagnostics + 1)
    else r'
  }

  function AddEdge(r: PersistedResults, e: Edge, ids: set<string>, h: seq<string> -> string): PersistedResults {
    var r' := r.(provenance := r.provenance + ({e.StableId(h)} + PersistedEndpoints(e, ids)));
    match e.kind
    case Calls => r'.(callHierarchyEdges := r.callHierarchyEdges + 1)
    case ReferencedBy => r'.(references := r.references + 1)
    case Implements => r'.(definitions := r.definitions + 1)
    case DependsOn => r'.(documentLinks := r.documentLinks + 1)
    case Uncounted(_) => r'
  }

  function ValidPath(file: string): seq<string> {
    match Normalized(file)
    case Ok(p) => [p]
    case Err(_) => []
  }

  /** The distinct endpoint paths of an edge, sorted. */
  function EndpointPaths(e: Edge): seq<string> {
    Dedup(Sort(ValidPath(e.from.file) + ValidPath(e.to.file), StrLe))
  }

  lemma DedupOfTwo(t: seq<string>)
    requires |t| <= 2
    ensures Distinct(Dedup(t))
  {
    if |t| == 2 {
      assert |t[1..]| == 1;
      assert Dedup(t[1..]) == t[1..];
    }
  }

  lemma DistinctOfTwo(all: seq<string>)
    requires |all| <= 2
    ensures var d := Dedup(Sort(all, StrLe)); Distinct(d) && |d| <= 2 && forall p :: p in d <==> p in all
  {
    SortPermutes(all, StrLe);
    SameElements(all, Sort(all, StrLe));
    DedupBasics(Sort(all, StrLe));
    DedupOfTwo(Sort(all, StrLe));
  }

  lemma EndpointPathsAre(e: Edge)
    ensures Distinct(EndpointPaths(e)) && |EndpointPaths(e)| <= 2
    ensures forall p :: p in EndpointPaths(e) <==> Normalized(e.from.file) == Ok(p) || Normalized(e.to.file) == Ok(p)
  {
    DistinctOfTwo(ValidPath(e.from.file) + ValidPath(e.to.file));
  }

  lemma NodeStep(path: string, nodes: seq<Node>, i: nat, ids: set<string>, h: seq<string> -> string)
    requires i < |nodes|
    ensures var before := Naive(path, nodes[..i], [], ids, h);
            Naive(path, nodes[..i + 1], [], ids, h) == if LspNodeAt(path, nodes[i]) then AddNode(before, nodes[i]) else before
  {
    assert nodes[..i + 1][..i] == nodes[..i];
    assert nodes[..i + 1] == nodes[..i] + [nodes[i]];
    assert OtherKind(SYMBOL) != OtherKind(DIAGNOSTIC) by {
      assert |SYMBOL| != |DIAGNOSTIC|;
    }
    assert NodeProvenance(path, nodes[..i + 1])
        == NodeProvenance(path, nodes[..i]) + if LspNodeAt(path, nodes[i]) then {nodes[i].StableId()} else {};
  }

  lemma EdgeStep(path: string, nodes: seq<Node>, edges: seq<Edge>, i: nat, ids: set<string>, h: seq<string> -> string)
    requires i < |edges|
    ensures var before := Naive(path, nodes, edges[..i], ids, h);
            Naive(path, nodes, edges[..i + 1], ids, h) == if LspEdgeAt(path, edges[i]) then AddEdge(before, edges[i], ids, h) else before
  {
    assert edges[..i + 1][..i] == edges[..i];
  }

  function WithNode(index: map<string, PersistedResults>, n: Node): map<string, PersistedResults> {
    if n.source == Lsp && Normalized(n.id.file).Ok?
    then var path := Normalized(n.id.file).value; index[path := AddNode(At(index, path), n)]
    else index
  }

  lemma NodeStepAt(p: string, index: map<string, PersistedResults>, nodes: seq<Node>, i: nat, ids: set<string>, h: seq<string> -> string)
    requires i < |nodes| && At(index, p) == Naive(p, nodes[..i], [], ids, h)
    ensures At(WithNode(index, nodes[i]), p) == Naive(p, nodes[..i + 1], [], ids, h)
  {
    NodeStep(p, nodes, i, ids, h);
  }

  ghost predicate Touched(path: string, nodes: seq<Node>, edges: seq<Edge>) {
    || (exists n | n in nodes :: LspNodeAt(path, n))
    || (exists e | e in edges :: LspEdgeAt(path, e))
  }

  lemma NodeTouches(p: string, nodes: seq<Node>, i: nat)
    requires i < |nodes|
    ensures Touched(p, nodes[..i + 1], []) <==> Touched(p, nodes[..i], []) || LspNodeAt(p, nodes[i])
  {
    assert nodes[..i + 1] == nodes[..i] + [nodes[i]];
  }

  method IndexLspNodes(nodes: seq<Node>, ghost ids: set<string>, ghost h: seq<string> -> string)
    returns (index: map<string, PersistedResults>)
    ensures forall p :: At(index, p) == Naive(p, nodes, [], ids, h)
    ensures forall p :: p in index <==> Touched(p, nodes, [])
  {
    index := map[];
    for i := 0 to |nodes|
      invariant forall p :: At(index, p) == Naive(p, nodes[..i], [], ids, h)
      invariant forall p :: p in index <==> Touched(p, nodes[..i], [])
    {
      forall p ensures At(WithNode(index, nodes[i]), p) == Naive(p, nodes[..i + 1], [], ids, h) {
        NodeStepAt(p, index, nodes, i, ids, h);
      }
      forall p ensures p in WithNode(index, nodes[i]) <==> Touched(p, nodes[..i + 1], []) {
        NodeTouches(p, nodes, i);
      }
      index := WithNode(index, nodes[i]);
    }
    assert nodes[..|nodes|] == nodes;
  }

  method AddEdgeAt(index0: map<string, PersistedResults>, paths: seq<string>, e: Edge, ids: set<string>, h: seq<string> -> string)
    returns (index: map<string, PersistedResults>)
    requires Distinct(paths)
    ensures forall p :: At(index, p) == if p in paths then AddEdge(At(index0, p), e, ids, h) else At(index0, p)
    ensures forall p :: p in index <==> p in index0 || p in paths
  {
    index := index0;
    for k := 0 to |paths|
      invariant forall p :: At(index, p) == if p in paths[..k] then AddEdge(At(index0, p), e, ids, h) else At(index0, p)
      invariant forall p :: p in index <==> p in index0 || p in paths[..k]
    {
      assert paths[k] !in paths[..k];
      assert paths[..k + 1] == paths[..k] + [paths[k]];
      index := index[paths[k] := AddEdge(At(index, paths[k]), e, ids, h)];
    }
    assert paths[..|paths|] == paths;
  }

  /** The index agrees with the naive filter for every path, and has an entry exactly for the
      paths LSP results touch. */
  ghost predicate Indexes(index: map<string, PersistedResults>, nodes: seq<Node>, edges: seq<Edge>,
                          ids: set<string>, h: seq<string> -> string) {
    && (forall p :: At(index, p) == Naive(p, nodes, edges, ids, h))
    && (forall p :: p in index <==> Touched(p, nodes, edges))
  }

  lemma EdgeTouches(p: string, nodes: seq<Node>, edges: seq<Edge>, i: nat)
    requires i < |edges|
    ensures Touched(p, nodes, edges[..i + 1]) <==> Touched(p, nodes, edges[..i]) || LspEdgeAt(p, edges[i])
  {
    assert edges[..i + 1] == edges[..i] + [edges[i]];
  }

  /** Booking one more edge at its endpoint paths keeps the agreement. */
  lemma EdgeBooked(index: map<string, PersistedResults>, index': map<string, PersistedResults>, nodes: seq<Node>,
                   edges: seq<Edge>, i: nat, ids: set<string>, h: seq<string> -> string)
    requires i < |edges| && Indexes(index, nodes, edges[..i], ids, h)
    requires forall p :: At(index', p) == if LspEdgeAt(p, edges[i]) then AddEdge(At(index, p), edges[i], ids, h) else At(index, p)
    requires forall p :: p in index' <==> p in index || LspEdgeAt(p, edges[i])
    ensures Indexes(index', nodes, edges[..i + 1], ids, h)
  {
    forall p
      ensures At(index', p) == Naive(p, nodes, edges[..i + 1], ids, h)
      ensures p in index' <==> Touched(p, nodes, edges[..i + 1])
    {
      EdgeStep(p, nodes, edges, i, ids, h);
      EdgeTouches(p, nodes, edges, i);
    }
  }

  method IndexEdge(index0: map<string, PersistedResults>, e: Edge, ids: set<string>, h: seq<string> -> string)
    returns (index: map<string, PersistedResults>)
    ensures forall p :: At(index, p) == if LspEdgeAt(p, e) then AddEdge(At(index0, p), e, ids, h) else At(index0, p)
    ensures forall p :: p in index <==> p in index0 || LspEdgeAt(p, e)
  {
    index := index0;
    if e.source == Lsp {
      EndpointPathsAre(e);
      index := AddEdgeAt(index0, EndpointPaths(e), e, ids, h);
    }
  }

  /** One pass over nodes and edges gives every path what filtering the graph for it gives:
      counts and provenance, and an entry exactly for the paths LSP results touch. */
  method PersistedResultsByPath(nodes: seq<Node>, edges: seq<Edge>, h: seq<string> -> string)
    returns (index: map<string, PersistedResults>)
    ensures Indexes(index, nodes, edges, LspNodeIds(nodes), h)
  {
    var ids := LspNodeIds(nodes);
    index := IndexLspNodes(nodes, ids, h);
    assert edges[..0] == [];
    for i := 0 to |edges|
      invariant Indexes(index, nodes, edges[..i], ids, h)
    {
      var booked := IndexEdge(index, edges[i], ids, h);
      EdgeBooked(index, booked, nodes, edges, i, ids, h);
      index := booked;
    }
    assert edges[..|edges|] == edges;
  }

  // ---- conservation of edge counts ----

  function EdgeCount(r: PersistedResults): nat {
    r.callHierarchyEdges + r.references + r.definitions + r.documentLinks
  }

  /** What the edges contribute in all: one for each distinct endpoint path of each LSP edge of
      a counted kind. */
  function Contribution(e: Edge): nat {
    if e.source == Lsp && !e.kind.Uncounted? then |EndpointPaths(e)| else 0
  }

  function Contributions(edges: seq<Edge>): nat {
    if edges == [] then 0 else var n := |edges| - 1; Contributions(edges[..n]) + Contribution(edges[n])
  }

  /** The edge count of every path that LSP results touch. */
  ghost function EdgeCounts(paths: set<string>, nodes: seq<Node>, edges: seq<Edge>, ids: set<string>, h: seq<string> -> string)
    : map<string, nat>
  {
    map p | p in paths :: EdgeCount(Naive(p, nodes, edges, ids, h))
  }

  function AddAt(m: map<string, nat>, paths: seq<string>, amount: nat): map<string, nat>
    decreases |paths|
  {
    if paths == [] then m
    else AddAt(m[paths[0] := Get(m, paths[0]) + amount], paths[1..], amount)
  }

  lemma {:induction false} AddAtTotal(m: map<string, nat>, paths: seq<string>, amount: nat)
    ensures Total(AddAt(m, paths, amount)) == Total(m) + |paths| * amount
    decreases |paths|
  {
    if paths != [] {
      TotalAdd(m, paths[0], amount);
      AddAtTotal(m[paths[0] := Get(m, paths[0]) + amount], paths[1..], amount);
      assert |paths| * amount == amount + (|paths| - 1) * amount;
    }
  }

  lemma {:induction false} AddAtIs(m: map<string, nat>, paths: seq<string>, amount: nat)
    requires Distinct(paths) && forall p | p in paths :: p in m
    ensures AddAt(m, paths, amount).Keys == m.Keys
    ensures forall p | p in m :: AddAt(m, paths, amount)[p] == m[p] + if p in paths then amount else 0
    decreases |paths|
  {
    if paths != [] {
      var m' := m[paths[0] := Get(m, paths[0]) + amount];
      assert paths[0] in paths && forall p | p in paths[1..] :: p in paths;
      assert paths == [paths[0]] + paths[1..];
      assert paths[0] !in paths[1..];
      AddAtIs(m', paths[1..], amount);
      assert m'.Keys == m.Keys;
    }
  }

  lemma EdgeCountStep(path: string, nodes: seq<Node>, edges: seq<Edge>, ids: set<string>, h: seq<string> -> string)
    requires edges != []
    ensures var e := edges[|edges| - 1];
            EdgeCount(Naive(path, nodes, edges, ids, h))
            == EdgeCount(Naive(path, nodes, edges[..|edges| - 1], ids, h))
               + if LspEdgeAt(path, e) && !e.kind.Uncounted? then 1 else 0
  {
    var n := |edges| - 1;
    assert edges[..n + 1] == edges;
    EdgeStep(path, nodes, edges, n, ids, h);
  }

  lemma BumpedTotal(before: map<string, nat>, after: map<string, nat>, paths: seq<string>)
    requires before.Keys == after.Keys && Distinct(paths) && forall p | p in paths :: p in before
    requires forall p | p in before :: after[p] == before[p] + if p in paths then 1 else 0
    ensures Total(after) == Total(before) + |paths|
  {
    AddAtIs(before, paths, 1);
    AddAtTotal(before, paths, 1);
    assert after == AddAt(before, paths, 1);
  }

  lemma CountsStep(paths: set<string>, nodes: seq<Node>, edges: seq<Edge>, ids: set<string>, h: seq<string> -> string)
    requires edges != [] && forall p | LspEdgeAt(p, edges[|edges| - 1]) :: p in paths
    ensures Total(EdgeCounts(paths, nodes, edges, ids, h))
            == Total(EdgeCounts(paths, nodes, edges[..|edges| - 1], ids, h)) + Contribution(edges[|edges| - 1])
  {
    var n := |edges| - 1;
    var e := edges[n];
    var counted := if e.source == Lsp && !e.kind.Uncounted? then EndpointPaths(e) else [];
    EndpointPathsAre(e);
    assert forall p :: p in counted <==> LspEdgeAt(p, e) && !e.kind.Uncounted?;
    var before := EdgeCounts(paths, nodes, edges[..n], ids, h);
    var after := EdgeCounts(paths, nodes, edges, ids, h);
    forall p | p in paths ensures after[p] == before[p] + if p in counted then 1 else 0 {
      EdgeCountStep(p, nodes, edges, ids, h);
    }
    BumpedTotal(before, after, counted);
  }

  lemma {:induction false} CountsConserved(
      paths: set<string>, nodes: seq<Node>, edges: seq<Edge>, ids: set<string>, h: seq<string> -> string)
    requires forall e, p | e in edges && LspEdgeAt(p, e) :: p in paths
    ensures Total(EdgeCounts(paths, nodes, edges, ids, h)) == Contributions(edges)
  {
    if edges == [] {
      ZeroTotal(EdgeCounts(paths, nodes, edges, ids, h));
    } else {
      var n := |edges| - 1;
      assert edges[n] in edges && forall f | f in edges[..n] :: f in edges;
      CountsConserved(paths, nodes, edges[..n], ids, h);
      CountsStep(paths, nodes, edges, ids, h);
    }
  }

  lemma {:induction false} ZeroTotal(m: map<string, nat>)
    requires forall p | p in m :: m[p] == 0
    ensures Total(m) == 0
    decreases |m|
  {
    if m != map[] {
      var p :| p in m;
      TotalTakeOut(m, p);
      ZeroTotal(m - {p});
    }
  }

  function IndexedEdgeCounts(index: map<string, PersistedResults>): map<string, nat> {
    map p | p in index :: EdgeCount(index[p])
  }

  lemma IndexedCounts(index: map<string, PersistedResults>, nodes: seq<Node>, edges: seq<Edge>, ids: set<string>, h: seq<string> -> string)
    requires forall p :: At(index, p) == Naive(p, nodes, edges, ids, h)
    ensures IndexedEdgeCounts(index) == EdgeCounts(index.Keys, nodes, edges, ids, h)
  {
    forall p | p in index ensures EdgeCount(index[p]) == EdgeCount(Naive(p, nodes, edges, ids, h)) {
      assert At(index, p) == index[p];
    }
  }

  /** Nothing is lost and nothing counted twice: the edge counts in the index add up to the
      number of distinct endpoint paths of the counted LSP edges. */
  lemma IndexConservesEdges(index: map<string, PersistedResults>, nodes: seq<Node>, edges: seq<Edge>, h: seq<string> -> string)
    requires Indexes(index, nodes, edges, LspNodeIds(nodes), h)
    ensures Total(IndexedEdgeCounts(index)) == Contributions(edges)
  {
    IndexedCounts(index, nodes, edges, LspNodeIds(nodes), h);
    forall e, p | e in edges && LspEdgeAt(p, e) ensures p in index.Keys {
      assert Touched(p, nodes, edges);
    }
    CountsConserved(index.Keys, nodes, edges, LspNodeIds(nodes), h);
  }
}

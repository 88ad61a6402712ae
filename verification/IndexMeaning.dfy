/** What the index of persisted results says about a path: numbers of nodes and edges of the graph,
    and the ids of everything that was counted. */
module IndexMeaning {
  import opened Wrappers
  import opened Sorting
  import opened RepoPath
  import opened ReportModel
  import opened GraphModel
  import opened PersistedIndex

  /** A node that a language server found in this file. */
  predicate FoundIn(path: string, n: Node) {
    n.source == Lsp && Normalized(n.id.file) == Ok(path)
  }

  /** An edge that a language server found, from or to this file. */
  predicate Touches(path: string, e: Edge) {
    && e.source == Lsp
    && (Normalized(e.from.file) == Ok(path) || Normalized(e.to.file) == Ok(path))
  }

  function NodesOfKind(path: string, kind: string): Node -> bool {
    (n: Node) => FoundIn(path, n) && n.id.kind == OtherKind(kind)
  }

  function EdgesOfKind(path: string, kind: EdgeKind): Edge -> bool {
    (e: Edge) => Touches(path, e) && e.kind == kind
  }

  /** An endpoint that is itself a node a language server found. */
  predicate FoundEndpoint(nodes: seq<Node>, e: Edge, id: string) {
    && id in {e.from.ToStableId(), e.to.ToStableId()}
    && exists n | n in nodes :: n.source == Lsp && n.StableId() == id
  }

  /** The six numbers and the ids for one path. */
  ghost predicate Tells(r: PersistedResults, path: string, nodes: seq<Node>, edges: seq<Edge>, h: seq<string> -> string) {
    && r.documentSymbols == |Filter(nodes, NodesOfKind(path, "lsp_document_symbol"))|
    && r.diagnostics == |Filter(nodes, NodesOfKind(path, "diagnostic"))|
    && r.definitions == |Filter(edges, EdgesOfKind(path, Implements))|
    && r.references == |Filter(edges, EdgesOfKind(path, ReferencedBy))|
    && r.callHierarchyEdges == |Filter(edges, EdgesOfKind(path, Calls))|
    && r.documentLinks == |Filter(edges, EdgesOfKind(path, DependsOn))|
    && forall id :: id in r.provenance <==>
         || (exists n | n in nodes :: FoundIn(path, n) && n.StableId() == id)
         || (exists e | e in edges :: Touches(path, e) && (e.StableId(h) == id || FoundEndpoint(nodes, e, id)))
  }

  lemma {:induction false} SameFilter<T>(s: seq<T>, p: T -> bool, q: T -> bool)
    requires forall x | x in s :: p(x) <==> q(x)
    ensures Filter(s, p) == Filter(s, q)
  {
    if s != [] {
      var n := |s| - 1;
      assert s[n] in s && forall x | x in s[..n] :: x in s;
      SameFilter(s[..n], p, q);
    }
  }

  lemma {:induction false} EdgeProvenanceMeans(path: string, nodes: seq<Node>, edges: seq<Edge>, h: seq<string> -> string, id: string)
    ensures id in EdgeProvenance(path, edges, LspNodeIds(nodes), h) <==>
            exists e | e in edges :: Touches(path, e) && (e.StableId(h) == id || FoundEndpoint(nodes, e, id))
  {
    if edges != [] {
      var n := |edges| - 1;
      EdgeProvenanceMeans(path, nodes, edges[..n], h, id);
      assert edges == edges[..n] + [edges[n]];
      assert id in PersistedEndpoints(edges[n], LspNodeIds(nodes)) <==> FoundEndpoint(nodes, edges[n], id);
    }
  }

  lemma NaiveTells(path: string, nodes: seq<Node>, edges: seq<Edge>, h: seq<string> -> string)
    ensures Tells(Naive(path, nodes, edges, LspNodeIds(nodes), h), path, nodes, edges, h)
  {
    SameFilter(nodes, NodeTest(path, SYMBOL), NodesOfKind(path, "lsp_document_symbol"));
    SameFilter(nodes, NodeTest(path, DIAGNOSTIC), NodesOfKind(path, "diagnostic"));
    SameFilter(edges, EdgeTest(path, Implements), EdgesOfKind(path, Implements));
    SameFilter(edges, EdgeTest(path, ReferencedBy), EdgesOfKind(path, ReferencedBy));
    SameFilter(edges, EdgeTest(path, Calls), EdgesOfKind(path, Calls));
    SameFilter(edges, EdgeTest(path, DependsOn), EdgesOfKind(path, DependsOn));
    var r := Naive(path, nodes, edges, LspNodeIds(nodes), h);
    forall id ensures id in r.provenance <==>
      || (exists n | n in nodes :: FoundIn(path, n) && n.StableId() == id)
      || (exists e | e in edges :: Touches(path, e) && (e.StableId(h) == id || FoundEndpoint(nodes, e, id)))
    {
      EdgeProvenanceMeans(path, nodes, edges, h, id);
    }
  }

  /** The index has an entry exactly for the paths that a language server found anything in, and the
      entry tells what there is; every other path has nothing. */
  lemma IndexMeans(index: map<string, PersistedResults>, nodes: seq<Node>, edges: seq<Edge>, h: seq<string> -> string, path: string)
    requires Indexes(index, nodes, edges, LspNodeIds(nodes), h)
    ensures path in index <==> (exists n | n in nodes :: FoundIn(path, n)) || (exists e | e in edges :: Touches(path, e))
    ensures path in index ==> Tells(index[path], path, nodes, edges, h)
    ensures path !in index ==> Tells(PersistedResults(0, 0, 0, 0, 0, 0, {}), path, nodes, edges, h)
  {
    NaiveTells(path, nodes, edges, h);
    assert At(index, path) == Naive(path, nodes, edges, LspNodeIds(nodes), h);
    assert Touched(path, nodes, edges) <==>
      (exists n | n in nodes :: FoundIn(path, n)) || (exists e | e in edges :: Touches(path, e)) by {
      assert forall n :: LspNodeAt(path, n) <==> FoundIn(path, n);
      assert forall e :: LspEdgeAt(path, e) <==> Touches(path, e);
    }
  }

  // ---- conservation ----

  /** One edge is counted at its two endpoint files, or once if they are the same file. */
  lemma ContributionMeans(e: Edge)
    ensures Contribution(e) ==
            if e.source != Lsp || e.kind.Uncounted? then 0
            else if Normalized(e.from.file).Err? && Normalized(e.to.file).Err? then 0
            else if Normalized(e.from.file).Err? || Normalized(e.to.file).Err? || Normalized(e.from.file) == Normalized(e.to.file) then 1
            else 2
  {
    EndpointPathsAre(e);
    var paths := EndpointPaths(e);
    assert SetOf(paths) == set p | p in paths;
    SetSize(paths);
    match (Normalized(e.from.file), Normalized(e.to.file))
    case (Ok(a), Ok(b)) => assert SetOf(paths) == {a, b};
    case (Ok(a), Err(_)) => assert SetOf(paths) == {a};
    case (Err(_), Ok(b)) => assert SetOf(paths) == {b};
    case (Err(_), Err(_)) => assert SetOf(paths) == {};
  }
}

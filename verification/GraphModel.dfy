/** The parts of the code graph that readiness evidence looks at. */
module GraphModel {
  datatype ExtractionSource = TreeSitter | Lsp | Schema | Git | Markdown

  /** A built-in kind, or the open one; both print as their label. */
  datatype NodeKind = Builtin(text: string) | OtherKind(text: string)

  datatype NodeId = NodeId(root: string, file: string, name: string, kind: NodeKind)
  {
    function ToStableId(): string {
      root + ":" + file + ":" + name + ":" + kind.text
    }
  }

  datatype Node = Node(
    id: NodeId,
    language: string,
    lineStart: nat,
    lineEnd: nat,
    signature: string,
    body: string,
    metadata: map<string, string>,
    source: ExtractionSource)
  {
    function StableId(): string {
      id.ToStableId()
    }
  }

  /** The four kinds LSP evidence counts; every other kind by its label. */
  datatype EdgeKind = Calls | ReferencedBy | Implements | DependsOn | Uncounted(text: string)
  {
    function Label(): string {
      match this
      case Calls => "calls"
      case ReferencedBy => "referenced_by"
      case Implements => "implements"
      case DependsOn => "depends_on"
      case Uncounted(text) => text
    }
  }

  datatype Edge = Edge(
    from: NodeId,
    to: NodeId,
    kind: EdgeKind,
    source: ExtractionSource,
    confidence: string,
    evidence: seq<string>)
  {
    /** `evidenceHash` stands for the length-prefixed hash of the evidence identity. */
    function StableId(evidenceHash: seq<string> -> string): string {
      var base := from.ToStableId() + "->" + kind.Label() + "->" + to.ToStableId();
      if evidence == [] then base else base + "->evidence:" + evidenceHash(evidence)
    }
  }
}

/** The judging passes over a report's files and evidence, and the declarative readiness
    predicate they decide. */
module Evaluation {
  import opened Wrappers
  import opened Sorting
  import opened Text
  import opened RepoPath
  import opened ReportModel

  // ---- evaluate_files ----

  predicate AbsentOrBlank(s: Option<string>) {
    s.None? || Blank(s.value)
  }

  function RequiredCapability(method_: string): Option<string> {
    if method_ == "textDocument/documentSymbol" then Some("documentSymbolProvider")
    else if method_ == "textDocument/documentLink" then Some("documentLinkProvider")
    else if method_ == "textDocument/definition" then Some("definitionProvider")
    else if method_ == "textDocument/references" then Some("referencesProvider")
    else if method_ == "textDocument/implementation" then Some("implementationProvider")
    else if method_ == "textDocument/prepareCallHierarchy+callHierarchy/*" then Some("callHierarchyProvider")
    else None
  }

  predicate CanProduce(method_: string, kind: ResultKind) {
    match kind
    case DocumentSymbol => method_ == "textDocument/documentSymbol"
    case Definition =>
      || method_ == "textDocument/definition"
      || method_ == "textDocument/implementation"
      || method_ == "textDocument/prepareTypeHierarchy+typeHierarchy/*"
    case Reference => method_ == "textDocument/references"
    case CallHierarchy =>
      || method_ == "textDocument/references"
      || method_ == "textDocument/prepareCallHierarchy+callHierarchy/*"
    case DocumentLink => method_ == "textDocument/documentLink"
    case Diagnostic => method_ == "textDocument/diagnostic"
  }

  predicate Negotiated(file: FileRecord, name: string) {
    Capability(name, true) in file.capabilities
  }

  predicate SomeCapability(file: FileRecord) {
    exists c | c in file.capabilities :: c.supported
  }

  /** The capability a request needs was negotiated. */
  predicate RequestCovered(file: FileRecord, request: RequestAttempt) {
    RequiredCapability(request.method_).Some? ==> Negotiated(file, RequiredCapability(request.method_).value)
  }

  predicate HasCompletedProducer(file: FileRecord, kind: ResultKind) {
    exists r | r in file.requests :: r.outcome == Completed && CanProduce(r.method_, kind)
  }

  function RequestViolation(file: FileRecord, path: string, request: RequestAttempt): (violations: seq<Violation>)
    ensures violations == [] <==> RequestCovered(file, request)
  {
    if RequestCovered(file, request) then []
    else [Violation(MissingAdvertisedCapabilities, Some(path), RequestNeeds(request.method_, RequiredCapability(request.method_).value))]
  }

  function RequestViolations(file: FileRecord, path: string, requests: seq<RequestAttempt>): seq<Violation> {
    if requests == [] then [] else RequestViolation(file, path, requests[0]) + RequestViolations(file, path, requests[1..])
  }

  function ProducerViolations(file: FileRecord, path: string, kinds: seq<ResultKind>): seq<Violation> {
    if kinds == [] then []
    else
      (if kinds[0] !in file.expectedResults || HasCompletedProducer(file, kinds[0]) then []
       else [Violation(MissingRequestEvidence, Some(path), NoCompletedRequest(kinds[0]))])
      + ProducerViolations(file, path, kinds[1..])
  }

  function PersistenceViolations(file: FileRecord, path: string, kinds: seq<ResultKind>): seq<Violation> {
    if kinds == [] then []
    else
      (if kinds[0] !in file.expectedResults || file.persisted.Count(kinds[0]) != 0 then []
       else [Violation(MissingExpectedResult, Some(path), NothingPersisted(kinds[0]))])
      + PersistenceViolations(file, path, kinds[1..])
  }

  /** `expected_result_ids.difference(&provenance)`, in iteration order. */
  ghost function MissingIds(file: FileRecord): (ids: seq<string>)
    ensures ids == [] <==> file.expectedResultIds <= file.persisted.provenance
  {
    StrLeIsOrder();
    var missing := file.expectedResultIds - file.persisted.provenance;
    DifferenceEmpty(file.expectedResultIds, file.persisted.provenance);
    AscendingIs(missing, StrLe);
    Ascending(missing, StrLe)
  }

  function IdViolations(path: string, ids: seq<string>): (violations: seq<Violation>)
    ensures |violations| == |ids|
  {
    if ids == [] then []
    else [Violation(MissingExpectedResult, Some(path), IdNotPersisted(ids[0]))] + IdViolations(path, ids[1..])
  }

  function PresenceViolations(file: FileRecord, path: string): seq<Violation> {
    (if SomeCapability(file) then []
     else [Violation(MissingAdvertisedCapabilities, Some(path), NoSupportedCapability)])
    + (if file.requests != [] then []
       else [Violation(MissingRequestEvidence, Some(path), NoRequestEvidence)])
  }

  ghost function ProcessedViolations(file: FileRecord, path: string): seq<Violation> {
    PresenceViolations(file, path)
    + RequestViolations(file, path, file.requests)
    + ProducerViolations(file, path, ALL_KINDS)
    + PersistenceViolations(file, path, ALL_KINDS)
    + IdViolations(path, MissingIds(file))
  }

  function ServerViolations(server: ServerIdentity, path: string): seq<Violation> {
    (if AbsentOrBlank(server.version)
     then [Violation(MissingServerVersion, Some(path), NoLockedVersion(server.name))] else [])
    + (if AbsentOrBlank(server.executableDigest)
       then [Violation(MissingServerDigest, Some(path), NoExecutableDigest(server.name))] else [])
  }

  /** What the pass reports about one file whose path normalises to `path`. */
  ghost function RoleViolations(file: FileRecord, path: string): seq<Violation> {
    if !file.role.IsIncluded() then
      if file.exclusion.None? || Blank(file.exclusion.value.detail)
      then [Violation(MissingExclusionReason, Some(path), NoExclusionReason)]
      else []
    else
      match file.expectedServer
      case None =>
        [Violation(if file.terminalStatus.UnsupportedExtension? then UnsupportedRelevantExtension else MissingServer,
                   Some(path), NoLockedServer)]
      case Some(server) =>
        ServerViolations(server, path)
        + if !file.terminalStatus.Processed? then
            [Violation(if file.terminalStatus.UnsupportedExtension? then UnsupportedRelevantExtension else NotProcessed,
                       Some(path), EndedWith(file.terminalStatus))]
          else ProcessedViolations(file, path)
  }

  ghost function FileViolations(file: FileRecord, seen: set<string>): seq<Violation> {
    match Normalized(file.path)
    case Err(e) => [Violation(InvalidPath, Some(file.path), PathRejected(e))]
    case Ok(path) =>
      (if path in seen then [Violation(DuplicatePath, Some(path), AppearsTwice)] else [])
      + RoleViolations(file, path)
  }

  /** The normalised paths of the files with a valid path. */
  function SeenPaths(files: seq<FileRecord>): set<string> {
    set file | file in files && Normalized(file.path).Ok? :: Normalized(file.path).value
  }

  ghost function FilesViolations(files: seq<FileRecord>): seq<Violation> {
    if files == [] then []
    else
      var n := |files| - 1;
      FilesViolations(files[..n]) + FileViolations(files[n], SeenPaths(files[..n]))
  }

  // ---- the accumulating loops ----

  method RequestCheck(file: FileRecord, path: string, request: RequestAttempt) returns (violations: seq<Violation>)
    ensures violations == RequestViolation(file, path, request)
  {
    violations := [];
    var capability := RequiredCapability(request.method_);
    if capability.Some? && !Negotiated(file, capability.value) {
      violations := [Violation(MissingAdvertisedCapabilities, Some(path), RequestNeeds(request.method_, capability.value))];
    }
  }

  method RequestPass(file: FileRecord, path: string) returns (violations: seq<Violation>)
    ensures violations == RequestViolations(file, path, file.requests)
  {
    violations := [];
    for i := 0 to |file.requests|
      invariant violations + RequestViolations(file, path, file.requests[i..]) == RequestViolations(file, path, file.requests)
    {
      assert file.requests[i..][0] == file.requests[i] && file.requests[i..][1..] == file.requests[i + 1..];
      var found := RequestCheck(file, path, file.requests[i]);
      violations := violations + found;
    }
  }

  method MissingIdList(file: FileRecord) returns (ids: seq<string>)
    ensures ids == MissingIds(file)
  {
    StrLeIsOrder();
    ids := AscendingList(file.expectedResultIds - file.persisted.provenance, StrLe);
  }

  method IdPass(path: string, ids: seq<string>) returns (violations: seq<Violation>)
    ensures violations == IdViolations(path, ids)
  {
    violations := [];
    for i := 0 to |ids|
      invariant violations + IdViolations(path, ids[i..]) == IdViolations(path, ids)
    {
      assert ids[i..][0] == ids[i] && ids[i..][1..] == ids[i + 1..];
      violations := violations + [Violation(MissingExpectedResult, Some(path), IdNotPersisted(ids[i]))];
    }
  }

  method ProcessedPass(file: FileRecord, path: string) returns (violations: seq<Violation>)
    ensures violations == ProcessedViolations(file, path)
  {
    violations := PresenceViolations(file, path);
    var requestPart := RequestPass(file, path);
    var ids := MissingIdList(file);
    var idPart := IdPass(path, ids);
    violations := violations + requestPart;
    violations := violations + ProducerViolations(file, path, ALL_KINDS);
    violations := violations + PersistenceViolations(file, path, ALL_KINDS);
    violations := violations + idPart;
  }

  method RolePass(file: FileRecord, path: string) returns (violations: seq<Violation>)
    ensures violations == RoleViolations(file, path)
  {
    violations := [];
    if !file.role.IsIncluded() {
      if file.exclusion.None? || Blank(file.exclusion.value.detail) {
        violations := [Violation(MissingExclusionReason, Some(path), NoExclusionReason)];
      }
      return;
    }
    if file.expectedServer.None? {
      var code := if file.terminalStatus.UnsupportedExtension? then UnsupportedRelevantExtension else MissingServer;
      return [Violation(code, Some(path), NoLockedServer)];
    }
    violations := ServerViolations(file.expectedServer.value, path);
    if !file.terminalStatus.Processed? {
      var code := if file.terminalStatus.UnsupportedExtension? then UnsupportedRelevantExtension else NotProcessed;
      violations := violations + [Violation(code, Some(path), EndedWith(file.terminalStatus))];
      return;
    }
    var rest := ProcessedPass(file, path);
    violations := violations + rest;
  }

  lemma SeenPathsStep(files: seq<FileRecord>, n: nat)
    requires n < |files|
    ensures SeenPaths(files[..n + 1]) ==
            SeenPaths(files[..n]) + if Normalized(files[n].path).Ok? then {Normalized(files[n].path).value} else {}
  {
    assert files[..n + 1] == files[..n] + [files[n]];
  }

  method EvaluateFiles(files: seq<FileRecord>) returns (violations: seq<Violation>)
    ensures violations == FilesViolations(files)
  {
    violations := [];
    var seen: set<string> := {};
    for i := 0 to |files|
      invariant violations == FilesViolations(files[..i])
      invariant seen == SeenPaths(files[..i])
    {
      var file := files[i];
      assert files[..i + 1][..i] == files[..i];
      SeenPathsStep(files, i);
      match Normalized(file.path) {
        case Err(e) =>
          violations := violations + [Violation(InvalidPath, Some(file.path), PathRejected(e))];
        case Ok(path) =>
          var found: seq<Violation> := [];
          if path in seen {
            found := [Violation(DuplicatePath, Some(path), AppearsTwice)];
          }
          seen := seen + {path};
          var rolePart := RolePass(file, path);
          violations := violations + (found + rolePart);
      }
    }
    assert files[..|files|] == files;
  }

  // ---- readiness of the files, said without the passes ----

  function NormalizedPathOf(file: FileRecord): Result<string, PathError> {
    Normalized(file.path)
  }

  ghost predicate PathsValidAndUnique(files: seq<FileRecord>) {
    && (forall file | file in files :: Normalized(file.path).Ok?)
    && Distinct(Map(files, NormalizedPathOf))
  }

  ghost predicate IncludedFileReady(file: FileRecord) {
    && file.expectedServer.Some?
    && !AbsentOrBlank(file.expectedServer.value.version)
    && !AbsentOrBlank(file.expectedServer.value.executableDigest)
    && file.terminalStatus.Processed?
    && SomeCapability(file)
    && file.requests != []
    && (forall r | r in file.requests :: RequestCovered(file, r))
    && (forall kind | kind in file.expectedResults ::
          HasCompletedProducer(file, kind) && file.persisted.Count(kind) > 0)
    && file.expectedResultIds <= file.persisted.provenance
  }

  ghost predicate FileReady(file: FileRecord) {
    if file.role.IsIncluded() then IncludedFileReady(file)
    else file.exclusion.Some? && !Blank(file.exclusion.value.detail)
  }

  ghost predicate FilesReady(files: seq<FileRecord>) {
    PathsValidAndUnique(files) && forall file | file in files :: FileReady(file)
  }

  lemma {:induction false} NoRequestViolations(file: FileRecord, path: string, requests: seq<RequestAttempt>)
    ensures RequestViolations(file, path, requests) == [] <==> forall r | r in requests :: RequestCovered(file, r)
  {
    if requests != [] {
      NoRequestViolations(file, path, requests[1..]);
      assert requests == [requests[0]] + requests[1..];
    }
  }

  lemma {:induction false} NoKindViolations(file: FileRecord, path: string, kinds: seq<ResultKind>)
    ensures ProducerViolations(file, path, kinds) == [] <==>
            forall k | k in kinds && k in file.expectedResults :: HasCompletedProducer(file, k)
    ensures PersistenceViolations(file, path, kinds) == [] <==>
            forall k | k in kinds && k in file.expectedResults :: file.persisted.Count(k) > 0
  {
    if kinds != [] {
      NoKindViolations(file, path, kinds[1..]);
      assert kinds == [kinds[0]] + kinds[1..];
    }
  }

  lemma AllKinds(kind: ResultKind)
    ensures kind in ALL_KINDS
  {
    match kind
    case DocumentSymbol => assert ALL_KINDS[0] == kind;
    case Definition => assert ALL_KINDS[1] == kind;
    case Reference => assert ALL_KINDS[2] == kind;
    case CallHierarchy => assert ALL_KINDS[3] == kind;
    case DocumentLink => assert ALL_KINDS[4] == kind;
    case Diagnostic => assert ALL_KINDS[5] == kind;
  }

  lemma NoProcessedViolations(file: FileRecord, path: string)
    ensures ProcessedViolations(file, path) == [] <==>
            && SomeCapability(file)
            && file.requests != []
            && (forall r | r in file.requests :: RequestCovered(file, r))
            && (forall kind | kind in file.expectedResults ::
                  HasCompletedProducer(file, kind) && file.persisted.Count(kind) > 0)
            && file.expectedResultIds <= file.persisted.provenance
  {
    NoRequestViolations(file, path, file.requests);
    NoKindViolations(file, path, ALL_KINDS);
    forall kind: ResultKind ensures kind in ALL_KINDS { AllKinds(kind); }
  }

  lemma NoRoleViolations(file: FileRecord, path: string)
    ensures RoleViolations(file, path) == [] <==> FileReady(file)
  {
    if file.role.IsIncluded() && file.expectedServer.Some? && file.terminalStatus.Processed? {
      NoProcessedViolations(file, path);
    }
  }

  /** The accumulating file pass reports nothing exactly when the files are ready. */
  lemma {:induction false} NoFileViolations(files: seq<FileRecord>)
    ensures FilesViolations(files) == [] <==> FilesReady(files)
  {
    if files != [] {
      var n := |files| - 1;
      NoFileViolations(files[..n]);
      if Normalized(files[n].path).Ok? {
        NoRoleViolations(files[n], Normalized(files[n].path).value);
      }
      LastFileUnique(files);
      LastFileReady(files);
    }
  }

  lemma LastFileReady(files: seq<FileRecord>)
    requires files != []
    ensures var n := |files| - 1;
            (forall file | file in files :: FileReady(file)) <==>
            (FileReady(files[n]) && forall file | file in files[..n] :: FileReady(file))
  {
    var n := |files| - 1;
    assert files == files[..n] + [files[n]];
  }

  lemma SeenPathMeans(files: seq<FileRecord>, path: string)
    ensures path in SeenPaths(files) <==> Ok(path) in Map(files, NormalizedPathOf)
  {
    MapMembers(files, NormalizedPathOf, Ok(path));
  }

  lemma LastFileUnique(files: seq<FileRecord>)
    requires files != []
    ensures var n := |files| - 1;
            PathsValidAndUnique(files) <==>
            && PathsValidAndUnique(files[..n])
            && Normalized(files[n].path).Ok?
            && Normalized(files[n].path).value !in SeenPaths(files[..n])
  {
    var n := |files| - 1;
    var front := files[..n];
    assert files == front + [files[n]];
    MapSnoc(front, files[n], NormalizedPathOf);
    DistinctSnoc(Map(front, NormalizedPathOf), NormalizedPathOf(files[n]));
    if Normalized(files[n].path).Ok? {
      SeenPathMeans(front, Normalized(files[n].path).value);
    }
  }
}

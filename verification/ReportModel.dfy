/** The records of an LSP completeness report. */
module ReportModel {
  import opened Wrappers
  import opened RepoPath

  datatype FileRole =
    | Source | Test | Docs | Config
    | ExcludedGenerated | ExcludedBinary | ExcludedVendor | ExcludedData | ExcludedAsset
  {
    predicate IsIncluded() {
      Source? || Test? || Docs? || Config?
    }

    function AsStr(): string {
      match this
      case Source => "source"
      case Test => "test"
      case Docs => "docs"
      case Config => "config"
      case ExcludedGenerated => "excluded_generated"
      case ExcludedBinary => "excluded_binary"
      case ExcludedVendor => "excluded_vendor"
      case ExcludedData => "excluded_data"
      case ExcludedAsset => "excluded_asset"
    }
  }

  datatype ExclusionReasonCode = Generated | Binary | Vendor | ConfiguredPolicy | NonLanguageData | Asset | OtherReason

  datatype ExclusionReason = ExclusionReason(code: ExclusionReasonCode, detail: string)

  datatype ServerIdentity = ServerIdentity(name: string, version: Option<string>, executableDigest: Option<string>)

  datatype Capability = Capability(name: string, supported: bool)

  datatype RequestOutcome = Completed | Unsupported | Failed | TimedOutRequest | CancelledRequest

  datatype RequestAttempt = RequestAttempt(
    method_: string,
    outcome: RequestOutcome,
    resultCount: Option<nat>,
    durationMs: Option<nat>,
    detail: Option<string>)

  datatype ResultKind = DocumentSymbol | Definition | Reference | CallHierarchy | DocumentLink | Diagnostic

  /** The declaration order, which is the iteration order of a set of kinds. */
  const ALL_KINDS := [DocumentSymbol, Definition, Reference, CallHierarchy, DocumentLink, Diagnostic]

  datatype PersistedResults = PersistedResults(
    documentSymbols: nat,
    definitions: nat,
    references: nat,
    callHierarchyEdges: nat,
    documentLinks: nat,
    diagnostics: nat,
    provenance: set<string>)
  {
    function Count(kind: ResultKind): nat {
      match kind
      case DocumentSymbol => documentSymbols
      case Definition => definitions
      case Reference => references
      case CallHierarchy => callHierarchyEdges
      case DocumentLink => documentLinks
      case Diagnostic => diagnostics
    }
  }

  const NO_RESULTS := PersistedResults(0, 0, 0, 0, 0, 0, {})

  datatype TerminalStatus =
    | Processed(resultCount: nat)
    | MissingServerStatus(detail: string)
    | UnsupportedExtension(detail: string)
    | NeverProcessed(detail: string)
    | Crashed(detail: string)
    | TimedOut(detail: string)
    | Partial(detail: string)
    | Degraded(detail: string)
    | Cancelled(detail: string)
    | Stale(detail: string)
  {
    function AsStr(): string {
      match this
      case Processed(_) => "processed"
      case MissingServerStatus(_) => "missing_server"
      case UnsupportedExtension(_) => "unsupported_extension"
      case NeverProcessed(_) => "never_processed"
      case Crashed(_) => "crashed"
      case TimedOut(_) => "timed_out"
      case Partial(_) => "partial"
      case Degraded(_) => "degraded"
      case Cancelled(_) => "cancelled"
      case Stale(_) => "stale"
    }
  }

  datatype FileRecord = FileRecord(
    path: string,
    role: FileRole,
    language: Option<string>,
    expectedServer: Option<ServerIdentity>,
    capabilities: seq<Capability>,
    requests: seq<RequestAttempt>,
    expectedResults: set<ResultKind>,
    expectedResultIds: set<string>,
    persisted: PersistedResults,
    terminalStatus: TerminalStatus,
    exclusion: Option<ExclusionReason>)

  datatype Disposition = Executed | VerifiedInherited

  datatype ResultProducer = ResultProducer(resultId: string, producerIds: seq<string>)

  datatype FileEvidence = FileEvidence(
    path: string,
    disposition: Disposition,
    generation: string,
    blob: string,
    partitionSignature: string,
    inputHashes: seq<string>,
    operations: seq<string>,
    resultIds: seq<string>,
    resultProducers: seq<ResultProducer>,
    baseArchiveSha256: Option<string>,
    baseReportDigest: Option<string>)

  datatype ReportIdentity = ReportIdentity(
    schemaVersion: nat,
    checkoutSha: string,
    configDigest: string,
    policyDigest: string,
    contextMode: string,
    graphSchemaVersion: nat,
    enrichmentGeneration: string,
    repository: string)

  datatype ViolationCode =
    | InvalidPath | DuplicatePath | MissingServer | MissingServerVersion | MissingServerDigest
    | MissingAdvertisedCapabilities | MissingRequestEvidence | UnsupportedRelevantExtension
    | NotProcessed | MissingExpectedResult | InvalidEvidenceProvenance | MissingExclusionReason
    | IdentityMismatch | StaleReport

  /** Why a violation was recorded: one constructor per message, holding what it mentions. */
  datatype Detail =
    | PathRejected(error: PathError)
    | AppearsTwice
    | NoExclusionReason
    | NoLockedServer
    | NoLockedVersion(server: string)
    | NoExecutableDigest(server: string)
    | EndedWith(status: TerminalStatus)
    | NoSupportedCapability
    | NoRequestEvidence
    | RequestNeeds(request: string, capability: string)
    | NoCompletedRequest(kind: ResultKind)
    | NothingPersisted(kind: ResultKind)
    | IdNotPersisted(id: string)
    | NotExactlyOneRecord(found: nat)
    | BindingIncomplete
    | ExecutedClaimsBase
    | LineageIncomplete
    | OutsideInventory
    | NoEvidenceAtAll
    | SchemaMismatch(schema: nat)
    | DigestMismatch
    | NotDerived
    | FieldMismatch(field: IdentityField)

  datatype IdentityField =
    | SchemaVersion | CheckoutSha | ConfigDigest | PolicyDigest
    | ContextMode | GraphSchemaVersion | EnrichmentGeneration | Repository

  datatype Violation = Violation(code: ViolationCode, path: Option<string>, detail: Detail)

  datatype ReportSummary = ReportSummary(
    totalFiles: nat,
    includedFiles: nat,
    excludedFiles: nat,
    byRole: map<string, nat>,
    byStatus: map<string, nat>,
    byExtension: map<string, nat>)

  const LSP_COMPLETENESS_SCHEMA_VERSION: nat := 6

  datatype Report = Report(
    identity: ReportIdentity,
    graphSnapshotDigest: string,
    files: seq<FileRecord>,
    evidence: seq<FileEvidence>,
    requestsByLanguage: map<string, nat>,
    summary: ReportSummary,
    violations: seq<Violation>,
    digest: string)
}

/** Readiness and every recorded violation, said of the records alone: nothing here is shared with
    the passes that look for them. */
module ReadinessMeaning {
  import opened Wrappers
  import opened Text
  import opened RepoPath
  import opened ReportModel
  import opened Evaluation
  import opened EvidenceEvaluation
  import opened CompletenessReport

  // ---- vocabulary ----

  const INCLUDED_ROLES := {Source, Test, Docs, Config}

  /** The characters of the Unicode property White_Space. */
  const BLANKS := {0x9, 0xA, 0xB, 0xC, 0xD, 0x20, 0x85, 0xA0, 0x1680, 0x2000, 0x2001, 0x2002, 0x2003, 0x2004, 0x2005,
                   0x2006, 0x2007, 0x2008, 0x2009, 0x200A, 0x2028, 0x2029, 0x202F, 0x205F, 0x3000}

  /** There is a text, and it is not blank. */
  predicate Says(s: Option<string>) {
    s.Some? && exists c | c in s.value :: c as int !in BLANKS
  }

  /** Which capability which request needs. */
  predicate Needs(request: string, capability: string) {
    || (request == "textDocument/documentSymbol" && capability == "documentSymbolProvider")
    || (request == "textDocument/documentLink" && capability == "documentLinkProvider")
    || (request == "textDocument/definition" && capability == "definitionProvider")
    || (request == "textDocument/references" && capability == "referencesProvider")
    || (request == "textDocument/implementation" && capability == "implementationProvider")
    || (request == "textDocument/prepareCallHierarchy+callHierarchy/*" && capability == "callHierarchyProvider")
  }

  /** Which request can give which kind of result. */
  predicate Gives(request: string, kind: ResultKind) {
    || (request == "textDocument/documentSymbol" && kind == DocumentSymbol)
    || (request == "textDocument/definition" && kind == Definition)
    || (request == "textDocument/implementation" && kind == Definition)
    || (request == "textDocument/prepareTypeHierarchy+typeHierarchy/*" && kind == Definition)
    || (request == "textDocument/references" && kind in {Reference, CallHierarchy})
    || (request == "textDocument/prepareCallHierarchy+callHierarchy/*" && kind == CallHierarchy)
    || (request == "textDocument/documentLink" && kind == DocumentLink)
    || (request == "textDocument/diagnostic" && kind == Diagnostic)
  }

  /** Some result of this kind was persisted. */
  predicate Holds(persisted: PersistedResults, kind: ResultKind) {
    || (kind == DocumentSymbol && persisted.documentSymbols > 0)
    || (kind == Definition && persisted.definitions > 0)
    || (kind == Reference && persisted.references > 0)
    || (kind == CallHierarchy && persisted.callHierarchyEdges > 0)
    || (kind == DocumentLink && persisted.documentLinks > 0)
    || (kind == Diagnostic && persisted.diagnostics > 0)
  }

  predicate Answered(file: FileRecord, kind: ResultKind) {
    exists r | r in file.requests :: r.outcome == Completed && Gives(r.method_, kind)
  }

  lemma SaysIsNotBlank(s: Option<string>)
    ensures Says(s) <==> !AbsentOrBlank(s)
  {
    if s.Some? {
      forall c | c in s.value ensures c as int in BLANKS <==> IsWhitespace(c) {
      }
    }
  }

  lemma NeedsIsRequired(request: string, capability: string)
    ensures Needs(request, capability) <==> RequiredCapability(request) == Some(capability)
  {
  }

  lemma GivesIsCanProduce(request: string, kind: ResultKind)
    ensures Gives(request, kind) <==> CanProduce(request, kind)
  {
  }

  lemma AnsweredIsProduced(file: FileRecord, kind: ResultKind)
    ensures Answered(file, kind) <==> HasCompletedProducer(file, kind)
  {
    forall request: string ensures Gives(request, kind) <==> CanProduce(request, kind) {
      GivesIsCanProduce(request, kind);
    }
  }

  // ---- files ----

  /** The language server's part of an included file: named and locked, done with the file, and
      everything expected of it was asked for, answered and kept. */
  ghost predicate Served(file: FileRecord) {
    && file.expectedServer.Some? && Says(file.expectedServer.value.version) && Says(file.expectedServer.value.executableDigest)
    && file.terminalStatus.Processed?
    && (exists c | c in file.capabilities :: c.supported)
    && file.requests != []
    && (forall r, capability | r in file.requests && Needs(r.method_, capability) :: Capability(capability, true) in file.capabilities)
    && (forall kind | kind in file.expectedResults :: Answered(file, kind) && Holds(file.persisted, kind))
    && (forall id | id in file.expectedResultIds :: id in file.persisted.provenance)
  }

  ghost predicate Stands(file: FileRecord) {
    if file.role in INCLUDED_ROLES then Served(file)
    else file.exclusion.Some? && Says(Some(file.exclusion.value.detail))
  }

  ghost predicate FilesStand(files: seq<FileRecord>) {
    && (forall file | file in files :: Normalized(file.path).Ok? && Stands(file))
    && (forall i, j | 0 <= i < j < |files| :: Normalized(files[i].path) != Normalized(files[j].path))
  }

  lemma RequestsCovered(file: FileRecord)
    ensures (forall r | r in file.requests :: RequestCovered(file, r)) <==>
            (forall r, capability | r in file.requests && Needs(r.method_, capability) :: Capability(capability, true) in file.capabilities)
  {
    forall request: string, capability: string ensures Needs(request, capability) <==> RequiredCapability(request) == Some(capability) {
      NeedsIsRequired(request, capability);
    }
    if forall r, capability | r in file.requests && Needs(r.method_, capability) :: Capability(capability, true) in file.capabilities {
      forall r | r in file.requests ensures RequestCovered(file, r) {
        if RequiredCapability(r.method_).Some? {
          assert Needs(r.method_, RequiredCapability(r.method_).value);
        }
      }
    }
  }

  lemma KindsKept(file: FileRecord)
    ensures (forall kind | kind in file.expectedResults :: HasCompletedProducer(file, kind) && file.persisted.Count(kind) > 0) <==>
            (forall kind | kind in file.expectedResults :: Answered(file, kind) && Holds(file.persisted, kind))
  {
    forall kind ensures Answered(file, kind) <==> HasCompletedProducer(file, kind) {
      AnsweredIsProduced(file, kind);
    }
  }

  lemma FileStands(file: FileRecord)
    ensures FileReady(file) <==> Stands(file)
  {
    RequestsCovered(file);
    KindsKept(file);
    if file.expectedServer.Some? {
      SaysIsNotBlank(file.expectedServer.value.version);
      SaysIsNotBlank(file.expectedServer.value.executableDigest);
    }
    if file.exclusion.Some? {
      SaysIsNotBlank(Some(file.exclusion.value.detail));
    }
  }

  lemma FilesReadyStand(files: seq<FileRecord>)
    ensures FilesReady(files) <==> FilesStand(files)
  {
    forall file ensures FileReady(file) <==> Stands(file) {
      FileStands(file);
    }
  }

  // ---- evidence ----

  const HEX_DIGITS := "0123456789abcdefABCDEF"

  predicate HexOf(s: string, n: nat) {
    |s| == n && forall c | c in s :: c in HEX_DIGITS
  }

  /** The last lineage entry of `id` is number `i`. */
  ghost predicate LastLineageEntry(e: FileEvidence, id: string, i: int) {
    && 0 <= i < |e.resultProducers| && e.resultProducers[i].resultId == id
    && forall j | i < j < |e.resultProducers| :: e.resultProducers[j].resultId != id
  }

  /** A record names its generation and contents, holds every result the file expects, and none
      twice. */
  predicate Binds(file: FileRecord, e: FileEvidence) {
    && e.generation != ""
    && HexOf(e.blob, 40) && HexOf(e.partitionSignature, 64)
    && (forall id | id in file.expectedResultIds :: id in e.resultIds)
    && (forall i, j | 0 <= i < j < |e.resultIds| :: e.resultIds[i] != e.resultIds[j])
  }

  /** An inherited record names the archive and report it came from, and a producer of each result. */
  ghost predicate Descends(e: FileEvidence) {
    && e.baseArchiveSha256.Some? && HexOf(e.baseArchiveSha256.value, 64)
    && e.baseReportDigest.Some? && e.baseReportDigest.value != ""
    && forall id | id in e.resultIds :: exists i :: LastLineageEntry(e, id, i) && e.resultProducers[i].producerIds != []
  }

  ghost predicate Vouches(file: FileRecord, e: FileEvidence) {
    && Binds(file, e)
    && (e.disposition == Executed ==> e.baseArchiveSha256.None? && e.baseReportDigest.None?)
    && (e.disposition == VerifiedInherited ==> Descends(e))
  }

  ghost predicate EvidenceStands(files: seq<FileRecord>, evidence: seq<FileEvidence>) {
    && (forall file | file in files && file.role in INCLUDED_ROLES ::
          exists i ::
            && 0 <= i < |evidence| && evidence[i].path == file.path && Vouches(file, evidence[i])
            && forall j | 0 <= j < |evidence| && j != i :: evidence[j].path != file.path)
    && (forall e | e in evidence :: exists file | file in files :: file.role in INCLUDED_ROLES && file.path == e.path)
  }

  lemma HexOfIsHex(s: string)
    ensures IsHex(s) <==> forall c | c in s :: c in HEX_DIGITS
  {
    forall c: char ensures c in HEX_DIGITS <==> '0' <= c <= '9' || 'a' <= c <= 'f' || 'A' <= c <= 'F' {
      HexDigit(c);
    }
  }

  lemma HexDigit(c: char)
    ensures c in HEX_DIGITS <==> '0' <= c <= '9' || 'a' <= c <= 'f' || 'A' <= c <= 'F'
  {
    if '0' <= c <= '9' {
      assert HEX_DIGITS[c as int - 48] == c;
    } else if 'a' <= c <= 'f' {
      assert HEX_DIGITS[c as int - 87] == c;
    } else if 'A' <= c <= 'F' {
      assert HEX_DIGITS[c as int - 49] == c;
    }
  }

  lemma RecordVouches(file: FileRecord, e: FileEvidence)
    ensures RecordReady(file, e) <==> Vouches(file, e)
  {
    HexOfIsHex(e.blob);
    HexOfIsHex(e.partitionSignature);
    if e.baseArchiveSha256.Some? {
      HexOfIsHex(e.baseArchiveSha256.value);
    }
    forall id, i ensures LastEntry(e.resultProducers, id, i) <==> LastLineageEntry(e, id, i) {
    }
  }

  lemma EvidenceReadyStands(files: seq<FileRecord>, evidence: seq<FileEvidence>)
    ensures EvidenceReady(files, evidence) <==> EvidenceStands(files, evidence)
  {
    forall file, e ensures RecordReady(file, e) <==> Vouches(file, e) {
      RecordVouches(file, e);
    }
    forall file ensures CoveredOnce(file, evidence) <==>
      exists i ::
        && 0 <= i < |evidence| && evidence[i].path == file.path && Vouches(file, evidence[i])
        && forall j | 0 <= j < |evidence| && j != i :: evidence[j].path != file.path
    {
      if i :| CoversAt(file, evidence, i) {
        assert OnlyRecordAt(evidence, file.path, i) && Vouches(file, evidence[i]);
      }
      if i :|
        && 0 <= i < |evidence| && evidence[i].path == file.path && Vouches(file, evidence[i])
        && forall j | 0 <= j < |evidence| && j != i :: evidence[j].path != file.path
      {
        assert CoversAt(file, evidence, i);
      }
    }
  }

  // ---- the passes and the gate ----

  /** Among files with different paths the evidence pass reports nothing exactly when every included
      file has exactly one record at its path, which vouches for it, and no other record is there. */
  lemma EvidencePassMeans(files: seq<FileRecord>, evidence: seq<FileEvidence>)
    requires forall i, j | 0 <= i < j < |files| :: files[i].path != files[j].path
    ensures EvidenceViolations(files, evidence) == [] <==> EvidenceStands(files, evidence)
  {
    NoEvidenceViolations(files, evidence);
    EvidenceReadyStands(files, evidence);
  }

  lemma FilePassMeans(files: seq<FileRecord>)
    ensures FilesViolations(files) == [] <==> FilesStand(files)
  {
    NoFileViolations(files);
    FilesReadyStand(files);
  }

  /** The gate accepts a loaded report, whatever its contents, exactly when it is the report of the
      expected identity under schema 6, bears the digest of all it says, counts its files correctly,
      records no violation, and its files and evidence stand. */
  lemma GateMeans(d: Derived, r: Report, expected: ReportIdentity)
    ensures GateReady(d, r, expected) <==>
            && r.identity == expected && expected.schemaVersion == 6
            && r.digest == d.digest(Payload(r.identity, r.graphSnapshotDigest, r.files, r.evidence, r.requestsByLanguage, r.summary, r.violations))
            && SummaryCounts(r.summary, r.files)
            && r.violations == [] && FilesStand(r.files) && EvidenceStands(r.files, r.evidence)
  {
    GateExact(d, r, expected);
    SummaryCountsExactly(r.summary, r.files);
    FilesReadyStand(r.files);
    EvidenceReadyStands(r.files, r.evidence);
  }
}

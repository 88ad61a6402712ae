/** Exactly which violations the two passes record, and what each of them says about the records. */
module Findings {
  import opened Wrappers
  import opened Sorting
  import opened Text
  import opened RepoPath
  import opened ReportModel
  import opened Evaluation
  import opened EvidenceEvaluation
  import opened EvidenceMeaning
  import opened ReadinessMeaning

  // ---- files ----

  predicate Included(file: FileRecord) {
    file.role in INCLUDED_ROLES
  }

  /** A server was locked for the file and finished with it, so its work can be examined. */
  predicate Examined(file: FileRecord) {
    Included(file) && file.expectedServer.Some? && file.terminalStatus.Processed?
  }

  /** What a violation with this code and detail says about a file, apart from its path. */
  ghost predicate Accuses(file: FileRecord, code: ViolationCode, detail: Detail) {
    match detail
    case NoExclusionReason =>
      code == MissingExclusionReason && !Included(file)
      && (file.exclusion.None? || !Says(Some(file.exclusion.value.detail)))
    case NoLockedServer =>
      Included(file) && file.expectedServer.None?
      && code == if file.terminalStatus.UnsupportedExtension? then UnsupportedRelevantExtension else MissingServer
    case NoLockedVersion(server) =>
      code == MissingServerVersion && Included(file) && file.expectedServer.Some? && file.expectedServer.value.name == server
      && !Says(file.expectedServer.value.version)
    case NoExecutableDigest(server) =>
      code == MissingServerDigest && Included(file) && file.expectedServer.Some? && file.expectedServer.value.name == server
      && !Says(file.expectedServer.value.executableDigest)
    case EndedWith(status) =>
      Included(file) && file.expectedServer.Some? && !file.terminalStatus.Processed? && status == file.terminalStatus
      && code == if status.UnsupportedExtension? then UnsupportedRelevantExtension else NotProcessed
    case NoSupportedCapability =>
      code == MissingAdvertisedCapabilities && Examined(file) && forall c | c in file.capabilities :: !c.supported
    case NoRequestEvidence =>
      code == MissingRequestEvidence && Examined(file) && file.requests == []
    case RequestNeeds(request, capability) =>
      code == MissingAdvertisedCapabilities && Examined(file) && (exists r | r in file.requests :: r.method_ == request)
      && Needs(request, capability) && Capability(capability, true) !in file.capabilities
    case NoCompletedRequest(kind) =>
      code == MissingRequestEvidence && Examined(file) && kind in file.expectedResults && !Answered(file, kind)
    case NothingPersisted(kind) =>
      code == MissingExpectedResult && Examined(file) && kind in file.expectedResults && !Holds(file.persisted, kind)
    case IdNotPersisted(id) =>
      code == MissingExpectedResult && Examined(file) && id in file.expectedResultIds && id !in file.persisted.provenance
    case _ => false
  }

  /** This violation is due to file number `i`. */
  ghost predicate FileFinding(files: seq<FileRecord>, i: nat, v: Violation) {
    && i < |files|
    && match Normalized(files[i].path)
       case Err(e) => v == Violation(InvalidPath, Some(files[i].path), PathRejected(e))
       case Ok(path) =>
         v.path == Some(path) &&
         ((v.code == DuplicatePath && v.detail == AppearsTwice && exists file | file in files[..i] :: Normalized(file.path) == Ok(path))
          || Accuses(files[i], v.code, v.detail))
  }

  lemma {:induction false} InRequestViolations(file: FileRecord, path: string, requests: seq<RequestAttempt>, v: Violation)
    ensures v in RequestViolations(file, path, requests) <==>
            exists r | r in requests :: v in RequestViolation(file, path, r)
  {
    if requests != [] {
      InRequestViolations(file, path, requests[1..], v);
      assert requests == [requests[0]] + requests[1..];
    }
  }

  lemma RequestFinding(file: FileRecord, path: string, v: Violation)
    ensures v in RequestViolations(file, path, file.requests) <==>
            && v.code == MissingAdvertisedCapabilities && v.path == Some(path) && v.detail.RequestNeeds?
            && (exists r | r in file.requests :: r.method_ == v.detail.request)
            && Needs(v.detail.request, v.detail.capability) && Capability(v.detail.capability, true) !in file.capabilities
  {
    InRequestViolations(file, path, file.requests, v);
    forall r ensures v in RequestViolation(file, path, r) <==>
      && v.code == MissingAdvertisedCapabilities && v.path == Some(path) && v.detail.RequestNeeds? && v.detail.request == r.method_
      && Needs(r.method_, v.detail.capability) && Capability(v.detail.capability, true) !in file.capabilities
    {
      if v.detail.RequestNeeds? {
        NeedsIsRequired(r.method_, v.detail.capability);
      }
    }
  }

  lemma {:induction false} KindFinding(file: FileRecord, path: string, kinds: seq<ResultKind>, v: Violation)
    ensures v in ProducerViolations(file, path, kinds) <==>
            && v.code == MissingRequestEvidence && v.path == Some(path) && v.detail.NoCompletedRequest?
            && v.detail.kind in kinds && v.detail.kind in file.expectedResults && !Answered(file, v.detail.kind)
    ensures v in PersistenceViolations(file, path, kinds) <==>
            && v.code == MissingExpectedResult && v.path == Some(path) && v.detail.NothingPersisted?
            && v.detail.kind in kinds && v.detail.kind in file.expectedResults && !Holds(file.persisted, v.detail.kind)
  {
    if kinds != [] {
      KindFinding(file, path, kinds[1..], v);
      AnsweredIsProduced(file, kinds[0]);
      assert kinds == [kinds[0]] + kinds[1..];
    }
  }

  lemma {:induction false} InIdViolations(path: string, ids: seq<string>, v: Violation)
    ensures v in IdViolations(path, ids) <==>
            v.code == MissingExpectedResult && v.path == Some(path) && v.detail.IdNotPersisted? && v.detail.id in ids
  {
    if ids != [] {
      InIdViolations(path, ids[1..], v);
      assert ids == [ids[0]] + ids[1..];
    }
  }

  lemma MissingIdsAre(file: FileRecord)
    ensures forall id :: id in MissingIds(file) <==> id in file.expectedResultIds && id !in file.persisted.provenance
  {
    StrLeIsOrder();
    AscendingIs(file.expectedResultIds - file.persisted.provenance, StrLe);
  }

  lemma PresenceFinding(file: FileRecord, path: string, v: Violation)
    ensures v in PresenceViolations(file, path) <==>
            && v.path == Some(path)
            && (|| (v.code == MissingRequestEvidence && v.detail == NoRequestEvidence && file.requests == [])
                || (v.code == MissingAdvertisedCapabilities && v.detail == NoSupportedCapability
                    && forall c | c in file.capabilities :: !c.supported))
  {
  }

  lemma InProcessed(file: FileRecord, path: string, v: Violation)
    ensures v in ProcessedViolations(file, path) <==>
            || v in PresenceViolations(file, path)
            || v in RequestViolations(file, path, file.requests)
            || v in ProducerViolations(file, path, ALL_KINDS)
            || v in PersistenceViolations(file, path, ALL_KINDS)
            || v in IdViolations(path, MissingIds(file))
  {
  }

  /** Which of the five lists a violation can be in follows from its detail. */
  lemma ByDetail(file: FileRecord, path: string, v: Violation)
    ensures v in ProcessedViolations(file, path) <==>
            match v.detail
            case NoSupportedCapability => v in PresenceViolations(file, path)
            case NoRequestEvidence => v in PresenceViolations(file, path)
            case RequestNeeds(_, _) => v in RequestViolations(file, path, file.requests)
            case NoCompletedRequest(_) => v in ProducerViolations(file, path, ALL_KINDS)
            case NothingPersisted(_) => v in PersistenceViolations(file, path, ALL_KINDS)
            case IdNotPersisted(_) => v in IdViolations(path, MissingIds(file))
            case _ => false
  {
    InProcessed(file, path, v);
    if v in PresenceViolations(file, path) {
      PresenceDetail(file, path, v);
    }
    if v in RequestViolations(file, path, file.requests) {
      RequestDetail(file, path, file.requests, v);
    }
    KindDetail(file, path, ALL_KINDS, v);
    InIdViolations(path, MissingIds(file), v);
  }

  lemma PresenceDetail(file: FileRecord, path: string, v: Violation)
    requires v in PresenceViolations(file, path)
    ensures v.detail == NoSupportedCapability || v.detail == NoRequestEvidence
  {
  }

  lemma {:induction false} RequestDetail(file: FileRecord, path: string, requests: seq<RequestAttempt>, v: Violation)
    requires v in RequestViolations(file, path, requests)
    ensures v.detail.RequestNeeds?
  {
    if v !in RequestViolation(file, path, requests[0]) {
      RequestDetail(file, path, requests[1..], v);
    }
  }

  lemma {:induction false} KindDetail(file: FileRecord, path: string, kinds: seq<ResultKind>, v: Violation)
    ensures v in ProducerViolations(file, path, kinds) ==> v.detail.NoCompletedRequest?
    ensures v in PersistenceViolations(file, path, kinds) ==> v.detail.NothingPersisted?
  {
    if kinds != [] {
      KindDetail(file, path, kinds[1..], v);
    }
  }

  lemma ProcessedFinding(file: FileRecord, path: string, v: Violation)
    requires Examined(file)
    ensures v in ProcessedViolations(file, path) <==>
            && v.path == Some(path) && Accuses(file, v.code, v.detail)
            && !v.detail.NoLockedVersion? && !v.detail.NoExecutableDigest?
  {
    ByDetail(file, path, v);
    match v.detail
    case NoSupportedCapability => PresenceFinding(file, path, v);
    case NoRequestEvidence => PresenceFinding(file, path, v);
    case RequestNeeds(_, _) => RequestFinding(file, path, v);
    case NoCompletedRequest(kind) => AllKinds(kind); KindFinding(file, path, ALL_KINDS, v);
    case NothingPersisted(kind) => AllKinds(kind); KindFinding(file, path, ALL_KINDS, v);
    case IdNotPersisted(_) => MissingIdsAre(file); InIdViolations(path, MissingIds(file), v);
    case _ =>
  }

  lemma ServerFinding(server: ServerIdentity, path: string, v: Violation)
    ensures v in ServerViolations(server, path) <==>
            && v.path == Some(path)
            && (|| (v.code == MissingServerVersion && v.detail == NoLockedVersion(server.name) && !Says(server.version))
                || (v.code == MissingServerDigest && v.detail == NoExecutableDigest(server.name) && !Says(server.executableDigest)))
  {
    SaysIsNotBlank(server.version);
    SaysIsNotBlank(server.executableDigest);
  }

  lemma RoleFinding(file: FileRecord, path: string, v: Violation)
    ensures v in RoleViolations(file, path) <==> v.path == Some(path) && Accuses(file, v.code, v.detail)
  {
    if !Included(file) {
      if file.exclusion.Some? {
        SaysIsNotBlank(Some(file.exclusion.value.detail));
      }
    } else if file.expectedServer.Some? {
      ServerFinding(file.expectedServer.value, path, v);
      if Examined(file) {
        ProcessedFinding(file, path, v);
      }
    }
  }

  lemma EarlierFinding(files: seq<FileRecord>, i: nat, v: Violation)
    requires i < |files| - 1
    ensures FileFinding(files, i, v) <==> FileFinding(files[..|files| - 1], i, v)
  {
    assert files[..|files| - 1][i] == files[i] && files[..|files| - 1][..i] == files[..i];
  }

  lemma OneMoreFile(files: seq<FileRecord>, v: Violation)
    requires files != []
    ensures v in FilesViolations(files) <==>
            v in FilesViolations(files[..|files| - 1]) || v in FileViolations(files[|files| - 1], SeenPaths(files[..|files| - 1]))
  {
  }

  /** The file pass records exactly these violations. */
  lemma {:induction false} FileFindings(files: seq<FileRecord>, v: Violation)
    ensures v in FilesViolations(files) <==> exists i: nat :: FileFinding(files, i, v)
  {
    if files != [] {
      var n := |files| - 1;
      FileFindings(files[..n], v);
      OneMoreFile(files, v);
      LastFinding(files, v);
      if i: nat :| FileFinding(files[..n], i, v) {
        EarlierFinding(files, i, v);
      }
      if i: nat :| FileFinding(files, i, v) && i != n {
        EarlierFinding(files, i, v);
      }
    }
  }

  lemma LastFinding(files: seq<FileRecord>, v: Violation)
    requires files != []
    ensures var n := |files| - 1;
            v in FileViolations(files[n], SeenPaths(files[..n])) <==> FileFinding(files, n, v)
  {
    var n := |files| - 1;
    if Normalized(files[n].path).Ok? {
      RoleFinding(files[n], Normalized(files[n].path).value, v);
    }
  }

  // ---- evidence ----

  /** Of the included files at this path number `i` comes last. */
  ghost predicate LastIncluded(files: seq<FileRecord>, path: string, i: int) {
    && 0 <= i < |files| && Included(files[i]) && files[i].path == path
    && forall j | i < j < |files| :: !(Included(files[j]) && files[j].path == path)
  }

  ghost predicate OnlyOne(evidence: seq<FileEvidence>, path: string, i: int) {
    && 0 <= i < |evidence| && evidence[i].path == path
    && forall j | 0 <= j < |evidence| && j != i :: evidence[j].path != path
  }

  /** What a violation with this detail says about a record and its file. */
  ghost predicate AccusesRecord(file: FileRecord, e: FileEvidence, detail: Detail) {
    match detail
    case BindingIncomplete => !Binds(file, e)
    case ExecutedClaimsBase => e.disposition == Executed && (e.baseArchiveSha256.Some? || e.baseReportDigest.Some?)
    case LineageIncomplete => e.disposition == VerifiedInherited && !Descends(e)
    case _ => false
  }

  ghost predicate AccusedAt(files: seq<FileRecord>, evidence: seq<FileEvidence>, path: string, detail: Detail) {
    exists i, j :: LastIncluded(files, path, i) && OnlyOne(evidence, path, j) && AccusesRecord(files[i], evidence[j], detail)
  }

  ghost predicate EvidenceFinding(files: seq<FileRecord>, evidence: seq<FileEvidence>, v: Violation) {
    && v.code == InvalidEvidenceProvenance && v.path.Some?
    && var path := v.path.value;
       match v.detail
       case OutsideInventory =>
         (exists e | e in evidence :: e.path == path) && forall file | file in files && Included(file) :: file.path != path
       case NotExactlyOneRecord(found) =>
         (exists file | file in files && Included(file) :: file.path == path)
         && found != 1 && found == |Filter(evidence, AtPath(path))|
       case _ => AccusedAt(files, evidence, path, v.detail)
  }

  lemma {:induction false} IncludedByPathHolds(files: seq<FileRecord>, path: string)
    ensures path in IncludedByPath(files) <==> exists file | file in files && Included(file) :: file.path == path
  {
    if files != [] {
      var n := |files| - 1;
      IncludedByPathHolds(files[..n], path);
      assert files == files[..n] + [files[n]];
    }
  }

  lemma {:induction false} IncludedByPathHoldsLast(files: seq<FileRecord>, path: string)
    ensures path in IncludedByPath(files) <==> exists i :: LastIncluded(files, path, i)
    ensures forall i | LastIncluded(files, path, i) :: path in IncludedByPath(files) && IncludedByPath(files)[path] == files[i]
  {
    if files != [] {
      var n := |files| - 1;
      if Included(files[n]) && files[n].path == path {
        assert LastIncluded(files, path, n);
      } else {
        IncludedByPathHoldsLast(files[..n], path);
        forall i ensures LastIncluded(files, path, i) <==> LastIncluded(files[..n], path, i) {
          EarlierIncluded(files, path, i);
        }
      }
    }
  }

  lemma EarlierIncluded(files: seq<FileRecord>, path: string, i: int)
    requires files != [] && !(Included(files[|files| - 1]) && files[|files| - 1].path == path)
    ensures LastIncluded(files, path, i) <==> LastIncluded(files[..|files| - 1], path, i)
  {
    var front := files[..|files| - 1];
    assert forall j | 0 <= j < |front| :: front[j] == files[j];
  }

  lemma {:induction false} InInventoryViolations(included: map<string, FileRecord>, evidence: seq<FileEvidence>, paths: seq<string>, v: Violation)
    requires forall p | p in paths :: p in included
    ensures v in InventoryViolations(included, evidence, paths) <==>
            exists p | p in paths :: v in PathViolations(included[p], p, RecordsAt(evidence, p))
  {
    if paths != [] {
      InInventoryViolations(included, evidence, paths[1..], v);
      assert paths == [paths[0]] + paths[1..];
    }
  }

  lemma {:induction false} InStrayViolations(files: seq<FileRecord>, evidence: seq<FileEvidence>, v: Violation)
    ensures v in StrayViolations(files, evidence) <==> exists e | e in evidence :: v in StrayViolation(files, e)
  {
    if evidence != [] {
      InStrayViolations(files, evidence[1..], v);
      assert evidence == [evidence[0]] + evidence[1..];
    }
  }

  lemma BindingMeans(file: FileRecord, e: FileEvidence)
    ensures BindingComplete(file, e) <==> Binds(file, e)
  {
    HexOfIsHex(e.blob);
    HexOfIsHex(e.partitionSignature);
  }

  lemma LineageMeans(e: FileEvidence)
    ensures LineageComplete(e) <==> Descends(e)
  {
    if e.baseArchiveSha256.Some? {
      HexOfIsHex(e.baseArchiveSha256.value);
    }
    LineageByMap(e);
    forall id, i ensures LastEntry(e.resultProducers, id, i) <==> LastLineageEntry(e, id, i) {
    }
  }

  lemma RecordFinding(file: FileRecord, path: string, e: FileEvidence, v: Violation)
    ensures v in RecordViolations(file, path, e) <==>
            v.code == InvalidEvidenceProvenance && v.path == Some(path) && AccusesRecord(file, e, v.detail)
  {
    BindingMeans(file, e);
    LineageMeans(e);
  }

  lemma OneRecordFinding(files: seq<FileRecord>, evidence: seq<FileEvidence>, path: string, i: int, j: int, detail: Detail)
    requires LastIncluded(files, path, i) && OnlyOne(evidence, path, j)
    ensures AccusedAt(files, evidence, path, detail) <==> AccusesRecord(files[i], evidence[j], detail)
  {
  }

  lemma PathFinding(files: seq<FileRecord>, evidence: seq<FileEvidence>, path: string, v: Violation)
    requires path in IncludedByPath(files)
    ensures v in PathViolations(IncludedByPath(files)[path], path, RecordsAt(evidence, path)) <==>
            && v.path == Some(path) && v.detail != OutsideInventory && EvidenceFinding(files, evidence, v)
  {
    var records := RecordsAt(evidence, path);
    IncludedByPathHolds(files, path);
    IncludedByPathHoldsLast(files, path);
    RecordsAtIsFilter(evidence, path);
    RecordsAtOne(evidence, path);
    var i :| LastIncluded(files, path, i);
    if |records| == 1 {
      var j :| OnlyRecordAt(evidence, path, j);
      OneRecordFinding(files, evidence, path, i, j, v.detail);
      RecordFinding(files[i], path, evidence[j], v);
    } else {
      forall j ensures !OnlyOne(evidence, path, j) {
        assert OnlyOne(evidence, path, j) ==> OnlyRecordAt(evidence, path, j);
      }
    }
  }

  /** The evidence pass records exactly these violations. */
  lemma EvidenceFindings(files: seq<FileRecord>, evidence: seq<FileEvidence>, v: Violation)
    ensures v in EvidenceViolations(files, evidence) <==> EvidenceFinding(files, evidence, v)
  {
    StrayFinding(files, evidence, v);
    InventoryFinding(files, evidence, v);
  }

  lemma StrayFinding(files: seq<FileRecord>, evidence: seq<FileEvidence>, v: Violation)
    ensures v in StrayViolations(files, evidence) <==> v.detail == OutsideInventory && EvidenceFinding(files, evidence, v)
  {
    InStrayViolations(files, evidence, v);
  }

  lemma InventoryFinding(files: seq<FileRecord>, evidence: seq<FileEvidence>, v: Violation)
    ensures v in InventoryViolations(IncludedByPath(files), evidence, AscendingPaths(IncludedByPath(files))) <==>
            v.detail != OutsideInventory && EvidenceFinding(files, evidence, v)
  {
    var included := IncludedByPath(files);
    InInventoryViolations(included, evidence, AscendingPaths(included), v);
    forall p | p in included
      ensures v in PathViolations(included[p], p, RecordsAt(evidence, p)) <==>
              v.path == Some(p) && v.detail != OutsideInventory && EvidenceFinding(files, evidence, v)
    {
      PathFinding(files, evidence, p, v);
    }
    if EvidenceFinding(files, evidence, v) && v.detail != OutsideInventory {
      IncludedByPathHolds(files, v.path.value);
      IncludedByPathHoldsLast(files, v.path.value);
    }
  }
}

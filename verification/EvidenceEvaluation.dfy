/** The judging pass over the per-file evidence records, and what it decides. */
module EvidenceEvaluation {
  import opened Wrappers
  import opened Sorting
  import opened Text
  import opened ReportModel
  import opened Evaluation

  predicate IsHex(s: string) {
    forall c | c in s :: '0' <= c <= '9' || 'a' <= c <= 'f' || 'A' <= c <= 'F'
  }

  // ---- evaluate_evidence ----

  /** Included files by path; a later file replaces an earlier one with the same path. */
  function IncludedByPath(files: seq<FileRecord>): map<string, FileRecord> {
    if files == [] then map[]
    else
      var n := |files| - 1;
      var front := IncludedByPath(files[..n]);
      if files[n].role.IsIncluded() then front[files[n].path := files[n]] else front
  }

  function RecordsAt(evidence: seq<FileEvidence>, path: string): seq<FileEvidence> {
    if evidence == [] then []
    else (if evidence[0].path == path then [evidence[0]] else []) + RecordsAt(evidence[1..], path)
  }

  /** Producer ids by result id; a later lineage entry replaces an earlier one. */
  function ProducersByResult(producers: seq<ResultProducer>): map<string, seq<string>> {
    if producers == [] then map[]
    else
      var n := |producers| - 1;
      ProducersByResult(producers[..n])[producers[n].resultId := producers[n].producerIds]
  }

  /** The record names its generation and its contents, and holds every result the file expects. */
  predicate Bound(file: FileRecord, record: FileEvidence) {
    && record.generation != ""
    && |record.blob| == 40 && IsHex(record.blob)
    && |record.partitionSignature| == 64 && IsHex(record.partitionSignature)
    && (forall id | id in file.expectedResultIds :: id in record.resultIds)
  }

  predicate BindingComplete(file: FileRecord, record: FileEvidence) {
    Bound(file, record) && Distinct(record.resultIds)
  }

  predicate LineageComplete(record: FileEvidence) {
    var producers := ProducersByResult(record.resultProducers);
    && record.baseArchiveSha256.Some? && |record.baseArchiveSha256.value| == 64 && IsHex(record.baseArchiveSha256.value)
    && record.baseReportDigest.Some? && record.baseReportDigest.value != ""
    && (forall id | id in record.resultIds :: id in producers && producers[id] != [])
  }

  function EvidenceViolation(path: string, detail: Detail): Violation {
    Violation(InvalidEvidenceProvenance, Some(path), detail)
  }

  function RecordViolations(file: FileRecord, path: string, record: FileEvidence): seq<Violation> {
    (if BindingComplete(file, record) then [] else [EvidenceViolation(path, BindingIncomplete)])
    + match record.disposition
      case Executed =>
        if record.baseArchiveSha256.Some? || record.baseReportDigest.Some?
        then [EvidenceViolation(path, ExecutedClaimsBase)] else []
      case VerifiedInherited =>
        if LineageComplete(record) then [] else [EvidenceViolation(path, LineageIncomplete)]
  }

  function PathViolations(file: FileRecord, path: string, records: seq<FileEvidence>): seq<Violation> {
    if |records| != 1 then [EvidenceViolation(path, NotExactlyOneRecord(|records|))]
    else RecordViolations(file, path, records[0])
  }

  function InventoryViolations(included: map<string, FileRecord>, evidence: seq<FileEvidence>, paths: seq<string>): seq<Violation>
    requires forall p | p in paths :: p in included
  {
    if paths == [] then []
    else PathViolations(included[paths[0]], paths[0], RecordsAt(evidence, paths[0]))
         + InventoryViolations(included, evidence, paths[1..])
  }

  predicate InInventory(files: seq<FileRecord>, path: string) {
    exists file | file in files :: file.role.IsIncluded() && file.path == path
  }

  function StrayViolation(files: seq<FileRecord>, record: FileEvidence): (violations: seq<Violation>)
    ensures violations == [] <==> InInventory(files, record.path)
  {
    if InInventory(files, record.path) then [] else [EvidenceViolation(record.path, OutsideInventory)]
  }

  function StrayViolations(files: seq<FileRecord>, evidence: seq<FileEvidence>): seq<Violation> {
    if evidence == [] then [] else StrayViolation(files, evidence[0]) + StrayViolations(files, evidence[1..])
  }

  ghost function AscendingPaths(included: map<string, FileRecord>): (paths: seq<string>)
    ensures forall p :: p in paths <==> p in included
  {
    StrLeIsOrder();
    AscendingIs(included.Keys, StrLe);
    Ascending(included.Keys, StrLe)
  }

  ghost function EvidenceViolations(files: seq<FileRecord>, evidence: seq<FileEvidence>): seq<Violation> {
    var included := IncludedByPath(files);
    InventoryViolations(included, evidence, AscendingPaths(included)) + StrayViolations(files, evidence)
  }

  method AscendingPathList(included: map<string, FileRecord>) returns (paths: seq<string>)
    ensures paths == AscendingPaths(included)
  {
    StrLeIsOrder();
    paths := AscendingList(included.Keys, StrLe);
  }

  method CollectIncluded(files: seq<FileRecord>) returns (included: map<string, FileRecord>)
    ensures included == IncludedByPath(files)
  {
    included := map[];
    for i := 0 to |files|
      invariant included == IncludedByPath(files[..i])
    {
      assert files[..i + 1][..i] == files[..i];
      if files[i].role.IsIncluded() {
        included := included[files[i].path := files[i]];
      }
    }
    assert files[..|files|] == files;
  }

  method InventoryPass(included: map<string, FileRecord>, evidence: seq<FileEvidence>, paths: seq<string>)
    returns (violations: seq<Violation>)
    requires forall p | p in paths :: p in included
    ensures violations == InventoryViolations(included, evidence, paths)
  {
    violations := [];
    for i := 0 to |paths|
      invariant violations + InventoryViolations(included, evidence, paths[i..]) == InventoryViolations(included, evidence, paths)
    {
      assert paths[i..][0] == paths[i] && paths[i..][1..] == paths[i + 1..];
      var part := PathViolations(included[paths[i]], paths[i], RecordsAt(evidence, paths[i]));
      violations := violations + part;
    }
  }

  method StrayPass(files: seq<FileRecord>, evidence: seq<FileEvidence>) returns (violations: seq<Violation>)
    ensures violations == StrayViolations(files, evidence)
  {
    violations := [];
    for i := 0 to |evidence|
      invariant violations + StrayViolations(files, evidence[i..]) == StrayViolations(files, evidence)
    {
      assert evidence[i..][0] == evidence[i] && evidence[i..][1..] == evidence[i + 1..];
      violations := violations + StrayViolation(files, evidence[i]);
    }
  }

  method EvaluateEvidence(files: seq<FileRecord>, evidence: seq<FileEvidence>) returns (violations: seq<Violation>)
    ensures violations == EvidenceViolations(files, evidence)
  {
    var included := CollectIncluded(files);
    var paths := AscendingPathList(included);
    violations := InventoryPass(included, evidence, paths);
    var stray := StrayPass(files, evidence);
    violations := violations + stray;
  }

  // ---- readiness of the evidence, said without the pass ----

  /** The last lineage entry of `id` is number `i`. */
  ghost predicate LastEntry(producers: seq<ResultProducer>, id: string, i: int) {
    && 0 <= i < |producers| && producers[i].resultId == id
    && forall j | i < j < |producers| :: producers[j].resultId != id
  }

  /** The last lineage entry of every result names a producer. */
  ghost predicate EveryResultHasLineage(record: FileEvidence) {
    forall id | id in record.resultIds ::
      exists i :: LastEntry(record.resultProducers, id, i) && record.resultProducers[i].producerIds != []
  }

  ghost predicate DispositionReady(record: FileEvidence) {
    match record.disposition
    case Executed => record.baseArchiveSha256.None? && record.baseReportDigest.None?
    case VerifiedInherited =>
      && record.baseArchiveSha256.Some? && |record.baseArchiveSha256.value| == 64
      && IsHex(record.baseArchiveSha256.value)
      && record.baseReportDigest.Some? && record.baseReportDigest.value != ""
      && EveryResultHasLineage(record)
  }

  ghost predicate RecordReady(file: FileRecord, record: FileEvidence) {
    BindingComplete(file, record) && DispositionReady(record)
  }

  ghost predicate OnlyRecordAt(evidence: seq<FileEvidence>, path: string, i: int) {
    && 0 <= i < |evidence| && evidence[i].path == path
    && forall j | 0 <= j < |evidence| && j != i :: evidence[j].path != path
  }

  ghost predicate CoversAt(file: FileRecord, evidence: seq<FileEvidence>, i: int) {
    OnlyRecordAt(evidence, file.path, i) && RecordReady(file, evidence[i])
  }

  /** Exactly one record sits at the file's path, and it is well formed for the file. */
  ghost predicate CoveredOnce(file: FileRecord, evidence: seq<FileEvidence>) {
    exists i :: CoversAt(file, evidence, i)
  }

  ghost predicate EvidenceReady(files: seq<FileRecord>, evidence: seq<FileEvidence>) {
    && (forall file | file in files && file.role.IsIncluded() :: CoveredOnce(file, evidence))
    && (forall e | e in evidence :: InInventory(files, e.path))
  }

  lemma EarlierEntry(producers: seq<ResultProducer>, id: string, i: int)
    requires producers != [] && producers[|producers| - 1].resultId != id
    ensures LastEntry(producers, id, i) <==> LastEntry(producers[..|producers| - 1], id, i)
  {
    var front := producers[..|producers| - 1];
    assert forall j | 0 <= j < |front| :: front[j] == producers[j];
  }

  lemma {:induction false} LastLineage(producers: seq<ResultProducer>, id: string)
    ensures id in ProducersByResult(producers) <==> exists i :: LastEntry(producers, id, i)
    ensures forall i | LastEntry(producers, id, i) ::
              id in ProducersByResult(producers) && ProducersByResult(producers)[id] == producers[i].producerIds
  {
    if producers != [] {
      var n := |producers| - 1;
      if producers[n].resultId == id {
        assert LastEntry(producers, id, n);
      } else {
        LastLineage(producers[..n], id);
        forall i ensures LastEntry(producers, id, i) <==> LastEntry(producers[..n], id, i) {
          EarlierEntry(producers, id, i);
        }
      }
    }
  }

  lemma RecordPass(file: FileRecord, path: string, record: FileEvidence)
    ensures RecordViolations(file, path, record) == [] <==> RecordReady(file, record)
  {
    forall id | id in record.resultIds { LastLineage(record.resultProducers, id); }
  }

  lemma {:induction false} RecordsAtEmpty(evidence: seq<FileEvidence>, path: string)
    ensures RecordsAt(evidence, path) == [] <==> forall e | e in evidence :: e.path != path
  {
    if evidence != [] {
      RecordsAtEmpty(evidence[1..], path);
      assert evidence == [evidence[0]] + evidence[1..];
    }
  }

  lemma {:induction false} RecordsAtOne(evidence: seq<FileEvidence>, path: string)
    ensures forall i | OnlyRecordAt(evidence, path, i) :: RecordsAt(evidence, path) == [evidence[i]]
    ensures |RecordsAt(evidence, path)| == 1 ==> exists i :: OnlyRecordAt(evidence, path, i)
  {
    if evidence != [] {
      var rest := evidence[1..];
      RecordsAtOne(rest, path);
      RecordsAtEmpty(rest, path);
      forall i | OnlyRecordAt(evidence, path, i) ensures RecordsAt(evidence, path) == [evidence[i]] {
        if i == 0 {
          forall e | e in rest ensures e.path != path {
            var j :| 0 <= j < |rest| && rest[j] == e;
            assert evidence[j + 1] == e;
          }
        } else {
          assert evidence[0].path != path;
          assert OnlyRecordAt(rest, path, i - 1) by {
            assert rest[i - 1] == evidence[i];
            forall j | 0 <= j < |rest| && j != i - 1 ensures rest[j].path != path {
              assert rest[j] == evidence[j + 1];
            }
          }
        }
      }
      if |RecordsAt(evidence, path)| == 1 {
        if evidence[0].path == path {
          assert OnlyRecordAt(evidence, path, 0);
        } else {
          var i :| OnlyRecordAt(rest, path, i);
          assert evidence[i + 1] == rest[i];
          forall j | 0 <= j < |evidence| && j != i + 1 ensures evidence[j].path != path {
            assert j == 0 || evidence[j] == rest[j - 1];
          }
          assert OnlyRecordAt(evidence, path, i + 1);
        }
      }
    }
  }

  lemma PathPass(file: FileRecord, evidence: seq<FileEvidence>)
    ensures PathViolations(file, file.path, RecordsAt(evidence, file.path)) == [] <==> CoveredOnce(file, evidence)
  {
    var records := RecordsAt(evidence, file.path);
    RecordsAtOne(evidence, file.path);
    if |records| == 1 {
      var i :| OnlyRecordAt(evidence, file.path, i);
      assert records == [evidence[i]];
      RecordPass(file, file.path, evidence[i]);
      assert RecordReady(file, evidence[i]) ==> CoversAt(file, evidence, i);
    }
    if i :| CoversAt(file, evidence, i) {
      RecordPass(file, file.path, evidence[i]);
    }
  }

  lemma {:induction false} IncludedSound(files: seq<FileRecord>, p: string)
    requires p in IncludedByPath(files)
    ensures var file := IncludedByPath(files)[p]; file in files && file.role.IsIncluded() && file.path == p
  {
    var n := |files| - 1;
    assert files == files[..n] + [files[n]];
    if !(files[n].role.IsIncluded() && files[n].path == p) {
      IncludedSound(files[..n], p);
    }
  }

  lemma {:induction false} IncludedComplete(files: seq<FileRecord>, i: nat)
    requires i < |files| && files[i].role.IsIncluded()
    requires forall j | i < j < |files| :: files[j].path != files[i].path
    ensures files[i].path in IncludedByPath(files) && IncludedByPath(files)[files[i].path] == files[i]
  {
    var n := |files| - 1;
    if i < n {
      var front := files[..n];
      assert front[i] == files[i];
      forall j | i < j < n ensures front[j].path != front[i].path {
        assert front[j] == files[j];
      }
      IncludedComplete(front, i);
    }
  }

  /** `included` holds exactly the included files, each at its path. */
  ghost predicate HoldsIncluded(included: map<string, FileRecord>, files: seq<FileRecord>) {
    && (forall p | p in included :: included[p] in files && included[p].role.IsIncluded() && included[p].path == p)
    && (forall file | file in files && file.role.IsIncluded() :: file.path in included && included[file.path] == file)
  }

  /** Among files with different paths the map holds exactly the included files. */
  lemma IncludedMembers(files: seq<FileRecord>)
    requires forall i, j | 0 <= i < j < |files| :: files[i].path != files[j].path
    ensures HoldsIncluded(IncludedByPath(files), files)
  {
    forall p | p in IncludedByPath(files)
      ensures var file := IncludedByPath(files)[p]; file in files && file.role.IsIncluded() && file.path == p
    {
      IncludedSound(files, p);
    }
    forall file | file in files && file.role.IsIncluded()
      ensures file.path in IncludedByPath(files) && IncludedByPath(files)[file.path] == file
    {
      var i :| 0 <= i < |files| && files[i] == file;
      IncludedComplete(files, i);
    }
  }

  ghost predicate PathClean(included: map<string, FileRecord>, evidence: seq<FileEvidence>, p: string)
    requires p in included
  {
    PathViolations(included[p], p, RecordsAt(evidence, p)) == []
  }

  lemma {:induction false} NoInventoryViolations(included: map<string, FileRecord>, evidence: seq<FileEvidence>, paths: seq<string>)
    requires forall p | p in paths :: p in included
    ensures InventoryViolations(included, evidence, paths) == [] <==>
            forall p | p in paths :: PathClean(included, evidence, p)
  {
    if paths != [] {
      NoInventoryViolations(included, evidence, paths[1..]);
      assert paths == [paths[0]] + paths[1..];
      assert PathClean(included, evidence, paths[0]) <==>
             PathViolations(included[paths[0]], paths[0], RecordsAt(evidence, paths[0])) == [];
    }
  }

  lemma {:induction false} NoStrayViolations(files: seq<FileRecord>, evidence: seq<FileEvidence>)
    ensures StrayViolations(files, evidence) == [] <==> forall e | e in evidence :: InInventory(files, e.path)
  {
    if evidence != [] {
      NoStrayViolations(files, evidence[1..]);
      assert evidence == [evidence[0]] + evidence[1..];
    }
  }

  lemma InventoryCovered(included: map<string, FileRecord>, files: seq<FileRecord>, evidence: seq<FileEvidence>)
    requires HoldsIncluded(included, files)
    ensures (forall p | p in included :: PathClean(included, evidence, p)) <==>
            (forall file | file in files && file.role.IsIncluded() :: CoveredOnce(file, evidence))
  {
    forall p | p in included ensures PathClean(included, evidence, p) <==> CoveredOnce(included[p], evidence) {
      PathPass(included[p], evidence);
    }
    if forall p | p in included :: PathClean(included, evidence, p) {
      forall file | file in files && file.role.IsIncluded() ensures CoveredOnce(file, evidence) {
        assert PathClean(included, evidence, file.path);
      }
    }
  }

  /** Among files with different paths the evidence pass reports nothing exactly when the
      evidence is ready. */
  lemma NoEvidenceViolations(files: seq<FileRecord>, evidence: seq<FileEvidence>)
    requires forall i, j | 0 <= i < j < |files| :: files[i].path != files[j].path
    ensures EvidenceViolations(files, evidence) == [] <==> EvidenceReady(files, evidence)
  {
    var included := IncludedByPath(files);
    NoInventoryViolations(included, evidence, AscendingPaths(included));
    IncludedMembers(files);
    InventoryCovered(included, files, evidence);
    NoStrayViolations(files, evidence);
  }

  lemma UniqueRawPaths(files: seq<FileRecord>)
    requires PathsValidAndUnique(files)
    ensures forall i, j | 0 <= i < j < |files| :: files[i].path != files[j].path
  {
    forall i, j | 0 <= i < j < |files| ensures files[i].path != files[j].path {
      assert Map(files, NormalizedPathOf)[i] != Map(files, NormalizedPathOf)[j];
    }
  }

  /** Both passes together report nothing exactly when files and evidence are ready. */
  lemma PassesDecideReadiness(files: seq<FileRecord>, evidence: seq<FileEvidence>)
    ensures FilesViolations(files) + EvidenceViolations(files, evidence) == [] <==>
            FilesReady(files) && EvidenceReady(files, evidence)
  {
    NoFileViolations(files);
    if FilesReady(files) {
      UniqueRawPaths(files);
      NoEvidenceViolations(files, evidence);
    }
  }
}

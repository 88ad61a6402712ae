/** Finalising a completeness report, re-judging it, and the readiness gate. */
module CompletenessReport {
  import opened Wrappers
  import opened Sorting
  import opened Text
  import opened Totals
  import opened RepoPath
  import opened ReportModel
  import opened Evaluation
  import opened EvidenceEvaluation

  /** What `compute_digest` hashes. */
  datatype Payload = Payload(
    identity: ReportIdentity,
    graphSnapshotDigest: string,
    files: seq<FileRecord>,
    evidence: seq<FileEvidence>,
    requestsByLanguage: map<string, nat>,
    summary: ReportSummary,
    violations: seq<Violation>)

  /** The derived orderings of the record types, and the hash of the serialised payload. */
  datatype Derived = Derived(
    capabilityLe: (Capability, Capability) -> bool,
    requestLe: (RequestAttempt, RequestAttempt) -> bool,
    fileLe: (FileRecord, FileRecord) -> bool,
    evidenceLe: (FileEvidence, FileEvidence) -> bool,
    violationLe: (Violation, Violation) -> bool,
    digest: Payload -> string)
  {
    ghost predicate Lawful() {
      && TotalOrder(capabilityLe) && TotalOrder(requestLe) && TotalOrder(fileLe)
      && TotalOrder(evidenceLe) && TotalOrder(violationLe)
    }
  }

  // ---- canonical records ----

  function CanonicalFile(d: Derived, file: FileRecord): FileRecord {
    file.(path := CanonicalPath(file.path),
          capabilities := Dedup(Sort(file.capabilities, d.capabilityLe)),
          requests := Dedup(Sort(file.requests, d.requestLe)))
  }

  predicate ProducerLe(a: ResultProducer, b: ResultProducer) {
    StrLe(a.resultId, b.resultId)
  }

  function CanonicalEvidence(e: FileEvidence): FileEvidence {
    e.(path := CanonicalPath(e.path),
       inputHashes := Dedup(Sort(e.inputHashes, StrLe)),
       operations := Dedup(Sort(e.operations, StrLe)),
       resultIds := Dedup(Sort(e.resultIds, StrLe)),
       resultProducers := Sort(e.resultProducers, ProducerLe))
  }

  function FileCanonicalizer(d: Derived): FileRecord -> FileRecord {
    file => CanonicalFile(d, file)
  }

  function CanonicalFiles(d: Derived, files: seq<FileRecord>): seq<FileRecord> {
    Sort(Map(files, FileCanonicalizer(d)), d.fileLe)
  }

  function CanonicalEvidences(d: Derived, evidence: seq<FileEvidence>): seq<FileEvidence> {
    Sort(Map(evidence, CanonicalEvidence), d.evidenceLe)
  }

  lemma CanonicalFileIdempotent(d: Derived, file: FileRecord)
    requires d.Lawful()
    ensures CanonicalFile(d, CanonicalFile(d, file)) == CanonicalFile(d, file)
  {
    CanonicalPathIdempotent(file.path);
    SortDedupIdempotent(file.capabilities, d.capabilityLe);
    SortDedupIdempotent(file.requests, d.requestLe);
  }

  lemma ProducersSorted(producers: seq<ResultProducer>)
    ensures Sort(Sort(producers, ProducerLe), ProducerLe) == Sort(producers, ProducerLe)
  {
    forall a: ResultProducer, b: ResultProducer ensures ProducerLe(a, b) || ProducerLe(b, a) {
      StrLeTotal(a.resultId, b.resultId);
    }
    forall a: ResultProducer, b: ResultProducer, c: ResultProducer | ProducerLe(a, b) && ProducerLe(b, c)
      ensures ProducerLe(a, c)
    {
      StrLeTransitive(a.resultId, b.resultId, c.resultId);
    }
    SortSorts(producers, ProducerLe);
    SortFixesSorted(Sort(producers, ProducerLe), ProducerLe);
  }

  lemma TextsSorted(texts: seq<string>)
    ensures var t := Dedup(Sort(texts, StrLe)); Dedup(Sort(t, StrLe)) == t
  {
    StrLeIsOrder();
    SortDedupIdempotent(texts, StrLe);
  }

  lemma CanonicalEvidenceIdempotent(e: FileEvidence)
    ensures CanonicalEvidence(CanonicalEvidence(e)) == CanonicalEvidence(e)
  {
    CanonicalPathIdempotent(e.path);
    TextsSorted(e.inputHashes);
    TextsSorted(e.operations);
    TextsSorted(e.resultIds);
    ProducersSorted(e.resultProducers);
  }

  /** Canonicalising a sorted list of canonical records changes nothing. */
  lemma CanonicalizeTwice<T(!new)>(s: seq<T>, f: T -> T, le: (T, T) -> bool)
    requires TotalPreorder(le) && forall x :: f(f(x)) == f(x)
    ensures Sort(Map(Sort(Map(s, f), le), f), le) == Sort(Map(s, f), le)
  {
    var t := Sort(Map(s, f), le);
    SortPermutes(Map(s, f), le);
    SameElements(t, Map(s, f));
    forall i | 0 <= i < |t| ensures f(t[i]) == t[i] {
      assert t[i] in Map(s, f);
    }
    assert Map(t, f) == t;
    SortSorts(Map(s, f), le);
    SortFixesSorted(t, le);
  }

  /** Canonical lists do not depend on the order of their input. */
  lemma CanonicalizePermutation<T(!new)>(s: seq<T>, t: seq<T>, f: T -> T, le: (T, T) -> bool)
    requires TotalOrder(le) && multiset(s) == multiset(t)
    ensures Sort(Map(s, f), le) == Sort(Map(t, f), le)
  {
    MapPermutation(s, t, f);
    SortCanonical(Map(s, f), Map(t, f), le);
  }

  // ---- summarize ----

  /** `str::rsplit_once('.')`, the part after the dot. */
  function ExtensionOf(s: string): (r: Option<string>)
    ensures r.None? <==> '.' !in s
  {
    if '.' !in s then None
    else if '.' in s[1..] then ExtensionOf(s[1..])
    else Some(s[1..])
  }

  function ExtensionKey(path: string): string {
    var extension := ExtensionOf(path);
    if extension.None? || '/' in extension.value then "<none>"
    else Map(extension.value, AsciiLower)
  }

  function Bump(m: map<string, nat>, k: string): map<string, nat> {
    m[k := Get(m, k) + 1]
  }

  const EMPTY_SUMMARY := ReportSummary(0, 0, 0, map[], map[], map[])

  function Tally(s: ReportSummary, file: FileRecord): ReportSummary {
    ReportSummary(
      s.totalFiles + 1,
      s.includedFiles + (if file.role.IsIncluded() then 1 else 0),
      s.excludedFiles + (if file.role.IsIncluded() then 0 else 1),
      Bump(s.byRole, file.role.AsStr()),
      Bump(s.byStatus, file.terminalStatus.AsStr()),
      Bump(s.byExtension, ExtensionKey(file.path)))
  }

  function SummaryOf(files: seq<FileRecord>): (s: ReportSummary)
    ensures s.totalFiles == |files|
  {
    if files == [] then EMPTY_SUMMARY
    else var n := |files| - 1; Tally(SummaryOf(files[..n]), files[n])
  }

  function RoleKey(file: FileRecord): string {
    file.role.AsStr()
  }

  function StatusKey(file: FileRecord): string {
    file.terminalStatus.AsStr()
  }

  function PathKey(file: FileRecord): string {
    ExtensionKey(file.path)
  }

  function WithKey<T>(key: T -> string, k: string): T -> bool {
    x => key(x) == k
  }

  /** `m` holds, for every key that occurs and for no other, how often it occurs. */
  ghost predicate Counts<T>(m: map<string, nat>, s: seq<T>, key: T -> string) {
    && (forall k :: Get(m, k) == |Filter(s, WithKey(key, k))|)
    && (forall k | k in m :: m[k] > 0)
  }

  predicate IncludedRole(file: FileRecord) {
    file.role.IsIncluded()
  }

  predicate ExcludedRole(file: FileRecord) {
    !file.role.IsIncluded()
  }

  ghost predicate SummaryCounts(s: ReportSummary, files: seq<FileRecord>) {
    && s.totalFiles == |files|
    && s.includedFiles == |Filter(files, IncludedRole)|
    && s.excludedFiles == |Filter(files, ExcludedRole)|
    && Counts(s.byRole, files, RoleKey)
    && Counts(s.byStatus, files, StatusKey)
    && Counts(s.byExtension, files, PathKey)
  }

  lemma BumpCounts<T>(m: map<string, nat>, s: seq<T>, key: T -> string)
    requires s != [] && Counts(m, s[..|s| - 1], key)
    ensures Counts(Bump(m, key(s[|s| - 1])), s, key)
  {
    var x := s[|s| - 1];
    forall k ensures Get(Bump(m, key(x)), k) == |Filter(s, WithKey(key, k))| {
      assert Get(m, k) == |Filter(s[..|s| - 1], WithKey(key, k))|;
    }
  }

  lemma {:induction false} SummaryIsCount(files: seq<FileRecord>)
    ensures SummaryCounts(SummaryOf(files), files)
  {
    if files != [] {
      var n := |files| - 1;
      var fewer := SummaryOf(files[..n]);
      SummaryIsCount(files[..n]);
      BumpCounts(fewer.byRole, files, RoleKey);
      BumpCounts(fewer.byStatus, files, StatusKey);
      BumpCounts(fewer.byExtension, files, PathKey);
    }
  }

  lemma CountsUnique<T>(a: map<string, nat>, b: map<string, nat>, s: seq<T>, key: T -> string)
    requires Counts(a, s, key) && Counts(b, s, key)
    ensures a == b
  {
    forall k ensures k in a <==> k in b {
      assert Get(a, k) == Get(b, k);
    }
    forall k | k in a ensures a[k] == b[k] {
      assert Get(a, k) == Get(b, k);
    }
  }

  /** A summary is the one derived from the files exactly when each of its numbers is the number of
      files it speaks of. */
  lemma SummaryCountsExactly(s: ReportSummary, files: seq<FileRecord>)
    ensures s == SummaryOf(files) <==> SummaryCounts(s, files)
  {
    SummaryIsCount(files);
    if SummaryCounts(s, files) {
      var t := SummaryOf(files);
      CountsUnique(s.byRole, t.byRole, files, RoleKey);
      CountsUnique(s.byStatus, t.byStatus, files, StatusKey);
      CountsUnique(s.byExtension, t.byExtension, files, PathKey);
    }
  }

  method Summarize(files: seq<FileRecord>) returns (s: ReportSummary)
    ensures s == SummaryOf(files) && SummaryCounts(s, files)
  {
    s := EMPTY_SUMMARY;
    for i := 0 to |files|
      invariant s == SummaryOf(files[..i])
    {
      assert files[..i + 1][..i] == files[..i];
      s := Tally(s, files[i]);
    }
    assert files[..|files|] == files;
    SummaryIsCount(files);
  }

  ghost predicate Balanced(s: ReportSummary) {
    && s.includedFiles + s.excludedFiles == s.totalFiles
    && Total(s.byRole) == s.totalFiles
    && Total(s.byStatus) == s.totalFiles
    && Total(s.byExtension) == s.totalFiles
  }

  lemma BumpTotal(m: map<string, nat>, k: string)
    ensures Total(Bump(m, k)) == Total(m) + 1
  {
    TotalAdd(m, k, 1);
  }

  lemma TallyBalances(s: ReportSummary, file: FileRecord)
    requires Balanced(s)
    ensures Balanced(Tally(s, file))
  {
    BumpTotal(s.byRole, file.role.AsStr());
    BumpTotal(s.byStatus, file.terminalStatus.AsStr());
    BumpTotal(s.byExtension, ExtensionKey(file.path));
  }

  /** The books balance: every breakdown adds up to the total. */
  lemma {:induction false} SummaryBalances(files: seq<FileRecord>)
    ensures Balanced(SummaryOf(files)) && SummaryOf(files).totalFiles == |files|
  {
    if files != [] {
      var n := |files| - 1;
      SummaryBalances(files[..n]);
      TallyBalances(SummaryOf(files[..n]), files[n]);
    }
  }

  // ---- finalize ----

  function PayloadOf(r: Report): Payload {
    Payload(r.identity, r.graphSnapshotDigest, r.files, r.evidence, r.requestsByLanguage, r.summary, r.violations)
  }

  /** What judging files and evidence records, before sorting. */
  ghost function Judged(files: seq<FileRecord>, evidence: seq<FileEvidence>): seq<Violation> {
    FilesViolations(files) + if evidence == [] then [] else EvidenceViolations(files, evidence)
  }

  /** The report with everything but the digest brought up to date. */
  ghost function JudgedReport(d: Derived, r: Report): Report {
    var files := CanonicalFiles(d, r.files);
    var evidence := CanonicalEvidences(d, r.evidence);
    r.(files := files, evidence := evidence, summary := SummaryOf(files),
       violations := Sort(Judged(files, evidence), d.violationLe))
  }

  ghost function Finalized(d: Derived, r: Report): Report {
    var judged := JudgedReport(d, r);
    judged.(digest := d.digest(PayloadOf(judged)))
  }

  /** The report while it is being built. */
  class ReportBuilder {
    var identity: ReportIdentity
    var graphSnapshotDigest: string
    var files: seq<FileRecord>
    var evidence: seq<FileEvidence>
    var requestsByLanguage: map<string, nat>
    var summary: ReportSummary
    var violations: seq<Violation>
    var digest: string

    function Value(): Report
      reads this
    {
      Report(identity, graphSnapshotDigest, files, evidence, requestsByLanguage, summary, violations, digest)
    }

    constructor (identity: ReportIdentity, graphSnapshotDigest: string, files: seq<FileRecord>, evidence: seq<FileEvidence>)
      ensures Value() == Report(identity, graphSnapshotDigest, files, evidence, map[], EMPTY_SUMMARY, [], "")
    {
      this.identity := identity;
      this.graphSnapshotDigest := graphSnapshotDigest;
      this.files := files;
      this.evidence := evidence;
      this.requestsByLanguage := map[];
      this.summary := EMPTY_SUMMARY;
      this.violations := [];
      this.digest := "";
    }

    method CanonicalizeRecords(d: Derived)
      modifies this`files, this`evidence
      ensures files == CanonicalFiles(d, old(files))
      ensures evidence == CanonicalEvidences(d, old(evidence))
    {
      ghost var f := FileCanonicalizer(d);
      for i := 0 to |files|
        invariant |files| == |old(files)|
        invariant forall k | 0 <= k < i :: files[k] == f(old(files)[k])
        invariant files[i..] == old(files)[i..]
        invariant evidence == old(evidence)
      {
        assert files[i] == files[i..][0] && old(files)[i] == old(files)[i..][0];
        files := files[i := CanonicalFile(d, files[i])];
        assert files[i + 1..] == old(files)[i..][1..];
      }
      assert files == Map(old(files), f);
      files := Sort(files, d.fileLe);
      for i := 0 to |evidence|
        invariant |evidence| == |old(evidence)|
        invariant forall k | 0 <= k < i :: evidence[k] == CanonicalEvidence(old(evidence)[k])
        invariant evidence[i..] == old(evidence)[i..]
        invariant files == CanonicalFiles(d, old(files))
      {
        assert evidence[i] == evidence[i..][0] && old(evidence)[i] == old(evidence)[i..][0];
        evidence := evidence[i := CanonicalEvidence(evidence[i])];
        assert evidence[i + 1..] == old(evidence)[i..][1..];
      }
      assert evidence == Map(old(evidence), CanonicalEvidence);
      evidence := Sort(evidence, d.evidenceLe);
    }

    method Judge() returns (found: seq<Violation>)
      ensures found == Judged(files, evidence)
    {
      found := EvaluateFiles(files);
      if evidence != [] {
        var more := EvaluateEvidence(files, evidence);
        found := found + more;
      }
    }

    method Rejudge(d: Derived)
      modifies this`files, this`evidence, this`summary, this`violations
      ensures files == CanonicalFiles(d, old(files)) && evidence == CanonicalEvidences(d, old(evidence))
      ensures summary == SummaryOf(files) && violations == Sort(Judged(files, evidence), d.violationLe)
    {
      CanonicalizeRecords(d);
      summary := Summarize(files);
      var found := Judge();
      violations := Sort(found, d.violationLe);
    }

    method Finalize(d: Derived)
      modifies this
      ensures Value() == Finalized(d, old(Value()))
    {
      Rejudge(d);
      ghost var judged := Value();
      assert judged == JudgedReport(d, old(Value()));
      digest := d.digest(PayloadOf(Value()));
      assert Value() == judged.(digest := d.digest(PayloadOf(judged)));
    }
  }

  /** Finalising a finalised report changes nothing, whatever its paths look like. */
  lemma FinalizeIdempotent(d: Derived, r: Report)
    requires d.Lawful()
    ensures Finalized(d, Finalized(d, r)) == Finalized(d, r)
  {
    var f := FileCanonicalizer(d);
    forall file ensures f(f(file)) == f(file) { CanonicalFileIdempotent(d, file); }
    forall e ensures CanonicalEvidence(CanonicalEvidence(e)) == CanonicalEvidence(e) { CanonicalEvidenceIdempotent(e); }
    CanonicalizeTwice(r.files, f, d.fileLe);
    CanonicalizeTwice(r.evidence, CanonicalEvidence, d.evidenceLe);
  }

  /** The order in which files and evidence were collected leaves no trace: same report, same
      digest. */
  lemma FinalizeOrderIndependent(d: Derived, r: Report, files: seq<FileRecord>, evidence: seq<FileEvidence>)
    requires d.Lawful()
    requires multiset(files) == multiset(r.files) && multiset(evidence) == multiset(r.evidence)
    ensures Finalized(d, r.(files := files, evidence := evidence)) == Finalized(d, r)
  {
    CanonicalizePermutation(files, r.files, FileCanonicalizer(d), d.fileLe);
    CanonicalizePermutation(evidence, r.evidence, CanonicalEvidence, d.evidenceLe);
  }

  /** A finalised report is ready exactly when its files are ready and so is its evidence,
      if it carries any. */
  lemma FinalizedReadiness(d: Derived, r: Report)
    ensures var f := Finalized(d, r);
            f.violations == [] <==> FilesReady(f.files) && (r.evidence == [] || EvidenceReady(f.files, f.evidence))
  {
    var f := Finalized(d, r);
    SortPermutes(Judged(f.files, f.evidence), d.violationLe);
    SortPermutes(Map(r.evidence, CanonicalEvidence), d.evidenceLe);
    PassesDecideReadiness(f.files, f.evidence);
    NoFileViolations(f.files);
  }

  // ---- integrity ----

  ghost predicate AnyIncluded(files: seq<FileRecord>) {
    exists file | file in files :: file.role.IsIncluded()
  }

  /** What `integrity_violations` derives afresh from files and evidence, before sorting. */
  ghost function Rejudged(files: seq<FileRecord>, evidence: seq<FileEvidence>): seq<Violation> {
    FilesViolations(files)
    + if AnyIncluded(files) && evidence == []
      then [Violation(InvalidEvidenceProvenance, None, NoEvidenceAtAll)]
      else EvidenceViolations(files, evidence)
  }

  ghost function IntegrityViolations(d: Derived, r: Report): seq<Violation> {
    (if r.identity.schemaVersion == LSP_COMPLETENESS_SCHEMA_VERSION then []
     else [Violation(StaleReport, None, SchemaMismatch(r.identity.schemaVersion))])
    + (if r.digest == d.digest(PayloadOf(r)) then [] else [Violation(StaleReport, None, DigestMismatch)])
    + (if r.summary == SummaryOf(r.files) && r.violations == Sort(Rejudged(r.files, r.evidence), d.violationLe) then []
       else [Violation(StaleReport, None, NotDerived)])
  }

  lemma NothingToJudge(files: seq<FileRecord>)
    requires !AnyIncluded(files)
    ensures EvidenceViolations(files, []) == []
  {
    forall p | p in IncludedByPath(files) ensures false { IncludedSound(files, p); }
    EmptyOrInhabited(AscendingPaths(IncludedByPath(files)));
  }

  /** A finalised report passes its own integrity check exactly when its schema is current
      and either no file is included or it carries evidence. */
  lemma FinalizedIntegrity(d: Derived, r: Report)
    ensures IntegrityViolations(d, Finalized(d, r)) == [] <==>
            && r.identity.schemaVersion == LSP_COMPLETENESS_SCHEMA_VERSION
            && (!AnyIncluded(Finalized(d, r).files) || r.evidence != [])
  {
    var f := Finalized(d, r);
    SortPermutes(Map(r.evidence, CanonicalEvidence), d.evidenceLe);
    if f.evidence == [] {
      if AnyIncluded(f.files) {
        SortPermutes(Judged(f.files, f.evidence), d.violationLe);
        SortPermutes(Rejudged(f.files, f.evidence), d.violationLe);
      } else {
        NothingToJudge(f.files);
      }
    }
  }

  // ---- the readiness gate ----

  function FieldViolation(field: IdentityField): Violation {
    Violation(if field.EnrichmentGeneration? then StaleReport else IdentityMismatch, None, FieldMismatch(field))
  }

  function IdentityViolations(actual: ReportIdentity, wanted: ReportIdentity): (violations: seq<Violation>)
    ensures violations == [] <==> actual == wanted
  {
    (if actual.schemaVersion == wanted.schemaVersion then [] else [FieldViolation(SchemaVersion)])
    + (if actual.checkoutSha == wanted.checkoutSha then [] else [FieldViolation(CheckoutSha)])
    + (if actual.configDigest == wanted.configDigest then [] else [FieldViolation(ConfigDigest)])
    + (if actual.policyDigest == wanted.policyDigest then [] else [FieldViolation(PolicyDigest)])
    + (if actual.contextMode == wanted.contextMode then [] else [FieldViolation(ContextMode)])
    + (if actual.graphSchemaVersion == wanted.graphSchemaVersion then [] else [FieldViolation(GraphSchemaVersion)])
    + (if actual.enrichmentGeneration == wanted.enrichmentGeneration then [] else [FieldViolation(EnrichmentGeneration)])
    + (if actual.repository == wanted.repository then [] else [FieldViolation(Repository)])
  }

  ghost function CompatibilityViolations(d: Derived, r: Report, expected: ReportIdentity): seq<Violation> {
    Dedup(Sort(IntegrityViolations(d, r) + IdentityViolations(r.identity, expected), d.violationLe))
  }

  /** `ReadinessCheck::from_report`. */
  ghost predicate GateReady(d: Derived, r: Report, expected: ReportIdentity) {
    r.violations == [] && CompatibilityViolations(d, r, expected) == []
  }

  /** Fail-closed: a loaded report, whatever its contents, passes the gate exactly when it is
      the current-schema report of the expected identity, carries the digest and summary of
      its own contents, records no violation, and really is ready. */
  lemma GateExact(d: Derived, r: Report, expected: ReportIdentity)
    ensures GateReady(d, r, expected) <==>
            && r.identity == expected
            && r.identity.schemaVersion == LSP_COMPLETENESS_SCHEMA_VERSION
            && r.digest == d.digest(PayloadOf(r))
            && r.summary == SummaryOf(r.files)
            && r.violations == []
            && FilesReady(r.files)
            && EvidenceReady(r.files, r.evidence)
  {
    var all := IntegrityViolations(d, r) + IdentityViolations(r.identity, expected);
    SortPermutes(all, d.violationLe);
    DedupBasics(Sort(all, d.violationLe));
    assert CompatibilityViolations(d, r, expected) == [] <==> all == [];
    RejudgedReadiness(d, r);
  }

  lemma RejudgedReadiness(d: Derived, r: Report)
    ensures [] == Sort(Rejudged(r.files, r.evidence), d.violationLe) <==>
            FilesReady(r.files) && EvidenceReady(r.files, r.evidence)
  {
    SortPermutes(Rejudged(r.files, r.evidence), d.violationLe);
    PassesDecideReadiness(r.files, r.evidence);
    if AnyIncluded(r.files) && r.evidence == [] {
      var file :| file in r.files && file.role.IsIncluded();
      assert !CoveredOnce(file, []);
    }
  }
}

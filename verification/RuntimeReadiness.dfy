/** What a query may conclude from a summary it loaded without a lock. */
module RuntimeReadiness {
  import opened Wrappers
  import opened Sorting
  import opened ReportModel
  import opened Evaluation
  import opened EvidenceEvaluation
  import opened CompletenessReport
  import opened GraphModel
  import opened GraphSnapshot
  import opened Runs
  import P = Publication

  /** `load_runtime_summary` on top of an already loaded summary. */
  function LoadRuntime(
      c: P.Codec, z: Serializer, loaded: Result<P.Summary, P.LoadError>,
      identity: ReportIdentity, nodes: seq<Node>, edges: seq<Edge>)
    : Result<P.Summary, P.LoadError>
  {
    match loaded
    case Err(e) => Err(e)
    case Ok(summary) =>
      if summary.reportIdentityDigest != c.identityDigest(identity) then Err(P.RuntimeIdentityDiffers)
      else if summary.graphSnapshotDigest != GraphDigest(z, nodes, edges) then Err(P.RuntimeGraphDiffers)
      else Ok(summary)
  }

  /** The report came out of `new_bound_with_evidence` on these nodes and edges. */
  ghost predicate BuiltFrom(d: Derived, z: Serializer, r: Report, raw: Report, nodes: seq<Node>, edges: seq<Edge>) {
    r == Finalized(d, raw) && raw.graphSnapshotDigest == GraphDigest(z, nodes, edges)
  }

  /** A runtime load that succeeds while publishers and mutators are at work returns the
      summary of the report that was published when it read the marker; that report has the
      runtime's identity and was built from the very nodes (up to their language) and edges the
      runtime serves, even where stable ids are shared. */
  lemma RuntimeLoadBindsReport(
      c: P.Codec, d: Derived, z: Serializer, run: Run<P.Sys, P.Step>, i: nat, j: nat, k: nat,
      raw: Report, builtNodes: seq<Node>, builtEdges: seq<Edge>,
      identity: ReportIdentity, nodes: seq<Node>, edges: seq<Edge>)
    requires c.Lawful() && z.Lawful() && P.IsRun(c, run)
    requires i < |run.states| && j < |run.states| && k < |run.states|
    requires LoadRuntime(c, z, P.LoadAcross(c, run, i, j, k), identity, nodes, edges).Ok?
    requires run.states[j].current.Some? ==>
               BuiltFrom(d, z, run.states[j].current.value.report, raw, builtNodes, builtEdges)
    ensures run.states[j].current.Some?
    ensures var report := run.states[j].current.value.report;
            && LoadRuntime(c, z, P.LoadAcross(c, run, i, j, k), identity, nodes, edges) == Ok(P.FromReport(c, report))
            && report.identity == identity
    ensures multiset(Map(builtNodes, WithoutLanguage)) == multiset(Map(nodes, WithoutLanguage))
    ensures multiset(builtEdges) == multiset(edges)
  {
    P.LoadLinearizesAtMarkerRead(c, run, i, j, k);
    DigestBinds(z, builtNodes, builtEdges, nodes, edges);
  }

  /** What a summary says about a report: how many files there are, included and excluded, how many
      violations were recorded, and which report, identity and graph it speaks of. */
  ghost predicate Describes(c: P.Codec, s: P.Summary, report: Report) {
    && s.totalFiles == |report.files|
    && s.includedFiles == |Filter(report.files, IncludedRole)|
    && s.excludedFiles == |Filter(report.files, ExcludedRole)|
    && s.violationCount == |report.violations|
    && (s.ready <==> report.violations == [])
    && s.reportDigest == report.digest
    && s.graphSnapshotDigest == report.graphSnapshotDigest
    && s.reportIdentityDigest == c.identityDigest(report.identity)
  }

  /** A load that succeeds while publishers and mutators are at work describes the report that was
      published when it read the marker. */
  lemma LoadedSummaryDescribes(
      c: P.Codec, d: Derived, run: Run<P.Sys, P.Step>, i: nat, j: nat, k: nat, raw: Report)
    requires c.Lawful() && P.IsRun(c, run)
    requires i < |run.states| && j < |run.states| && k < |run.states|
    requires P.LoadAcross(c, run, i, j, k).Ok?
    requires run.states[j].current.Some? ==> run.states[j].current.value.report == Finalized(d, raw)
    ensures run.states[j].current.Some?
    ensures Describes(c, P.LoadAcross(c, run, i, j, k).value, run.states[j].current.value.report)
  {
    P.LoadLinearizesAtMarkerRead(c, run, i, j, k);
    SummaryCountsExactly(Finalized(d, raw).summary, Finalized(d, raw).files);
  }

  /** So does a runtime load. */
  lemma RuntimeSummaryDescribes(
      c: P.Codec, d: Derived, z: Serializer, run: Run<P.Sys, P.Step>, i: nat, j: nat, k: nat,
      raw: Report, identity: ReportIdentity, nodes: seq<Node>, edges: seq<Edge>)
    requires c.Lawful() && P.IsRun(c, run)
    requires i < |run.states| && j < |run.states| && k < |run.states|
    requires LoadRuntime(c, z, P.LoadAcross(c, run, i, j, k), identity, nodes, edges).Ok?
    requires run.states[j].current.Some? ==> run.states[j].current.value.report == Finalized(d, raw)
    ensures run.states[j].current.Some?
    ensures Describes(c, LoadRuntime(c, z, P.LoadAcross(c, run, i, j, k), identity, nodes, edges).value,
                      run.states[j].current.value.report)
  {
    LoadedSummaryDescribes(c, d, run, i, j, k, raw);
  }

  lemma NoEvidenceNeeded(files: seq<FileRecord>)
    ensures EvidenceReady(files, []) <==> !AnyIncluded(files)
  {
    if AnyIncluded(files) {
      var file :| file in files && file.role.IsIncluded();
      assert !CoveredOnce(file, []);
    }
  }

  /** Canonicalising leaves roles alone. */
  lemma SameInclusion(d: Derived, files: seq<FileRecord>)
    ensures AnyIncluded(CanonicalFiles(d, files)) <==> AnyIncluded(files)
  {
    var mapped := Map(files, FileCanonicalizer(d));
    SortPermutes(mapped, d.fileLe);
    SameElements(Sort(mapped, d.fileLe), mapped);
    var excluded := (file: FileRecord) => !file.role.IsIncluded();
    EachIffEach(files, FileCanonicalizer(d), excluded, excluded);
    assert AnyIncluded(mapped) <==> !forall m | m in mapped :: excluded(m);
    assert AnyIncluded(files) <==> !forall file | file in files :: excluded(file);
  }

  /** What a finalised report without violations lacks for the readiness gate. */
  lemma CleanAgainstGate(d: Derived, raw: Report, expected: ReportIdentity)
    ensures var r := Finalized(d, raw);
            GateReady(d, r, expected) <==>
            && r.violations == [] && raw.identity == expected
            && expected.schemaVersion == LSP_COMPLETENESS_SCHEMA_VERSION
            && (raw.evidence != [] || !AnyIncluded(raw.files))
  {
    var r := Finalized(d, raw);
    FinalizedReadiness(d, raw);
    GateExact(d, r, expected);
    SameInclusion(d, raw.files);
    SortPermutes(Map(raw.evidence, CanonicalEvidence), d.evidenceLe);
    NoEvidenceNeeded(r.files);
  }

  /** What READY in a summary loaded without a lock is worth: the files of the published report
      are ready, and so is its evidence, if it carries any. So a READY is as good as the verdict of
      the full readiness gate on that report, except where the report has an included file and no
      evidence at all (or an outdated schema). */
  lemma ReadyIsEarned(
      c: P.Codec, d: Derived, z: Serializer, run: Run<P.Sys, P.Step>, i: nat, j: nat, k: nat,
      raw: Report, identity: ReportIdentity, nodes: seq<Node>, edges: seq<Edge>)
    requires c.Lawful() && P.IsRun(c, run)
    requires i < |run.states| && j < |run.states| && k < |run.states|
    requires LoadRuntime(c, z, P.LoadAcross(c, run, i, j, k), identity, nodes, edges).Ok?
    requires run.states[j].current.Some? ==> run.states[j].current.value.report == Finalized(d, raw)
    ensures run.states[j].current.Some?
    ensures var report := run.states[j].current.value.report;
            var ready := LoadRuntime(c, z, P.LoadAcross(c, run, i, j, k), identity, nodes, edges).value.ready;
            && (ready <==> FilesReady(report.files) && (raw.evidence == [] || EvidenceReady(report.files, report.evidence)))
            && (GateReady(d, report, identity) <==>
                && ready && identity.schemaVersion == LSP_COMPLETENESS_SCHEMA_VERSION
                && (raw.evidence != [] || !AnyIncluded(raw.files)))
  {
    P.LoadLinearizesAtMarkerRead(c, run, i, j, k);
    FinalizedReadiness(d, raw);
    CleanAgainstGate(d, raw, identity);
  }
}

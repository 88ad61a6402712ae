/** Publications that a summary or its last check cannot tell from better ones. */
module PublicationWitness {
  import opened Wrappers
  import opened Sorting
  import opened Text
  import opened Utf8
  import opened TerminatedText
  import opened ReportModel
  import opened Evaluation
  import opened EvidenceEvaluation
  import opened CompletenessReport
  import opened FinalizeMeaning
  import opened GraphModel
  import opened GraphSnapshot
  import opened Runs
  import opened RuntimeReadiness
  import opened ReportIdentityCheck
  import opened PublicationCodec
  import P = Publication

  // ---- READY without evidence ----

  /** Whatever the serialisation: once a report is published that is clean but has an included file
      and no evidence, a runtime of that identity and graph loads READY, and the gate refuses the
      very report that is on disk. */
  lemma PublishedWithoutEvidence(
      c: P.Codec, d: Derived, z: Serializer, s: P.Sys, p: P.Proc, raw: Report, mtime: nat, nodes: seq<Node>, edges: seq<Edge>)
    returns (run: Run<P.Sys, P.Step>, i: nat)
    requires c.Lawful() && P.Initial(s) && Committable(c, Finalized(d, raw), mtime)
    requires BuiltFrom(d, z, Finalized(d, raw), raw, nodes, edges)
    requires Finalized(d, raw).violations == [] && raw.evidence == [] && AnyIncluded(raw.files)
    ensures P.IsRun(c, run) && run.states[0] == s && i < |run.states|
    ensures run.states[i].current.Some? && run.states[i].current.value.report == Finalized(d, raw)
    ensures run.states[i].disk.report == Some(P.ReportFileOf(c, Finalized(d, raw), mtime))
    ensures LoadRuntime(c, z, P.LoadAcross(c, run, i, i, i), raw.identity, nodes, edges)
            == Ok(P.FromReport(c, Finalized(d, raw)))
    ensures P.FromReport(c, Finalized(d, raw)).ready && !GateReady(d, Finalized(d, raw), raw.identity)
  {
    var r := Finalized(d, raw);
    run := CommitRun(c, s, p, r, mtime);
    i := |run.steps|;
    CommittedReadsBack(c, r, mtime);
    P.LoadLinearizesAtMarkerRead(c, run, i, i, i);
    RunKeepsAllowed(c, (x, m) => x == r && m == mtime, run, i);
    CleanAgainstGate(d, raw, raw.identity);
  }

  // ---- small reports ----

  predicate Hex64(s: string) {
    |s| == 64 && IsAscii(s)
  }

  ghost predicate HexDigests(d: Derived) {
    forall payload :: Hex64(d.digest(payload))
  }

  const SAMPLE_IDENTITY := ReportIdentity(LSP_COMPLETENESS_SCHEMA_VERSION, "", "", "", "", 0, "", "")

  /** A report of one ready file, without evidence. */
  function SampleRaw(graph: string, path: string): Report {
    Report(SAMPLE_IDENTITY, graph, [PlainFile(path)], [], map[], EMPTY_SUMMARY, [], "")
  }

  ghost function Sample(d: Derived, graph: string, path: string): Report {
    Finalized(d, SampleRaw(graph, path))
  }

  predicate Letter(path: string) {
    |path| == 1 && 'a' <= path[0] <= 'z'
  }

  lemma SampleFiles(d: Derived, graph: string, path: string)
    requires Letter(path)
    ensures Map(Sample(d, graph, path).files, PathOf) == [path]
  {
    LetterPath(path, path[0]);
    var file := PlainFile(path);
    assert Map([file], FileCanonicalizer(d)) == [CanonicalFile(d, file)];
    assert Sort([CanonicalFile(d, file)], d.fileLe) == [CanonicalFile(d, file)];
  }

  lemma SampleClean(d: Derived, graph: string, path: string)
    requires Letter(path)
    ensures Sample(d, graph, path).violations == []
  {
    LetterPath(path, path[0]);
    PlainFileReady(path);
    OneReadyFile(PlainFile(path));
    FinalizedVerdict(d, SampleRaw(graph, path));
  }

  lemma HexShort(s: string)
    requires Hex64(s)
    ensures Short(s) && |Encode(s)| == 64
  {
    EncodeAscii(s);
  }

  lemma SampleIdentityShort()
    ensures Short(IdentityText(SAMPLE_IDENTITY))
  {
    var fields := IdentityFields(SAMPLE_IDENTITY);
    assert Decimal(6) == "6" && Decimal(0) == "0";
    assert Terminate(fields) == [54, 0xFF, 0xFF, 0xFF, 0xFF, 0xFF, 48, 0xFF, 0xFF, 0xFF];
    CharsLength(Terminate(fields));
  }

  /** A report of one file, with nothing long in it. */
  ghost predicate Small(r: Report, path: string) {
    && r.identity == SAMPLE_IDENTITY && Hex64(r.graphSnapshotDigest) && Hex64(r.digest)
    && r.summary.totalFiles < 10 && r.summary.includedFiles < 10 && r.summary.excludedFiles < 10
    && r.violations == [] && Map(r.files, PathOf) == [path] && Letter(path)
  }

  lemma SampleSmall(d: Derived, graph: string, path: string)
    requires HexDigests(d) && Hex64(graph) && Letter(path)
    ensures Small(Sample(d, graph, path), path)
  {
    var r := Sample(d, graph, path);
    SampleFiles(d, graph, path);
    SampleClean(d, graph, path);
    assert |Map(r.files, PathOf)| == |r.files|;
    SummaryBalances(r.files);
  }

  lemma SmallSummaryFile(r: Report, path: string)
    requires Small(r, path)
    ensures |P.SummaryFileOf(PlainCodec(), r)| <= 586
  {
    HexShort(r.digest);
    HexShort(r.graphSnapshotDigest);
    SampleIdentityShort();
    SmallSummaryLength(P.FromReport(PlainCodec(), r));
  }

  lemma LetterLength(path: string)
    requires Letter(path)
    ensures |Encode(path)| == 1
  {
    EncodeAscii(path);
  }

  lemma SmallReport(r: Report, path: string)
    requires Small(r, path)
    ensures ReportFields(r) == [r.graphSnapshotDigest, r.digest, path]
    ensures |EncodeReport(r)| <= 195
  {
    HexShort(r.digest);
    HexShort(r.graphSnapshotDigest);
    LetterLength(path);
    ShortLength(ReportFields(r));
  }

  lemma SmallMarker(r: Report, path: string, bytes: nat, mtime: nat)
    requires Small(r, path) && bytes < 1000 && Short(Decimal(mtime))
    ensures |EncodeMarker(P.MarkerOf(PlainCodec(), r, bytes, mtime))| < P.MAX_COMMIT_BYTES
  {
    SmallSummaryFile(r, path);
    assert PowerOfTen(3) == 1000;
    DecimalDigits(bytes, 3);
    DecimalAscii(bytes);
    HexShort(r.digest);
    MarkerLength(P.MarkerOf(PlainCodec(), r, bytes, mtime), P.SummaryFileOf(PlainCodec(), r));
  }

  lemma SmallCommittable(r: Report, path: string, mtime: nat)
    requires Small(r, path) && Short(Decimal(mtime))
    ensures Committable(PlainCodec(), r, mtime)
  {
    SmallSummaryFile(r, path);
    SmallReport(r, path);
    SmallMarker(r, path, |P.ReportFileOf(PlainCodec(), r, mtime).bytes|, mtime);
  }

  lemma SampleIncluded(path: string)
    ensures AnyIncluded([PlainFile(path)])
  {
    assert PlainFile(path) in [PlainFile(path)] && PlainFile(path).role.IsIncluded();
  }

  /** READY is said of a report that is not ready: one file, processed in every respect, and nothing
      to prove it by. The time has at most 64 digits; a 128-bit one has 39. */
  lemma ReadyWithoutEvidence(d: Derived, z: Serializer, nodes: seq<Node>, edges: seq<Edge>, mtime: nat)
    returns (run: Run<P.Sys, P.Step>, i: nat)
    requires HexDigests(d) && Hex64(GraphDigest(z, nodes, edges)) && Short(Decimal(mtime))
    ensures PlainCodec().Lawful() && P.IsRun(PlainCodec(), run) && i < |run.states|
    ensures var report := Sample(d, GraphDigest(z, nodes, edges), "a");
            && run.states[i].disk.report == Some(P.ReportFileOf(PlainCodec(), report, mtime))
            && LoadRuntime(PlainCodec(), z, P.LoadAcross(PlainCodec(), run, i, i, i), SAMPLE_IDENTITY, nodes, edges).Ok?
            && LoadRuntime(PlainCodec(), z, P.LoadAcross(PlainCodec(), run, i, i, i), SAMPLE_IDENTITY, nodes, edges).value.ready
            && FilesReady(report.files) && !EvidenceReady(report.files, report.evidence)
            && !GateReady(d, report, SAMPLE_IDENTITY)
  {
    var graph := GraphDigest(z, nodes, edges);
    var raw := SampleRaw(graph, "a");
    PlainCodecLawful();
    SampleSmall(d, graph, "a");
    SmallCommittable(Sample(d, graph, "a"), "a", mtime);
    SampleClean(d, graph, "a");
    SampleIncluded("a");
    run, i := PublishedWithoutEvidence(PlainCodec(), d, z, EMPTY_SYSTEM, 0, raw, mtime, nodes, edges);
    UnprovenFiles(d, raw);
  }

  lemma UnprovenFiles(d: Derived, raw: Report)
    requires Finalized(d, raw).violations == [] && raw.evidence == [] && AnyIncluded(raw.files)
    ensures var r := Finalized(d, raw); FilesReady(r.files) && !EvidenceReady(r.files, r.evidence)
  {
    var r := Finalized(d, raw);
    FinalizedReadiness(d, raw);
    SameInclusion(d, raw.files);
    SortPermutes(Map(raw.evidence, CanonicalEvidence), d.evidenceLe);
    NoEvidenceNeeded(r.files);
  }

  // ---- a replacement that goes unnoticed ----

  /** Two such reports of different files have different texts of one length. */
  lemma SmallAlike(a: Report, b: Report, mtime: nat)
    requires Small(a, "a") && Small(b, "b")
    ensures P.ReportFileOf(PlainCodec(), a, mtime) != P.ReportFileOf(PlainCodec(), b, mtime)
    ensures P.Stat(Some(P.ReportFileOf(PlainCodec(), a, mtime))) == P.Stat(Some(P.ReportFileOf(PlainCodec(), b, mtime)))
  {
    SmallReport(a, "a");
    SmallReport(b, "b");
    SameLengths(a, b);
    if P.Line(EncodeReport(a)) == P.Line(EncodeReport(b)) {
      assert EncodeReport(a) == P.Line(EncodeReport(a))[..|EncodeReport(a)|] == EncodeReport(b);
      TerminateInjective(ReportFields(a), ReportFields(b));
    }
  }

  lemma SameLengths(a: Report, b: Report)
    requires Small(a, "a") && Small(b, "b")
    ensures |EncodeReport(a)| == |EncodeReport(b)|
  {
    SmallReport(a, "a");
    SmallReport(b, "b");
    HexShort(a.digest);
    HexShort(b.digest);
    HexShort(a.graphSnapshotDigest);
    HexShort(b.graphSnapshotDigest);
    LetterLength("a");
    LetterLength("b");
    SameLength(ReportFields(a), ReportFields(b));
  }

  /** A report of the file `a` is committed, and a load that reads its summary and marker succeeds on
      a report of the file `b`, written with the same length at the same time. */
  lemma ReplacedUnnoticed(d: Derived, graph: string, mtime: nat) returns (run: Run<P.Sys, P.Step>, i: nat, k: nat)
    requires HexDigests(d) && Hex64(graph) && Short(Decimal(mtime))
    ensures PlainCodec().Lawful() && P.IsRun(PlainCodec(), run) && i <= k < |run.states|
    ensures run.states[i].disk.report == Some(P.ReportFileOf(PlainCodec(), Sample(d, graph, "a"), mtime))
    ensures run.states[k].disk.report == Some(P.ReportFileOf(PlainCodec(), Sample(d, graph, "b"), mtime))
    ensures run.states[i].disk.report != run.states[k].disk.report
    ensures P.LoadAcross(PlainCodec(), run, i, i, k).Ok?
  {
    PlainCodecLawful();
    var a, b := Sample(d, graph, "a"), Sample(d, graph, "b");
    SampleSmall(d, graph, "a");
    SampleSmall(d, graph, "b");
    SmallCommittable(a, "a", mtime);
    SmallCommittable(b, "b", mtime);
    SmallAlike(a, b, mtime);
    run, i, k := ReplacementNoticedExactly(PlainCodec(), EMPTY_SYSTEM, 0, a, mtime, b, mtime);
  }
}

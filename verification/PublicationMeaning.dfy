/** What the publisher writes, step by step, and what a load accepts, in bytes, fields and limits. */
module PublicationMeaning {
  import opened Wrappers
  import opened Utf8
  import opened ReportModel
  import opened GraphModel
  import opened GraphSnapshot
  import opened RuntimeReadiness
  import P = Publication

  // ---- what is written ----

  /** The summary of a report, field by field. */
  predicate Summarizes(c: P.Codec, s: P.Summary, r: Report) {
    && s.schemaVersion == 3 && (s.ready <==> r.violations == []) && s.violationCount == |r.violations|
    && s.totalFiles == r.summary.totalFiles
    && s.includedFiles == r.summary.includedFiles
    && s.excludedFiles == r.summary.excludedFiles
    && s.reportDigest == r.digest && s.graphSnapshotDigest == r.graphSnapshotDigest
    && s.reportIdentityDigest == c.identityDigest(r.identity)
  }

  /** The marker that commits these files, field by field. */
  predicate Commits(c: P.Codec, m: P.Marker, summaryBytes: seq<Byte>, r: Report, report: P.ReportFile) {
    && m.schemaVersion == 3 && m.summarySha256 == c.sha256(summaryBytes) && m.reportDigest == r.digest
    && m.reportBytes == |report.bytes| && m.reportModified == report.mtime
  }

  /** The files a publication of `r` writes: the report, its summary and the marker, a line each. */
  ghost predicate Writes(c: P.Codec, r: Report, mtime: nat, s: P.Summary, m: P.Marker, report: P.ReportFile, summary: seq<Byte>, marker: seq<Byte>) {
    && Summarizes(c, s, r) && report == P.ReportFile(c.encodeReport(r) + [0x0A], mtime)
    && summary == c.encodeSummary(s) + [0x0A]
    && Commits(c, m, summary, r, report)
    && marker == c.encodeMarker(m) + [0x0A]
  }

  lemma WritesThese(c: P.Codec, r: Report, mtime: nat)
    returns (s: P.Summary, m: P.Marker, report: P.ReportFile, summary: seq<Byte>, marker: seq<Byte>)
    ensures Writes(c, r, mtime, s, m, report, summary, marker)
    ensures s == P.FromReport(c, r) && report == P.ReportFileOf(c, r, mtime) && summary == P.SummaryFileOf(c, r)
    ensures m == P.MarkerOf(c, r, |report.bytes|, mtime) && marker == P.Line(c.encodeMarker(m))
  {
    s := P.FromReport(c, r);
    report := P.ReportFileOf(c, r, mtime);
    summary := P.SummaryFileOf(c, r);
    m := P.MarkerOf(c, r, |report.bytes|, mtime);
    marker := P.Line(c.encodeMarker(m));
  }

  /** The disk after the first `ops` file operations of a publication: the marker goes, the summary
      goes, the report is replaced, the summary is put in place, the report is examined, and last the
      marker is put in place. A summary of 4 KiB stops it before the first, a marker of 2 KiB before
      the last. */
  function DiskAfter(d: P.Disk, ops: nat, report: P.ReportFile, summary: seq<Byte>, marker: seq<Byte>): P.Disk {
    if |summary| > 4096 || ops == 0 then d
    else if ops == 1 then P.Disk(d.report, d.summary, None)
    else if ops == 2 then P.Disk(d.report, None, None)
    else if ops == 3 then P.Disk(Some(report), None, None)
    else if ops <= 5 || |marker| > 2048 then P.Disk(Some(report), Some(summary), None)
    else P.Disk(Some(report), Some(summary), Some(marker))
  }

  lemma AdvancesOnce(c: P.Codec, r: Report, mtime: nat, stage: P.Stage, d: P.Disk, ops: nat)
    requires ops > 0
    ensures P.Advances(c, r, mtime, stage, d, ops) ==
            match P.Advance(c, r, mtime, stage, d)
            case None => (stage, d)
            case Some((stage', d')) => P.Advances(c, r, mtime, stage', d', ops - 1)
  {
  }

  lemma StopsAtCommitted(c: P.Codec, r: Report, mtime: nat, d: P.Disk, ops: nat)
    ensures P.Advances(c, r, mtime, P.Committed, d, ops) == (P.Committed, d)
  {
  }

  /** After the report has been replaced. */
  lemma AfterReport(c: P.Codec, r: Report, mtime: nat, ops: nat)
    requires ops >= 3
    ensures var report, summary := P.ReportFileOf(c, r, mtime), P.SummaryFileOf(c, r);
            var marker := P.Line(c.encodeMarker(P.MarkerOf(c, r, |report.bytes|, mtime)));
            var (stage, d) := P.Advances(c, r, mtime, P.ReportInstalled, P.Disk(Some(report), None, None), ops - 3);
            && d == (if ops == 3 then P.Disk(Some(report), None, None)
                     else if ops <= 5 || |marker| > 2048 then P.Disk(Some(report), Some(summary), None)
                     else P.Disk(Some(report), Some(summary), Some(marker)))
            && (stage == P.Committed <==> ops >= 6 && |marker| <= 2048)
  {
    var report, summary := P.ReportFileOf(c, r, mtime), P.SummaryFileOf(c, r);
    var bytes := |report.bytes|;
    var marker := P.Line(c.encodeMarker(P.MarkerOf(c, r, bytes, mtime)));
    if ops > 3 {
      AdvancesOnce(c, r, mtime, P.ReportInstalled, P.Disk(Some(report), None, None), ops - 3);
      var d := P.Disk(Some(report), Some(summary), None);
      if ops > 4 {
        AdvancesOnce(c, r, mtime, P.SummaryInstalled, d, ops - 4);
        if ops > 5 {
          AdvancesOnce(c, r, mtime, P.Stated(bytes, mtime), d, ops - 5);
          StopsAtCommitted(c, r, mtime, P.Disk(Some(report), Some(summary), Some(marker)), ops - 6);
        }
      }
    }
  }

  /** The publisher, interrupted after any number of operations. */
  lemma PublishingMeans(c: P.Codec, r: Report, mtime: nat, d: P.Disk, ops: nat)
    ensures exists s, m, report, summary, marker ::
              && Writes(c, r, mtime, s, m, report, summary, marker)
              && P.Advances(c, r, mtime, P.Locked, d, ops).1 == DiskAfter(d, ops, report, summary, marker)
              && (P.Advances(c, r, mtime, P.Locked, d, ops).0 == P.Committed <==>
                  ops >= 6 && |summary| <= 4096 && |marker| <= 2048)
  {
    var s, m, report, summary, marker := WritesThese(c, r, mtime);
    if ops > 0 && |summary| <= 4096 {
      AdvancesOnce(c, r, mtime, P.Locked, d, ops);
      var d1 := P.Disk(d.report, d.summary, None);
      if ops > 1 {
        AdvancesOnce(c, r, mtime, P.MarkerGone, d1, ops - 1);
        var d2 := P.Disk(d.report, None, None);
        if ops > 2 {
          AdvancesOnce(c, r, mtime, P.SummaryGone, d2, ops - 2);
          AfterReport(c, r, mtime, ops);
        }
      }
    } else if ops > 0 {
      AdvancesOnce(c, r, mtime, P.Locked, d, ops);
    }
  }

  // ---- what processes can do ----

  /** The lock is there for whoever finds it free, and a job begins with it. */
  lemma AcquireMeans(c: P.Codec, s: P.Sys, p: P.Proc, r: Report, mtime: nat)
    ensures P.Apply(c, s, P.AcquireToPublish(p, r, mtime)) ==
            if s.lock.Some? then None
            else Some(P.Sys(s.disk, s.graph, Some(p), s.jobs[p := P.Publishing(r, mtime, P.Locked)], s.current))
    ensures P.Apply(c, s, P.AcquireToMutate(p)) ==
            if s.lock.Some? then None
            else Some(P.Sys(s.disk, s.graph, Some(p), s.jobs[p := P.Mutating(false)], s.current))
  {
  }

  /** A mutator may remove the marker at any time and change the graph once it has; neither touches
      anything else. */
  lemma MutatorMeans(c: P.Codec, s: P.Sys, p: P.Proc, graph: P.Graph)
    ensures P.Apply(c, s, P.Invalidate(p)) ==
            if p !in s.jobs || !s.jobs[p].Mutating? then None
            else Some(P.Sys(P.Disk(s.disk.report, s.disk.summary, None), s.graph, s.lock, s.jobs[p := P.Mutating(true)], None))
    ensures P.Apply(c, s, P.MutateGraph(p, graph)) ==
            if p in s.jobs && s.jobs[p].Mutating? && s.jobs[p].invalidated
            then Some(P.Sys(s.disk, graph, s.lock, s.jobs, s.current)) else None
  {
  }

  /** A job may end at any time: its lock is free again, and the disk stays as it is. */
  lemma ExitMeans(c: P.Codec, s: P.Sys, p: P.Proc)
    ensures P.Apply(c, s, P.Exit(p)).Some? <==> p in s.jobs
    ensures p in s.jobs ==>
              var t := P.Apply(c, s, P.Exit(p)).value;
              && t.disk == s.disk && t.graph == s.graph && t.current == s.current && t.jobs == s.jobs - {p}
              && t.lock == if s.lock == Some(p) then None else s.lock
  {
  }

  // ---- what is loaded ----

  /** The three files agree, within their limits, on this summary. */
  ghost predicate Agree(c: P.Codec, summaryFile: Option<seq<Byte>>, markerFile: Option<seq<Byte>>, report: Option<P.ReportFile>, s: P.Summary) {
    && summaryFile.Some? && |summaryFile.value| <= 4096 && c.decodeSummary(summaryFile.value) == Some(s) && s.schemaVersion == 3
    && markerFile.Some? && |markerFile.value| <= 2048 && c.decodeMarker(markerFile.value).Some?
    && var m := c.decodeMarker(markerFile.value).value;
       && m.schemaVersion == 3 && m.summarySha256 == c.sha256(summaryFile.value) && m.reportDigest == s.reportDigest
       && report.Some? && m.reportBytes == |report.value.bytes| && m.reportModified == report.value.mtime
  }

  lemma LoadMeans(c: P.Codec, summaryFile: Option<seq<Byte>>, markerFile: Option<seq<Byte>>, report: Option<P.ReportFile>)
    ensures forall s :: P.Load(c, summaryFile, markerFile, report) == Ok(s) <==> Agree(c, summaryFile, markerFile, report, s)
  {
  }

  /** A file that is there and within its limit, as the value it decodes to. */
  function Decoded<T>(file: Option<seq<Byte>>, limit: nat, decode: seq<Byte> -> Option<T>): Option<T> {
    if file.Some? && |file.value| <= limit then decode(file.value) else None
  }

  /** What is wrong with a file that should decode to a value of this schema; None if nothing is. */
  function Flaw(file: Option<seq<Byte>>, limit: nat, schema: Option<nat>): Option<P.LoadError> {
    if file.None? || |file.value| > limit then Some(P.MissingOrOversize)
    else
      match schema
      case None => Some(P.Unparsable)
      case Some(n) => if n == 3 then None else Some(P.WrongSchema)
  }

  function SummarySchema(s: Option<P.Summary>): Option<nat> {
    match s
    case None => None
    case Some(summary) => Some(summary.schemaVersion)
  }

  function MarkerSchema(m: Option<P.Marker>): Option<nat> {
    match m
    case None => None
    case Some(marker) => Some(marker.schemaVersion)
  }

  /** A load stops with the first flaw of the summary, else of the marker, else with the first
      disagreement: about the summary's hash, the report's digest, its length and time. */
  lemma LoadErrorMeans(c: P.Codec, summaryFile: Option<seq<Byte>>, markerFile: Option<seq<Byte>>, report: Option<P.ReportFile>)
    requires P.Load(c, summaryFile, markerFile, report).Err?
    ensures var s, m := Decoded(summaryFile, 4096, c.decodeSummary), Decoded(markerFile, 2048, c.decodeMarker);
            var inSummary, inMarker := Flaw(summaryFile, 4096, SummarySchema(s)), Flaw(markerFile, 2048, MarkerSchema(m));
            P.Load(c, summaryFile, markerFile, report).error ==
            if inSummary.Some? then inSummary.value
            else if inMarker.Some? then inMarker.value
            else if m.value.summarySha256 != c.sha256(summaryFile.value) then P.SummaryHashDiffers
            else if m.value.reportDigest != s.value.reportDigest then P.ReportDigestDiffers
            else P.ReportStatDiffers
  {
  }

  /** On top of that a runtime checks first its identity and then its graph. */
  lemma RuntimeLoadMeans(c: P.Codec, z: Serializer, loaded: Result<P.Summary, P.LoadError>,
                         identity: ReportIdentity, nodes: seq<Node>, edges: seq<Edge>)
    ensures LoadRuntime(c, z, loaded, identity, nodes, edges) ==
            match loaded
            case Err(e) => Err(e)
            case Ok(s) =>
              if c.identityDigest(identity) != s.reportIdentityDigest then Err(P.RuntimeIdentityDiffers)
              else if GraphDigest(z, nodes, edges) == s.graphSnapshotDigest then Ok(s)
              else Err(P.RuntimeGraphDiffers)
  {
  }
}

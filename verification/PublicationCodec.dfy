/** A concrete serialisation of the three published files: the laws asked of a `Codec` can be met. */
module PublicationCodec {
  import opened Wrappers
  import opened Sorting
  import opened Text
  import opened Utf8
  import opened TerminatedText
  import opened ReportModel
  import opened Publication

  // ---- records as strings ----

  function SummaryFields(s: Summary): (fields: seq<string>)
    ensures |fields| == 9
  {
    [Decimal(s.schemaVersion), if s.ready then "r" else "", Decimal(s.totalFiles), Decimal(s.includedFiles),
     Decimal(s.excludedFiles), Decimal(s.violationCount), s.reportDigest, s.reportIdentityDigest, s.graphSnapshotDigest]
  }

  function MarkerFields(m: Marker): (fields: seq<string>)
    ensures |fields| == 5
  {
    [Decimal(m.schemaVersion), m.reportDigest, Decimal(m.reportBytes), Decimal(m.reportModified), m.summarySha256]
  }

  function IdentityFields(i: ReportIdentity): (fields: seq<string>)
    ensures |fields| == 8
  {
    [Decimal(i.schemaVersion), i.checkoutSha, i.configDigest, i.policyDigest, i.contextMode,
     Decimal(i.graphSchemaVersion), i.enrichmentGeneration, i.repository]
  }

  function PathOf(file: FileRecord): string {
    file.path
  }

  /** The report file names the graph, the digest of the report, and its files. */
  function ReportFields(r: Report): seq<string> {
    [r.graphSnapshotDigest, r.digest] + Map(r.files, PathOf)
  }

  lemma SummaryFieldsInjective(s: Summary, t: Summary)
    requires SummaryFields(s) == SummaryFields(t)
    ensures s == t
  {
    var f, g := SummaryFields(s), SummaryFields(t);
    assert f[0] == g[0] && f[1] == g[1] && f[2] == g[2] && f[3] == g[3] && f[4] == g[4];
    assert f[5] == g[5] && f[6] == g[6] && f[7] == g[7] && f[8] == g[8];
    DecimalInjective(s.schemaVersion, t.schemaVersion);
    DecimalInjective(s.totalFiles, t.totalFiles);
    DecimalInjective(s.includedFiles, t.includedFiles);
    DecimalInjective(s.excludedFiles, t.excludedFiles);
    DecimalInjective(s.violationCount, t.violationCount);
  }

  lemma MarkerFieldsInjective(m: Marker, n: Marker)
    requires MarkerFields(m) == MarkerFields(n)
    ensures m == n
  {
    var f, g := MarkerFields(m), MarkerFields(n);
    assert f[0] == g[0] && f[1] == g[1] && f[2] == g[2] && f[3] == g[3] && f[4] == g[4];
    DecimalInjective(m.schemaVersion, n.schemaVersion);
    DecimalInjective(m.reportBytes, n.reportBytes);
    DecimalInjective(m.reportModified, n.reportModified);
  }

  lemma IdentityFieldsInjective(i: ReportIdentity, j: ReportIdentity)
    requires IdentityFields(i) == IdentityFields(j)
    ensures i == j
  {
    var f, g := IdentityFields(i), IdentityFields(j);
    assert f[0] == g[0] && f[1] == g[1] && f[2] == g[2] && f[3] == g[3];
    assert f[4] == g[4] && f[5] == g[5] && f[6] == g[6] && f[7] == g[7];
    DecimalInjective(i.schemaVersion, j.schemaVersion);
    DecimalInjective(i.graphSchemaVersion, j.graphSchemaVersion);
  }

  // ---- the codec ----

  function EncodeSummary(s: Summary): seq<Byte> {
    Terminate(SummaryFields(s))
  }

  function EncodeMarker(m: Marker): seq<Byte> {
    Terminate(MarkerFields(m))
  }

  function EncodeReport(r: Report): seq<Byte> {
    Terminate(ReportFields(r))
  }

  function IdentityText(i: ReportIdentity): string {
    Chars(Terminate(IdentityFields(i)))
  }

  ghost function PlainCodec(): Codec {
    Codec(EncodeReport, EncodeSummary, ReadBack(EncodeSummary), EncodeMarker, ReadBack(EncodeMarker), Chars, IdentityText)
  }

  lemma SummariesReadBack(s: Summary)
    ensures ReadBack(EncodeSummary)(Line(EncodeSummary(s))) == Some(s)
  {
    forall a: Summary, b: Summary | EncodeSummary(a) == EncodeSummary(b) ensures a == b {
      TerminateInjective(SummaryFields(a), SummaryFields(b));
      SummaryFieldsInjective(a, b);
    }
    ReadsBack(EncodeSummary, s);
  }

  lemma MarkersReadBack(m: Marker)
    ensures ReadBack(EncodeMarker)(Line(EncodeMarker(m))) == Some(m)
  {
    forall a: Marker, b: Marker | EncodeMarker(a) == EncodeMarker(b) ensures a == b {
      TerminateInjective(MarkerFields(a), MarkerFields(b));
      MarkerFieldsInjective(a, b);
    }
    ReadsBack(EncodeMarker, m);
  }

  lemma IdentityTextInjective(i: ReportIdentity, j: ReportIdentity)
    requires IdentityText(i) == IdentityText(j)
    ensures i == j
  {
    CharsInjective(Terminate(IdentityFields(i)), Terminate(IdentityFields(j)));
    TerminateInjective(IdentityFields(i), IdentityFields(j));
    IdentityFieldsInjective(i, j);
  }

  lemma PlainCodecLawful()
    ensures PlainCodec().Lawful()
  {
    forall s ensures ReadBack(EncodeSummary)(Line(EncodeSummary(s))) == Some(s) { SummariesReadBack(s); }
    forall m ensures ReadBack(EncodeMarker)(Line(EncodeMarker(m))) == Some(m) { MarkersReadBack(m); }
    forall a, b | Chars(a) == Chars(b) ensures a == b { CharsInjective(a, b); }
    forall i, j | IdentityText(i) == IdentityText(j) ensures i == j { IdentityTextInjective(i, j); }
  }

  // ---- sizes ----

  predicate Short(s: string) {
    |Encode(s)| <= 64
  }

  predicate ShortFields(fields: seq<string>) {
    forall i | 0 <= i < |fields| :: Short(fields[i])
  }

  lemma {:induction false} ShortPrefix(fields: seq<string>, n: nat)
    requires ShortFields(fields) && n <= |fields|
    ensures Length(fields, n) <= 65 * n
  {
    if n > 0 {
      ShortPrefix(fields, n - 1);
    }
  }

  lemma ShortLength(fields: seq<string>)
    requires ShortFields(fields)
    ensures |Terminate(fields)| <= 65 * |fields|
  {
    WholeLength(fields);
    ShortPrefix(fields, |fields|);
  }

  lemma DigitShort(n: nat)
    requires n < 10
    ensures Short(Decimal(n))
  {
    DecimalAscii(n);
  }

  lemma NineShort(a: string, b: string, c: string, d: string, e: string, f: string, g: string, h: string, i: string)
    requires Short(a) && Short(b) && Short(c) && Short(d) && Short(e) && Short(f) && Short(g) && Short(h) && Short(i)
    ensures ShortFields([a, b, c, d, e, f, g, h, i])
  {
  }

  ghost predicate SmallSummary(s: Summary) {
    && s.schemaVersion < 10 && s.totalFiles < 10 && s.includedFiles < 10 && s.excludedFiles < 10 && s.violationCount < 10
    && Short(s.reportDigest) && Short(s.reportIdentityDigest) && Short(s.graphSnapshotDigest)
  }

  lemma ReadyFlagShort(ready: bool)
    ensures Short(if ready then "r" else "")
  {
    EncodeAscii(if ready then "r" else "");
  }

  lemma SmallSummaryLength(s: Summary)
    requires SmallSummary(s)
    ensures |EncodeSummary(s)| <= 585
  {
    DigitShort(s.schemaVersion);
    DigitShort(s.totalFiles);
    DigitShort(s.includedFiles);
    DigitShort(s.excludedFiles);
    DigitShort(s.violationCount);
    ReadyFlagShort(s.ready);
    var f := SummaryFields(s);
    NineShort(f[0], f[1], f[2], f[3], f[4], f[5], f[6], f[7], f[8]);
    assert f == [f[0], f[1], f[2], f[3], f[4], f[5], f[6], f[7], f[8]];
    ShortLength(f);
  }

  lemma FiveLength(a: string, b: string, c: string, d: string, summary: seq<Byte>)
    requires Short(a) && Short(b) && Short(c) && Short(d) && |summary| <= 586
    ensures |Terminate([a, b, c, d, Chars(summary)])| < MAX_COMMIT_BYTES
  {
    FlatMapConcat([a, b, c, d], [Chars(summary)], Terminated);
    assert [a, b, c, d] + [Chars(summary)] == [a, b, c, d, Chars(summary)];
    ShortLength([a, b, c, d]);
    CharsLength(summary);
  }

  lemma MarkerLength(m: Marker, summary: seq<Byte>)
    requires m.summarySha256 == Chars(summary) && |summary| <= 586 && m.schemaVersion < 10
    requires Short(m.reportDigest) && Short(Decimal(m.reportBytes)) && Short(Decimal(m.reportModified))
    ensures |EncodeMarker(m)| < MAX_COMMIT_BYTES
  {
    DigitShort(m.schemaVersion);
    FiveLength(Decimal(m.schemaVersion), m.reportDigest, Decimal(m.reportBytes), Decimal(m.reportModified), summary);
  }
}

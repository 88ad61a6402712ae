/** What canonicalising the evidence does to its readiness. */
module EvidenceMeaning {
  import opened Sorting
  import opened Text
  import opened RepoPath
  import opened ReportModel
  import opened Evaluation
  import opened EvidenceEvaluation
  import opened CompletenessReport

  // ---- lineage survives sorting ----

  lemma UpdateMerged<K, V>(a: map<K, V>, b: map<K, V>, k: K, v: V)
    ensures (a + b)[k := v] == a + b[k := v]
  {
  }

  lemma {:induction false} ProducersConcat(a: seq<ResultProducer>, b: seq<ResultProducer>)
    ensures ProducersByResult(a + b) == ProducersByResult(a) + ProducersByResult(b)
  {
    if b == [] {
      assert a + b == a;
    } else {
      var n := |b| - 1;
      ProducersConcat(a, b[..n]);
      UpdateMerged(ProducersByResult(a), ProducersByResult(b[..n]), b[n].resultId, b[n].producerIds);
      assert (a + b)[..|a + b| - 1] == a + b[..n];
    }
  }

  lemma ProducersCons(x: ResultProducer, s: seq<ResultProducer>)
    ensures ProducersByResult([x] + s) == map[x.resultId := x.producerIds] + ProducersByResult(s)
  {
    ProducersConcat([x], s);
    assert [x][..0] == [];
    assert ProducersByResult([x]) == map[x.resultId := x.producerIds];
  }

  lemma SwapOtherKey<K, V>(a: K, x: V, b: K, y: V, m: map<K, V>)
    requires a != b
    ensures map[a := x] + (map[b := y] + m) == map[b := y] + (map[a := x] + m)
  {
  }

  /** A stable sort does not change which entry of a result comes last. */
  lemma {:induction false} InsertKeepsLast(x: ResultProducer, s: seq<ResultProducer>)
    ensures ProducersByResult(Insert(x, s, ProducerLe)) == map[x.resultId := x.producerIds] + ProducersByResult(s)
  {
    if s == [] || ProducerLe(x, s[0]) {
      ProducersCons(x, s);
      assert s == [] ==> [x] + s == [x];
    } else {
      var y, rest := s[0], s[1..];
      StrLeTotal(x.resultId, x.resultId);
      InsertKeepsLast(x, rest);
      ProducersCons(y, Insert(x, rest, ProducerLe));
      ProducersCons(y, rest);
      assert s == [y] + rest;
      SwapOtherKey(x.resultId, x.producerIds, y.resultId, y.producerIds, ProducersByResult(rest));
    }
  }

  lemma {:induction false} SortKeepsLast(s: seq<ResultProducer>)
    ensures ProducersByResult(Sort(s, ProducerLe)) == ProducersByResult(s)
  {
    if s != [] {
      SortKeepsLast(s[1..]);
      InsertKeepsLast(s[0], Sort(s[1..], ProducerLe));
      ProducersCons(s[0], s[1..]);
      assert s == [s[0]] + s[1..];
    }
  }

  // ---- one record ----

  lemma TextsDistinct(texts: seq<string>)
    ensures var t := Dedup(Sort(texts, StrLe)); Distinct(t) && forall x :: x in t <==> x in texts
  {
    StrLeIsOrder();
    SortSorts(texts, StrLe);
    SortPermutes(texts, StrLe);
    SameElements(Sort(texts, StrLe), texts);
    DedupSortedDistinct(Sort(texts, StrLe), StrLe);
    DedupBasics(Sort(texts, StrLe));
  }

  lemma LineageByMap(record: FileEvidence)
    ensures EveryResultHasLineage(record) <==>
            forall id | id in record.resultIds ::
              id in ProducersByResult(record.resultProducers) && ProducersByResult(record.resultProducers)[id] != []
  {
    forall id | id in record.resultIds { LastLineage(record.resultProducers, id); }
  }

  lemma CanonicalLineage(e: FileEvidence)
    ensures EveryResultHasLineage(CanonicalEvidence(e)) <==> EveryResultHasLineage(e)
  {
    TextsDistinct(e.resultIds);
    SortKeepsLast(e.resultProducers);
    LineageByMap(e);
    LineageByMap(CanonicalEvidence(e));
  }

  /** Canonicalising forgives exactly repeated result ids. */
  lemma CanonicalRecordReady(d: Derived, file: FileRecord, e: FileEvidence)
    ensures RecordReady(CanonicalFile(d, file), CanonicalEvidence(e)) <==> Bound(file, e) && DispositionReady(e)
  {
    TextsDistinct(e.resultIds);
    CanonicalLineage(e);
  }

  // ---- one file ----

  ghost predicate CoversUpToSpellingAt(file: FileRecord, evidence: seq<FileEvidence>, i: int) {
    && 0 <= i < |evidence| && CanonicalPath(evidence[i].path) == CanonicalPath(file.path)
    && (forall j | 0 <= j < |evidence| && j != i :: CanonicalPath(evidence[j].path) != CanonicalPath(file.path))
    && Bound(file, evidence[i]) && DispositionReady(evidence[i])
  }

  /** Exactly one record sits at the file's path, however either path is spelled, and it is well
      formed for the file but for repeated result ids. */
  ghost predicate CoveredUpToSpelling(file: FileRecord, evidence: seq<FileEvidence>) {
    exists i :: CoversUpToSpellingAt(file, evidence, i)
  }

  lemma CanonicalCoversAt(d: Derived, file: FileRecord, evidence: seq<FileEvidence>, i: int)
    ensures CoversAt(CanonicalFile(d, file), Map(evidence, CanonicalEvidence), i) <==> CoversUpToSpellingAt(file, evidence, i)
  {
    var mapped := Map(evidence, CanonicalEvidence);
    assert forall j | 0 <= j < |evidence| :: mapped[j].path == CanonicalPath(evidence[j].path);
    if 0 <= i < |evidence| {
      CanonicalRecordReady(d, file, evidence[i]);
    }
  }

  lemma CanonicalCovered(d: Derived, file: FileRecord, evidence: seq<FileEvidence>)
    ensures CoveredOnce(CanonicalFile(d, file), Map(evidence, CanonicalEvidence)) <==> CoveredUpToSpelling(file, evidence)
  {
    var c, mapped := CanonicalFile(d, file), Map(evidence, CanonicalEvidence);
    forall i ensures CoversAt(c, mapped, i) <==> CoversUpToSpellingAt(file, evidence, i) {
      CanonicalCoversAt(d, file, evidence, i);
    }
  }

  // ---- order ----

  function AtPath(path: string): FileEvidence -> bool {
    (e: FileEvidence) => e.path == path
  }

  lemma {:induction false} RecordsAtIsFilter(evidence: seq<FileEvidence>, path: string)
    ensures RecordsAt(evidence, path) == Filter(evidence, AtPath(path))
  {
    if evidence != [] {
      var first, rest := [evidence[0]], evidence[1..];
      RecordsAtIsFilter(rest, path);
      assert evidence == first + rest;
      FilterConcat(first, rest, AtPath(path));
      assert first[..0] == [];
    }
  }

  lemma SingletonPermutation<T>(a: seq<T>, b: seq<T>)
    requires multiset(a) == multiset(b)
    ensures |a| == |b| && (|a| == 1 ==> a == b)
  {
    SameElements(a, b);
    if |a| == 1 {
      assert a[0] in a;
      assert a[0] in b;
    }
  }

  lemma CoveredPermutation(file: FileRecord, a: seq<FileEvidence>, b: seq<FileEvidence>)
    requires multiset(a) == multiset(b)
    ensures CoveredOnce(file, a) <==> CoveredOnce(file, b)
  {
    RecordsAtIsFilter(a, file.path);
    RecordsAtIsFilter(b, file.path);
    FilterPermutation(a, b, AtPath(file.path));
    SingletonPermutation(RecordsAt(a, file.path), RecordsAt(b, file.path));
    PathPass(file, a);
    PathPass(file, b);
  }

  // ---- the whole list ----

  predicate InInventoryUpToSpelling(files: seq<FileRecord>, path: string) {
    exists file | file in files :: file.role.IsIncluded() && CanonicalPath(file.path) == CanonicalPath(path)
  }

  /** Every included file is covered and no record lies outside the inventory, up to spelling. */
  ghost predicate EvidenceReadyUpToSpelling(files: seq<FileRecord>, evidence: seq<FileEvidence>) {
    && (forall file | file in files && file.role.IsIncluded() :: CoveredUpToSpelling(file, evidence))
    && (forall e | e in evidence :: InInventoryUpToSpelling(files, e.path))
  }

  lemma ReadyEvidencePermutation(files: seq<FileRecord>, a: seq<FileEvidence>, other: seq<FileRecord>, b: seq<FileEvidence>)
    requires multiset(files) == multiset(other) && multiset(a) == multiset(b)
    ensures EvidenceReady(files, a) <==> EvidenceReady(other, b)
  {
    SameElements(files, other);
    SameElements(a, b);
    forall file ensures CoveredOnce(file, a) <==> CoveredOnce(file, b) {
      CoveredPermutation(file, a, b);
    }
    assert forall path :: InInventory(files, path) <==> InInventory(other, path);
  }

  lemma CanonicalInventory(d: Derived, files: seq<FileRecord>, path: string)
    ensures InInventory(Map(files, FileCanonicalizer(d)), CanonicalPath(path)) <==> InInventoryUpToSpelling(files, path)
  {
    var mapped := Map(files, FileCanonicalizer(d));
    if file :| file in mapped && file.role.IsIncluded() && file.path == CanonicalPath(path) {
      var i :| 0 <= i < |mapped| && mapped[i] == file;
      assert files[i] in files && mapped[i] == CanonicalFile(d, files[i]);
    }
    if file :| file in files && file.role.IsIncluded() && CanonicalPath(file.path) == CanonicalPath(path) {
      var i :| 0 <= i < |files| && files[i] == file;
      assert mapped[i] in mapped && mapped[i] == CanonicalFile(d, file);
    }
  }

  lemma CanonicalEachCovered(d: Derived, files: seq<FileRecord>, evidence: seq<FileEvidence>)
    ensures (forall m | m in Map(files, FileCanonicalizer(d)) && m.role.IsIncluded() ::
               CoveredOnce(m, Map(evidence, CanonicalEvidence))) <==>
            (forall file | file in files && file.role.IsIncluded() :: CoveredUpToSpelling(file, evidence))
  {
    var canonical := Map(evidence, CanonicalEvidence);
    forall file ensures CoveredOnce(CanonicalFile(d, file), canonical) <==> CoveredUpToSpelling(file, evidence) {
      CanonicalCovered(d, file, evidence);
    }
    EachIffEach(files, FileCanonicalizer(d), (m: FileRecord) => m.role.IsIncluded() ==> CoveredOnce(m, canonical),
                (m: FileRecord) => m.role.IsIncluded() ==> CoveredUpToSpelling(m, evidence));
  }

  lemma CanonicalNoStray(d: Derived, files: seq<FileRecord>, evidence: seq<FileEvidence>)
    ensures (forall e | e in Map(evidence, CanonicalEvidence) :: InInventory(Map(files, FileCanonicalizer(d)), e.path)) <==>
            (forall e | e in evidence :: InInventoryUpToSpelling(files, e.path))
  {
    var mapped := Map(files, FileCanonicalizer(d));
    forall e: FileEvidence ensures InInventory(mapped, CanonicalEvidence(e).path) <==> InInventoryUpToSpelling(files, e.path) {
      CanonicalInventory(d, files, e.path);
    }
    EachIffEach(evidence, CanonicalEvidence, (e: FileEvidence) => InInventory(mapped, e.path),
                (e: FileEvidence) => InInventoryUpToSpelling(files, e.path));
  }

  /** The canonical evidence is ready for the canonical files exactly when the given evidence is
      ready for the given files up to spelling and repeated result ids. */
  lemma CanonicalEvidenceReady(d: Derived, files: seq<FileRecord>, evidence: seq<FileEvidence>)
    ensures EvidenceReady(CanonicalFiles(d, files), CanonicalEvidences(d, evidence)) <==>
            EvidenceReadyUpToSpelling(files, evidence)
  {
    var mapped, canonical := Map(files, FileCanonicalizer(d)), Map(evidence, CanonicalEvidence);
    SortPermutes(mapped, d.fileLe);
    SortPermutes(canonical, d.evidenceLe);
    ReadyEvidencePermutation(mapped, canonical, CanonicalFiles(d, files), CanonicalEvidences(d, evidence));
    CanonicalEachCovered(d, files, evidence);
    CanonicalNoStray(d, files, evidence);
  }

  // ---- what was ready stays ready ----

  /** Among files with valid, distinct paths, one spelling of a path belongs to one file. */
  lemma SpellingIdentifies(files: seq<FileRecord>, a: FileRecord, b: FileRecord)
    requires PathsValidAndUnique(files) && a in files && b in files && CanonicalPath(a.path) == CanonicalPath(b.path)
    ensures a == b
  {
    DistinctKeysIdentify(files, NormalizedPathOf, a, b);
  }

  lemma InventoryFile(files: seq<FileRecord>, file: FileRecord, path: string)
    requires PathsValidAndUnique(files) && file in files && InInventory(files, path)
    ensures CanonicalPath(path) == CanonicalPath(file.path) <==> path == file.path
  {
    if CanonicalPath(path) == CanonicalPath(file.path) {
      var other :| other in files && other.role.IsIncluded() && other.path == path;
      SpellingIdentifies(files, file, other);
    }
  }

  lemma CoverageSpelled(files: seq<FileRecord>, evidence: seq<FileEvidence>, file: FileRecord, i: int)
    requires PathsValidAndUnique(files) && file in files
    requires forall e | e in evidence :: InInventory(files, e.path)
    ensures CoversAt(file, evidence, i) <==> CoversUpToSpellingAt(file, evidence, i) && Distinct(evidence[i].resultIds)
  {
    forall j | 0 <= j < |evidence|
      ensures CanonicalPath(evidence[j].path) == CanonicalPath(file.path) <==> evidence[j].path == file.path
    {
      assert evidence[j] in evidence;
      InventoryFile(files, file, evidence[j].path);
    }
  }

  /** Of files with valid, distinct paths, evidence is ready exactly when it is ready up to
      spelling, spells every path as its file does and repeats no result id. */
  lemma ReadySpelledExactly(files: seq<FileRecord>, evidence: seq<FileEvidence>)
    requires PathsValidAndUnique(files)
    ensures EvidenceReady(files, evidence) <==>
            && EvidenceReadyUpToSpelling(files, evidence)
            && forall e | e in evidence :: InInventory(files, e.path) && Distinct(e.resultIds)
  {
    if forall e | e in evidence :: InInventory(files, e.path) {
      forall e | e in evidence ensures InInventoryUpToSpelling(files, e.path) {
        var file :| file in files && file.role.IsIncluded() && file.path == e.path;
      }
      if EvidenceReady(files, evidence) {
        ReadyMeansSpelled(files, evidence);
      }
      if EvidenceReadyUpToSpelling(files, evidence) && forall e | e in evidence :: Distinct(e.resultIds) {
        forall file | file in files && file.role.IsIncluded() ensures CoveredOnce(file, evidence) {
          var i :| CoversUpToSpellingAt(file, evidence, i);
          assert evidence[i] in evidence;
          CoverageSpelled(files, evidence, file, i);
        }
      }
    }
  }

  lemma ReadyMeansSpelled(files: seq<FileRecord>, evidence: seq<FileEvidence>)
    requires PathsValidAndUnique(files) && EvidenceReady(files, evidence)
    ensures forall file | file in files && file.role.IsIncluded() :: CoveredUpToSpelling(file, evidence)
    ensures forall e | e in evidence :: Distinct(e.resultIds)
  {
    forall file | file in files && file.role.IsIncluded() ensures CoveredUpToSpelling(file, evidence) {
      var i :| CoversAt(file, evidence, i);
      CoverageSpelled(files, evidence, file, i);
    }
    forall e | e in evidence ensures Distinct(e.resultIds) {
      var file :| file in files && file.role.IsIncluded() && file.path == e.path;
      var i :| CoversAt(file, evidence, i);
      var j :| 0 <= j < |evidence| && evidence[j] == e;
      assert j == i;
    }
  }
}

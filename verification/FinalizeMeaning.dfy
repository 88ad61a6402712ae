/** What finalising a report does to the readiness of its files. */
module FinalizeMeaning {
  import opened Wrappers
  import opened Sorting
  import opened Text
  import opened RepoPath
  import opened ReportModel
  import opened Evaluation
  import opened EvidenceEvaluation
  import opened CompletenessReport
  import opened EvidenceMeaning

  /** Readiness of files does not depend on their order. */
  lemma ReadyPermutation(files: seq<FileRecord>, other: seq<FileRecord>)
    requires multiset(files) == multiset(other)
    ensures FilesReady(files) <==> FilesReady(other)
  {
    SameElements(files, other);
    MapPermutation(files, other, NormalizedPathOf);
    DistinctPermutation(Map(files, NormalizedPathOf), Map(other, NormalizedPathOf));
  }

  lemma DedupSortElements<T(!new)>(s: seq<T>, le: (T, T) -> bool)
    ensures forall x :: x in Dedup(Sort(s, le)) <==> x in s
    ensures Dedup(Sort(s, le)) == [] <==> s == []
  {
    SortPermutes(s, le);
    SameElements(Sort(s, le), s);
    DedupBasics(Sort(s, le));
  }

  lemma CanonicalFileReady(d: Derived, file: FileRecord)
    ensures FileReady(CanonicalFile(d, file)) <==> FileReady(file)
  {
    var c := CanonicalFile(d, file);
    DedupSortElements(file.capabilities, d.capabilityLe);
    DedupSortElements(file.requests, d.requestLe);
    assert SomeCapability(c) <==> SomeCapability(file);
    assert forall r :: RequestCovered(c, r) <==> RequestCovered(file, r);
    assert forall kind :: HasCompletedProducer(c, kind) <==> HasCompletedProducer(file, kind);
  }

  lemma CanonicalPathValid(path: string)
    ensures Normalized(CanonicalPath(path)).Ok? <==> StablePath(path)
    ensures StablePath(path) ==> Normalized(CanonicalPath(path)) == Normalized(path)
  {
    if Normalized(path).Ok? {
      Renormalized(path);
    }
  }

  predicate StableFile(file: FileRecord) {
    StablePath(file.path)
  }

  lemma CanonicalPathsValid(d: Derived, files: seq<FileRecord>)
    ensures (forall m | m in Map(files, FileCanonicalizer(d)) :: Normalized(m.path).Ok?) <==>
            (forall file | file in files :: StableFile(file))
    ensures (forall file | file in files :: StableFile(file)) ==>
            Map(Map(files, FileCanonicalizer(d)), NormalizedPathOf) == Map(files, NormalizedPathOf)
  {
    var mapped := Map(files, FileCanonicalizer(d));
    forall i | 0 <= i < |files|
      ensures Normalized(mapped[i].path).Ok? <==> StableFile(files[i])
      ensures StableFile(files[i]) ==> NormalizedPathOf(mapped[i]) == NormalizedPathOf(files[i])
    {
      CanonicalPathValid(files[i].path);
    }
    EachIffEach(files, FileCanonicalizer(d), (m: FileRecord) => Normalized(m.path).Ok?, StableFile);
    if forall file | file in files :: StableFile(file) {
      forall i | 0 <= i < |files| ensures StableFile(files[i]) {
        assert files[i] in files;
      }
    }
  }

  lemma CanonicalEachReady(d: Derived, files: seq<FileRecord>)
    ensures (forall m | m in Map(files, FileCanonicalizer(d)) :: FileReady(m)) <==> (forall file | file in files :: FileReady(file))
  {
    forall file ensures FileReady(FileCanonicalizer(d)(file)) <==> FileReady(file) {
      CanonicalFileReady(d, file);
    }
    EachIffEach(files, FileCanonicalizer(d), (m: FileRecord) => FileReady(m), (m: FileRecord) => FileReady(m));
  }

  lemma CanonicalFilesReady(d: Derived, files: seq<FileRecord>)
    ensures FilesReady(Map(files, FileCanonicalizer(d))) <==>
            FilesReady(files) && forall file | file in files :: StableFile(file)
  {
    CanonicalPathsValid(d, files);
    CanonicalEachReady(d, files);
  }

  /** Finalising neither grants nor loses the readiness of files, except that a path such as
      `./C:/x`, which normalises to a drive prefix, is ready before and rejected after. */
  lemma FinalizePreservesReadiness(d: Derived, r: Report)
    ensures FilesReady(Finalized(d, r).files) <==>
            FilesReady(r.files) && forall file | file in r.files :: StableFile(file)
  {
    var mapped := Map(r.files, FileCanonicalizer(d));
    SortPermutes(mapped, d.fileLe);
    ReadyPermutation(Sort(mapped, d.fileLe), mapped);
    CanonicalFilesReady(d, r.files);
  }

  // ---- the whole verdict ----

  lemma JudgedReadiness(files: seq<FileRecord>, evidence: seq<FileEvidence>)
    ensures Judged(files, evidence) == [] <==> FilesReady(files) && (evidence == [] || EvidenceReady(files, evidence))
  {
    PassesDecideReadiness(files, evidence);
    NoFileViolations(files);
  }

  /** The verdict of a finalised report, said of the report that was given: its files are ready,
      none of their paths is a disguised drive path, and the evidence, if there is any, is ready up
      to the spelling of paths and repeated result ids. */
  lemma FinalizedVerdict(d: Derived, r: Report)
    ensures Finalized(d, r).violations == [] <==>
            && FilesReady(r.files) && (forall file | file in r.files :: StableFile(file))
            && (r.evidence == [] || EvidenceReadyUpToSpelling(r.files, r.evidence))
  {
    FinalizedReadiness(d, r);
    FinalizePreservesReadiness(d, r);
    CanonicalEvidenceReady(d, r.files, r.evidence);
  }

  /** A report that would be judged clean as it stands stays clean exactly when none of its paths
      is a disguised drive path. */
  lemma CleanStaysClean(d: Derived, r: Report)
    requires Judged(r.files, r.evidence) == []
    ensures Finalized(d, r).violations == [] <==> forall file | file in r.files :: StableFile(file)
  {
    JudgedReadiness(r.files, r.evidence);
    FinalizedVerdict(d, r);
    ReadySpelledExactly(r.files, r.evidence);
  }

  lemma OneReadyFile(file: FileRecord)
    requires FileReady(file) && Normalized(file.path).Ok?
    ensures FilesReady([file])
  {
    assert |Map([file], NormalizedPathOf)| == 1;
  }

  /** A report of one ready file at a disguised drive path is clean before finalising and not after. */
  lemma DisguisedDriveLosesReadiness(d: Derived, r: Report, file: FileRecord)
    requires r.files == [file] && r.evidence == []
    requires FileReady(file) && Normalized(file.path).Ok? && !StableFile(file)
    ensures Judged(r.files, r.evidence) == [] && Finalized(d, r).violations != []
  {
    OneReadyFile(file);
    JudgedReadiness(r.files, r.evidence);
    CleanStaysClean(d, r);
    assert file in r.files;
  }

  /** Such a file: an excluded asset at `./C:/x`. */
  function DriveFile(): FileRecord {
    FileRecord("./C:/x", ExcludedAsset, None, None, [], [], {}, {}, NO_RESULTS, Processed(0), Some(ExclusionReason(Asset, "x")))
  }

  lemma DriveFileIsReady()
    ensures FileReady(DriveFile())
  {
    var detail := DriveFile().exclusion.value.detail;
    assert detail[0] == 'x' && detail[0] in detail;
  }

  lemma DriveFileIsDisguised()
    ensures Normalized(DriveFile().path).Ok? && !StableFile(DriveFile())
  {
    DrivePathIsDisguised();
  }

  lemma DriveFileLosesReadiness(d: Derived, r: Report)
    requires r.files == [DriveFile()] && r.evidence == []
    ensures Judged(r.files, r.evidence) == [] && Finalized(d, r).violations != []
  {
    DriveFileIsReady();
    DriveFileIsDisguised();
    DisguisedDriveLosesReadiness(d, r, DriveFile());
  }

  // ---- readiness gained ----

  /** Evidence that is ready but for spelling or repeated ids is refused as it stands and accepted
      once the report is finalised. */
  lemma CanonicalisingGains(d: Derived, r: Report, e: FileEvidence)
    requires FilesReady(r.files) && forall file | file in r.files :: StableFile(file)
    requires EvidenceReadyUpToSpelling(r.files, r.evidence) && e in r.evidence
    requires !InInventory(r.files, e.path) || !Distinct(e.resultIds)
    ensures Judged(r.files, r.evidence) != [] && Finalized(d, r).violations == []
  {
    JudgedReadiness(r.files, r.evidence);
    ReadySpelledExactly(r.files, r.evidence);
    FinalizedVerdict(d, r);
  }

  /** Such evidence: one included file, whose record names its one result twice. */
  function PlainFile(path: string): FileRecord {
    FileRecord(path, Source, None, Some(ServerIdentity("s", Some("1"), Some("d"))), [Capability("c", true)],
               [RequestAttempt("m", Completed, None, None, None)], {}, {}, NO_RESULTS, Processed(0), None)
  }

  function RepeatedEvidence(): FileEvidence {
    FileEvidence("a", Executed, "g", seq(40, _ => '0'), seq(64, _ => '0'), [], [], ["r", "r"], [], None, None)
  }

  lemma LetterPath(path: string, c: char)
    requires path == [c] && 'a' <= c <= 'z'
    ensures Normalized(path) == Ok(path) && StablePath(path)
  {
    ToSlashesFixes(path);
    SplitPlain(path, '/');
    CollapseNames([path], []);
    assert [] + [path] == [path];
  }

  lemma NotBlank(s: string, c: char)
    requires s == [c] && !IsWhitespace(c)
    ensures !Blank(s)
  {
    assert s[0] == c && c in s;
  }

  lemma PlainFileReady(path: string)
    ensures FileReady(PlainFile(path))
  {
    NotBlank("1", '1');
    NotBlank("d", 'd');
    var file := PlainFile(path);
    assert Capability("c", true) in file.capabilities;
    assert forall request | request in file.requests :: RequiredCapability(request.method_).None?;
  }

  lemma RepeatedEvidenceReady()
    ensures EvidenceReadyUpToSpelling([PlainFile("a")], [RepeatedEvidence()])
    ensures !Distinct(RepeatedEvidence().resultIds)
  {
    var files, evidence := [PlainFile("a")], [RepeatedEvidence()];
    assert PlainFile("a") in files && PlainFile("a").role.IsIncluded();
    assert CoversUpToSpellingAt(PlainFile("a"), evidence, 0);
    assert RepeatedEvidence().resultIds[0] == RepeatedEvidence().resultIds[1];
  }

  lemma RepeatedIdGainsReadiness(d: Derived, r: Report)
    requires r.files == [PlainFile("a")] && r.evidence == [RepeatedEvidence()]
    ensures Judged(r.files, r.evidence) != [] && Finalized(d, r).violations == []
  {
    PlainFileReady("a");
    LetterPath("a", 'a');
    OneReadyFile(PlainFile("a"));
    RepeatedEvidenceReady();
    assert RepeatedEvidence() in r.evidence;
    CanonicalisingGains(d, r, RepeatedEvidence());
  }
}

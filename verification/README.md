# Verification model of Repo-Native Alignment

This Dafny project models the parts of Repo-Native Alignment whose correctness is an argument
rather than a reading exercise, and proves that argument for every input, every run and every
interleaving.

**LSP readiness evidence** (`src/lsp_completeness.rs`). A query may call a repository READY only on
the word of three small files that are published under a repository lock, invalidated by every
graph mutator, and read without a lock.

- `RepoPath` is the path normaliser and its relation to the second one, in `src/adr.rs`;
  `PathMeaning` is what each of them makes of a path.
- `ReportModel`, `Evaluation`, `EvidenceEvaluation`, `CompletenessReport`, `EvidenceMeaning`,
  `FinalizeMeaning` and `Totals` are the report: canonicalising, judging, re-judging, the gate, and a
  declarative readiness predicate that the accumulating passes turn out to decide exactly.
  `ReadinessMeaning`, `Findings` and `SummaryMeaning` say what ready means, which violations are
  recorded and what a summary counts, field by field and sharing nothing with the passes.
- `WorkItems` is the fail-closed choice of producer records; `PersistedIndex` the one-pass index of
  persisted results; `GraphModel` and `GraphSnapshot` the framed stream that identifies a graph.
  `WorkItemMeaning`, `IndexMeaning` and `SnapshotMeaning` spell out their results.
- `Publication` is the protocol, as a step relation over disk, lock and jobs with a crash possible
  at every step, next to the imperative publisher; `ReportIdentityCheck` is what the last check of a
  load can tell, and `RuntimeReadiness` what a query that loaded a summary may conclude.
  `PublicationMeaning` spells out what is written, step by step, and what a load accepts.
  `PublicationCodec` is a concrete serialisation that meets the laws asked of JSON, and
  `PublicationWitness` the runs built on it.

**Advisory references** (`src/oh_reference.rs`).

- `Utf8` and `OhUri` are the URI codec: percent-encoding after section 2.1 of RFC 3986, the
  unescaped set of `encodeURIComponent` in ECMA-262, UTF-8 after section 3 of RFC 3629.
  `UriMeaning` spells out the text of a reference and every refusal.
- `ResolverCache` is the bounded cache file, `AdvisoryResolver` one call of `resolve_at`, and
  `ResolverRuns` the safety rule over all interleavings of calls, with failed loads, failed writes,
  failed removals and abandoned calls. `CacheWire` is a concrete serialisation that meets the laws
  asked of JSON, and `CacheWitness` the runs and caches built on it. `ResolverMeaning` spells out
  every answer and what it leaves on file.

Both serialisations write terminated strings, which is `TerminatedText`.

**Smaller algorithms.** `Rerank` and `StrictReranker` (`src/rerank.rs`), `IdentifierSearch`
(`src/doc_drift.rs`), `Slug`, `Roots` and `RootsMeaning` (`src/roots.rs`), `AdrCompile` and
`AdrMeaning` (`src/adr.rs`).
`SearchMeaning` and `SlugMeaning` spell out what a mention, a leaf identifier and a slug are.
`Wrappers`, `Sorting` and `Text` hold what the model uses of the standard library; `Runs` holds what
the three protocols share: runs of a step function.

Code that changes things step by step is written as methods and classes and proved equal to a
specification function; the theorems are about those functions. The modules named after a meaning
state the results once more in terms of the inputs alone, with the source's own constants, texts and
codes written out, and prove that statement equivalent to what the specification functions compute. JSON, YAML, hashes, derived
orderings and the work-item ledger are function-valued parameters; each `Lawful` predicate lists
what is used of them. Integers are unbounded.

## What the proofs turned up

Where a property the code relies on does not hold for every input, the model keeps the code as it
is, shows an input on which it fails, and proves the exact condition under which it holds.

- A denial (401, 403, 404) hides a cached identity unless its eviction fails, and it fails not only
  when both the rewrite and the removal of the file fail but also when the cache could not be read
  at that moment: nothing is in memory to evict, and the file is left alone
  (`ResolverRuns.DenialHides`). `CacheWitness.DeniedYetConfirmed` is the run, for either way: the
  identity is granted, denied, and then served as Confirmed.
- `persist` bounds the encoding before it appends a newline, so a cache whose encoding is exactly at
  the limit is written and then refused by its own reader, which empties the whole cache
  (`ResolverCache.PersistThenLoad`, `ResolverRuns.GrantStores`). `CacheWitness.AtTheLimitRefused` is
  such a cache: 8192 valid entries of 1024 bytes.
- `mentions_identifier` skips a whole identifier after a failed match. That is right for every text
  exactly when the identifier has no split border (`IdentifierSearch.SearchRightExactly`), which
  identifiers made of identifier characters never have. Others do reach it: the span `x-x()` asks for
  `x-x`, which the search misses in `ax-x-x` (`IdentifierSearch.SplitBorderReachesSearch`,
  `IdentifierSearch.DashedName`). For an empty identifier the loop stops only on a text that does not
  begin with an identifier character (`IdentifierSearch.StopsExactly`), and `looks_like_symbol` does
  let through spans, such as `Foo::`, whose leaf identifier is empty
  (`IdentifierSearch.OpenPathNeverStops`).
- `slug()` sanitises a second time, and sanitising is idempotent for ASCII but not beyond, so two
  roots can end up with one slug; declared keys that are stable under a second pass are exactly the
  safe ones (`Roots.SlugsDistinctExactly`, `Slug.DottedCapitalIsUnstable`). The comment at
  `src/roots.rs:180` says that path slugs encode the full path; the code takes the last component,
  and the model follows the code.
- Normalising a normalised path changes nothing, except that `./C:/x` yields `C:/x`, which is then
  refused (`RepoPath.Renormalized`, `RepoPath.DrivePathIsNotStable`). A report that is clean as it
  stands stays clean under `finalize` exactly when none of its paths is of that kind
  (`FinalizeMeaning.CleanStaysClean`); `FinalizeMeaning.DriveFileLosesReadiness` is one that does not.
- Canonicalising can also grant readiness: evidence that spells a path differently from its file, or
  repeats a result id, is refused as it stands and accepted afterwards
  (`EvidenceMeaning.ReadySpelledExactly`, `FinalizeMeaning.FinalizedVerdict`);
  `FinalizeMeaning.RepeatedIdGainsReadiness` is a report for which it does.
- READY in a bounded summary is as good as the verdict of the full readiness gate on the published
  report, unless that report has an included file and no evidence at all: `finalize` looks at evidence
  only if there is some, the gate insists on it (`RuntimeReadiness.ReadyIsEarned`,
  `RuntimeReadiness.CleanAgainstGate`). `PublicationWitness.ReadyWithoutEvidence` publishes one
  processed source file and nothing to prove it by: a runtime loads READY, and the gate refuses the
  very report on disk. `LspCompletenessReport::new` and `new_bound` build such reports; the comment at
  `src/lsp_completeness.rs:444` allows them for legacy and unit construction only.
- The graph digest always determines what is stored (`GraphSnapshot.DigestBinds`), but it forgets the
  order of nodes and edges exactly when no stable id is shared by nodes that store different things
  or by different edges (`GraphSnapshot.OrderForgottenExactly`). Otherwise two orders with different
  digests are exhibited (`GraphSnapshot.CollisionRemembersOrder`,
  `GraphSnapshot.EdgeCollisionRemembersOrder`); the id of an edge leaves its confidence out, so one
  edge before and after a revision is such a pair (`GraphSnapshot.RevisedEdgeRemembersOrder`).
- The last check of `load_summary`, on length and time of the report file, notices every replaced
  report exactly when length and time tell committed report files from those that can replace them
  (`ReportIdentityCheck.ReplacementsNoticedExactly`). For any two report files that agree in both,
  `ReportIdentityCheck.ReplacementNoticedExactly` is the run in which the load succeeds on the wrong
  one; `PublicationWitness.ReplacedUnnoticed` is such a run, with the reports of two different files.
- A failed preparation of the strict reranker does not withdraw an earlier admission of the same
  digest, even when it has just seen the cache change: `StrictReranker.ChangeSeenYetServed` is the run,
  `StrictReranker.FailedPreparationKeepsAdmission` the condition.

## Model

| member | source | states |
|---|---|---|
| `RepoPath.NormalizeRepoRelativePath` | src/lsp_completeness.rs:1153-1177 | the stack loop computes the recursive normaliser, with the same refusals |
| `RepoPath.AcceptedByDepth` | src/lsp_completeness.rs:1161-1175 | a component list is accepted exactly when its running depth never goes negative and ends positive |
| `RepoPath.NormalizePath` | src/adr.rs:1005-1021 | the push-and-pop loop computes the collapse that keeps a `..` it cannot resolve |
| `RepoPath.FormsAgree` | src/adr.rs:980-1021 | collapse-then-reject-leftovers and reject-on-underflow are the same test with the same result, from any stack of names |
| `RepoPath.NormalisersAgree` | src/adr.rs:980-1003 | on every path the LSP normaliser equals the ADR one after backslashes become slashes, minus NUL bytes and drive prefixes |
| `RepoPath.Renormalized` | src/lsp_completeness.rs:1153-1177 | normalising an output returns it unchanged unless it begins with a drive prefix, and then refuses it |
| `RepoPath.DrivePathIsNotStable` | src/lsp_completeness.rs:1158-1160 | the concrete path on which the second normalisation fails |
| `RepoPath.CanonicalPathIdempotent` | src/lsp_completeness.rs:257-260 | canonicalising a path field twice is canonicalising it once, drive prefix or not |
| `PathMeaning.NormalizedMeans` | src/lsp_completeness.rs:1153-1177 | what becomes of a path: refused if empty, holding a NUL or rooted, if its walk leaves the repository or ends at its root; else the names where the walk ends |
| `PathMeaning.AdrNormalizedMeans` | src/adr.rs:980-1021 | the same for the other normaliser, whose walk keeps the steps up it cannot take |
| `Evaluation.EvaluateFiles` | src/lsp_completeness.rs:803-981 | the file pass with its growing set of seen paths reports the violations of each file in order |
| `Evaluation.NoProcessedViolations` | src/lsp_completeness.rs:903-978 | a processed file draws no violation exactly when capabilities, requests, producers, results and ids are all there |
| `Evaluation.NoFileViolations` | src/lsp_completeness.rs:803-981 | the file pass reports nothing exactly when paths are valid and unique, every exclusion has a reason and every included file is ready |
| `EvidenceEvaluation.EvaluateEvidence` | src/lsp_completeness.rs:1014-1117 | the evidence pass reports the violations of each included path and of each stray record |
| `EvidenceEvaluation.RecordPass` | src/lsp_completeness.rs:1041-1102 | a record draws no violation exactly when it is bound to its file and, if inherited, every result's last lineage entry names a producer |
| `EvidenceEvaluation.NoEvidenceViolations` | src/lsp_completeness.rs:1014-1117 | the evidence pass reports nothing exactly when every included file has exactly one well-formed record and no record lies outside the inventory |
| `EvidenceEvaluation.PassesDecideReadiness` | src/lsp_completeness.rs:507-524 | both passes together are empty exactly when files and evidence are ready, for any files and evidence |
| `EvidenceMeaning.CanonicalRecordReady` | src/lsp_completeness.rs:419-432 | canonicalising a record and its file keeps readiness but for repeated result ids; the stable sort keeps the last lineage entry of each result |
| `EvidenceMeaning.CanonicalEvidenceReady` | src/lsp_completeness.rs:507-520 | canonical evidence is ready for canonical files exactly when the given evidence is ready for the given files up to spelling and repeated ids |
| `EvidenceMeaning.ReadySpelledExactly` | src/lsp_completeness.rs:1014-1117 | evidence is ready as it stands exactly when it is ready up to spelling, spells every path as its file does and repeats no id |
| `CompletenessReport.Summarize` | src/lsp_completeness.rs:1119-1144 | the counting loop computes the tally, and every number in it is the number of files it speaks of |
| `CompletenessReport.SummaryCountsExactly` | src/lsp_completeness.rs:1119-1151 | a summary is the derived one exactly when total, included, excluded and each bucket by role, status and extension count the files with that property, and no bucket is empty |
| `SummaryMeaning.KeysMean` | src/lsp_completeness.rs:1119-1151 | files are counted under the name of their role and status and under their extension in small letters |
| `CompletenessReport.SummaryBalances` | src/lsp_completeness.rs:1119-1151 | total = included + excluded = sum by role = sum by status = sum by extension |
| `CompletenessReport.ReportBuilder.CanonicalizeRecords` | src/lsp_completeness.rs:507-514 | the in-place loops and sorts leave the canonical records in derived order |
| `CompletenessReport.ReportBuilder.Judge` | src/lsp_completeness.rs:515-520 | evidence is judged only when there is some |
| `CompletenessReport.ReportBuilder.Finalize` | src/lsp_completeness.rs:507-524 | the whole report after `finalize`, including the digest over everything else |
| `CompletenessReport.CanonicalFileIdempotent` | src/lsp_completeness.rs:256-265 | canonicalising a file record twice is canonicalising it once |
| `CompletenessReport.CanonicalEvidenceIdempotent` | src/lsp_completeness.rs:419-432 | canonicalising an evidence record twice is canonicalising it once |
| `CompletenessReport.FinalizeIdempotent` | src/lsp_completeness.rs:507-524 | finalising a finalised report changes nothing |
| `CompletenessReport.FinalizeOrderIndependent` | src/lsp_completeness.rs:507-555 | permuting files or evidence gives the same report and the same digest |
| `CompletenessReport.FinalizedReadiness` | src/lsp_completeness.rs:507-528 | a finalised report is ready exactly when its files are and so is its evidence, if it has any |
| `CompletenessReport.FinalizedIntegrity` | src/lsp_completeness.rs:556-596 | a finalised report passes its integrity check exactly when its schema is current and no file is included or evidence is present |
| `CompletenessReport.GateExact` | src/lsp_completeness.rs:598-660 | any report at all passes the gate exactly when it is the expected, current, self-consistent report of files and evidence that are ready |
| `ReadinessMeaning.FilePassMeans` | src/lsp_completeness.rs:803-981 | the file pass reports nothing exactly when every path is valid and unique, every exclusion says why, and every included file is served: roles, capabilities, requests and kinds written out |
| `ReadinessMeaning.EvidencePassMeans` | src/lsp_completeness.rs:1014-1117 | the evidence pass reports nothing exactly when each included file has one record at its path, with generation, 40 and 64 hex digits, every expected id and none twice, and a lineage if inherited, and no other record is there |
| `ReadinessMeaning.GateMeans` | src/lsp_completeness.rs:556-660 | the gate accepts a report exactly when it has the expected identity under schema 6, the digest of all its fields, correct counts, no violation, and files and evidence as above |
| `Findings.FileFindings` | src/lsp_completeness.rs:803-981 | a violation is recorded by the file pass exactly when its code, path and detail are true of some file |
| `Findings.EvidenceFindings` | src/lsp_completeness.rs:1014-1117 | a violation is recorded by the evidence pass exactly when its path and detail are true of the records at that path |
| `FinalizeMeaning.ReadyPermutation` | src/lsp_completeness.rs:803-981 | readiness of files does not depend on their order |
| `FinalizeMeaning.FinalizePreservesReadiness` | src/lsp_completeness.rs:507-524 | finalising neither grants nor loses the readiness of files except for paths that normalise to a drive prefix |
| `FinalizeMeaning.FinalizedVerdict` | src/lsp_completeness.rs:507-528 | the verdict of a finalised report, files and evidence, said of the report that was given |
| `FinalizeMeaning.CleanStaysClean` | src/lsp_completeness.rs:507-524 | a report that is clean as it stands stays clean exactly when no path is a disguised drive path |
| `FinalizeMeaning.DriveFileLosesReadiness` | src/lsp_completeness.rs:507-524 | a report that is clean before finalising and not after |
| `FinalizeMeaning.RepeatedIdGainsReadiness` | src/lsp_completeness.rs:507-524 | a report that is refused as it stands and clean after finalising |
| `WorkItems.ProducerIdInjective` | src/lsp_completeness.rs:1395-1410 | `job:item` names one job and one item |
| `WorkItems.AcceptableIffNoError` | src/lsp_completeness.rs:1411-1490 | a record passes the checks exactly when it is acceptable: completed if authenticated, sealed for its node if recovered, operations distinct |
| `WorkItems.NoClashStep` | src/lsp_completeness.rs:1394-1507 | one more record fits the selection exactly when the loop body lets it pass |
| `WorkItems.SelectWorkItemsForReport` | src/lsp_completeness.rs:1348-1519 | succeeds exactly when no two eligible records clash, each is acceptable and every authenticated id is present, and then returns them sorted; an error is that of the first record the loop refuses, or a missing producer |
| `WorkItems.SelectionOrderIndependent` | src/lsp_completeness.rs:1348-1519 | permuting the records preserves success and the list returned |
| `WorkItems.SelectionStrictlyOrdered` | src/lsp_completeness.rs:1508-1519 | the list holds exactly the eligible records in strict (file, job, item) order |
| `WorkItemMeaning.SelectableMaySelect` | src/lsp_completeness.rs:1348-1519 | a selection succeeds exactly when the records asked for are sealed and complete where they must be, share neither producer nor work, and name every authenticated id |
| `WorkItemMeaning.SelectionHolds` | src/lsp_completeness.rs:1394-1519 | it returns exactly the records of related jobs written since the start, or exactly those named, by file, job and item |
| `WorkItemMeaning.RefusalMeans` | src/lsp_completeness.rs:1394-1507 | what each error says about the record the selection stopped at, and that those before it could have been selected |
| `PersistedIndex.PersistedResultsByPath` | src/lsp_completeness.rs:2371-2436 | the one-pass index equals filtering the whole graph for every path, counts and provenance, with an entry exactly for the paths touched |
| `PersistedIndex.EndpointPathsAre` | src/lsp_completeness.rs:2401-2416 | an edge is booked at each distinct valid endpoint path once |
| `PersistedIndex.IndexConservesEdges` | src/lsp_completeness.rs:2371-2436 | edge counts summed over paths equal the distinct endpoint paths of the counted LSP edges |
| `IndexMeaning.IndexMeans` | src/lsp_completeness.rs:2371-2436 | the index has an entry exactly for the paths a language server found anything in, with the number of nodes and edges of each kind and the ids of all of them |
| `IndexMeaning.ContributionMeans` | src/lsp_completeness.rs:2401-2416 | an edge counts twice, once or not at all, by its endpoint files |
| `GraphSnapshot.GraphSnapshotDigest` | src/lsp_completeness.rs:717-774 | the hashing loops feed the framed stream of sorted nodes, then sorted edges |
| `SnapshotMeaning.DigestMeans` | src/lsp_completeness.rs:717-774 | the digest is that of one line per node and then per edge, by stable id, each line spelled out |
| `GraphSnapshot.ForgetsOnlyLanguage` | src/lsp_completeness.rs:718-731 | the stored form of a node forgets its language and nothing else |
| `GraphSnapshot.UnframeFrame` | src/lsp_completeness.rs:744-772 | the stream is uniquely decodable into (tag, id, JSON) records |
| `GraphSnapshot.FrameInjective` | src/lsp_completeness.rs:744-772 | equal streams come from equal record lists |
| `GraphSnapshot.DigestBinds` | src/lsp_completeness.rs:717-774 | equal digests mean equal stored nodes and equal edges, even where stable ids are shared |
| `GraphSnapshot.SnapshotIdentity` | src/lsp_completeness.rs:717-774 | two graphs have one digest exactly when they store the same nodes and edges, whatever their order and languages, provided stable ids identify |
| `GraphSnapshot.OrderForgottenExactly` | src/lsp_completeness.rs:733-742 | the digest ignores the order of nodes and edges exactly when no stable id is shared by nodes that store different things or by different edges |
| `GraphSnapshot.RevisedEdgeRemembersOrder` | src/graph/mod.rs:534-550 | an edge and its copy with another confidence give different digests in the two orders |
| `Publication.PublicationFiles.PersistReportUnderLock` | src/lsp_completeness.rs:1709-1795 | the publisher, interrupted anywhere, leaves the disk that this many file operations lead to |
| `Publication.PublicationFiles.InvalidateSummaryPublication` | src/lsp_completeness.rs:1797-1809 | on success the marker is gone and nothing else has changed; on an error nothing has |
| `Publication.MethodIsStepSequence` | src/lsp_completeness.rs:1709-1795 | every interrupted or completed run of the publisher is a sequence of its steps in the protocol |
| `Publication.InvalidationIsStep` | src/server/store/persist.rs:149-152 | a mutator leaves the disk its invalidation leaves, and can change the graph exactly when that succeeded |
| `Publication.StepKeepsInv` | src/lsp_completeness.rs:1645-1809 | every step of a publisher or mutator, error and crash included, keeps the protocol's invariant |
| `PublicationMeaning.PublishingMeans` | src/lsp_completeness.rs:1709-1795 | the disk after any number of file operations of a publication, with every field of summary and marker and both limits |
| `Publication.OneJobAtATime` | src/lsp_completeness.rs:1645-1692 | the lock admits one publisher or mutator at a time |
| `Publication.MarkerAlwaysSound` | src/lsp_completeness.rs:1709-1809 | in every reachable state a present marker vouches for report, summary, their digests, the summary's hash, the report's length and time, and the graph |
| `Publication.LoadLinearizesAtMarkerRead` | src/lsp_completeness.rs:1811-1864 | a lock-free load whose three reads are spread over a run returns exactly the publication whose marker it read |
| `Publication.InstantLoadIffMarked` | src/lsp_completeness.rs:1811-1864 | read at one instant, the files load exactly when the marker is there |
| `Publication.NoLoadBetweenInvalidationAndCommit` | src/lsp_completeness.rs:1797-1864 | a load whose marker read falls between an invalidation and the next commit fails |
| `Publication.GraphChangesUnmarked` | src/server/store/persist.rs:149-152 | the graph changes only under the lock and while no marker is present |
| `PublicationMeaning.LoadMeans` | src/lsp_completeness.rs:1811-1864 | a load succeeds exactly when three files within their limits agree, field by field |
| `PublicationMeaning.LoadErrorMeans` | src/lsp_completeness.rs:1811-1864 | what each error says about the files |
| `PublicationMeaning.RuntimeLoadMeans` | src/lsp_completeness.rs:784-801 | a runtime load succeeds exactly when the loaded summary has its identity and graph digest |
| `ReportIdentityCheck.ReplacementNoticedExactly` | src/lsp_completeness.rs:1855-1862 | after one publication and the start of the next, a load across the two succeeds exactly when their report files agree in length and time |
| `ReportIdentityCheck.ReplacementsNoticedExactly` | src/lsp_completeness.rs:1811-1864 | for any set of allowed publications, every successful load of every run saw its own report exactly when length and time tell those report files apart |
| `RuntimeReadiness.RuntimeLoadBindsReport` | src/lsp_completeness.rs:784-801 | a successful runtime load is bound to a report of the runtime's identity, built from the very nodes (up to their language) and edges served, even where stable ids are shared |
| `RuntimeReadiness.LoadedSummaryDescribes` | src/lsp_completeness.rs:375-388 | over every run a loaded summary counts the files and violations of the report that was published when its marker was read, and names that report and graph |
| `RuntimeReadiness.RuntimeSummaryDescribes` | src/lsp_completeness.rs:784-801 | so does a runtime load |
| `RuntimeReadiness.ReadyIsEarned` | src/lsp_completeness.rs:784-801 | such a load says READY exactly when the files of that report are ready and so is its evidence, if any; the full gate accepts the report exactly when the load says READY, the schema is current and the report has evidence or no included file |
| `RuntimeReadiness.CleanAgainstGate` | src/lsp_completeness.rs:1188-1196 | the gate accepts a finalised report exactly when it records no violation, has the expected identity of the current schema, and carries evidence or includes no file |
| `PublicationWitness.PublishedWithoutEvidence` | src/lsp_completeness.rs:507-530 | under any serialisation, publishing a clean report with an included file and no evidence makes a runtime load READY while the gate refuses that report |
| `PublicationWitness.ReadyWithoutEvidence` | src/lsp_completeness.rs:507-530 | such a report, and the run, on a concrete serialisation |
| `PublicationWitness.ReplacedUnnoticed` | src/lsp_completeness.rs:1855-1862 | two different reports of one length and time, and the run in which a load of the first succeeds on the second |
| `PublicationCodec.PlainCodecLawful` | src/lsp_completeness.rs:1716-1777 | the laws asked of the serialisation can be met |
| `Utf8.DecodeEncode` | src/oh_reference.rs:142-161 | strict UTF-8 decoding undoes encoding |
| `Utf8.EncodeDecode` | src/oh_reference.rs:142-161 | bytes that decode are the encoding of what they decode to |
| `OhUri.PercentEncode` | src/oh_reference.rs:174-190 | the byte loop computes the escaped form |
| `OhUri.PercentDecode` | src/oh_reference.rs:142-171 | the index loop computes the inverse parse, refusing broken escapes and broken UTF-8 |
| `OhUri.PercentRoundTrip` | src/oh_reference.rs:142-190 | decode(encode(id)) = id for every string |
| `OhUri.ParsePrinted` | src/oh_reference.rs:104-137 | parsing a printed reference returns the pair that was printed |
| `OhUri.ParseAcceptsExactlyPrinted` | src/oh_reference.rs:104-137 | `parse` accepts exactly the printed forms of a kind and a valid id, and what it returns prints as its input |
| `OhUri.PrintInjective` | src/oh_reference.rs:104-190 | one reference, one spelling |
| `OhUri.AcceptedLength` | src/oh_reference.rs:722-727 | every accepted reference is at most 4,626 bytes long |
| `OhUri.OversizeNeverValid` | src/oh_reference.rs:722-727 | the 8 KiB gate never replaces a valid reference |
| `UriMeaning.PrintMeans` | src/oh_reference.rs:131-190 | a reference is the scheme, the kind's name and the id byte by byte: letters, digits and nine marks as they are, all else as upper-case hex |
| `UriMeaning.ValidMeans` | src/oh_reference.rs:125-130 | an id is neither empty nor divided and has at most 512 UTF-16 units |
| `UriMeaning.RefusalMeans` | src/oh_reference.rs:104-137 | what each refusal says about the text |
| `ResolverCache.PrunedKeepsNewest` | src/oh_reference.rs:306-322 | pruning removes exactly the surplus, every removed (time, key) precedes every kept one, kept entries are unchanged, and pruning again does nothing |
| `ResolverCache.PrunedUnique` | src/oh_reference.rs:306-322 | those conditions determine what is kept |
| `ResolverCache.ResolutionCache.PruneToLimit` | src/oh_reference.rs:306-322 | the collect-sort-remove routine leaves the pruned entries |
| `ResolverCache.ResolutionCache.Persist` | src/oh_reference.rs:325-368 | what is in memory and on disk afterwards, and when it fails: the file changes only by the whole new encoding |
| `ResolverCache.PersistThenLoad` | src/oh_reference.rs:275-368 | `load` returns what `persist` wrote exactly when the encoding is strictly below the limit |
| `ResolverCache.EvictCachedReference` | src/oh_reference.rs:844-860 | the file after an eviction: rewritten without the identity, else removed, else left alone |
| `AdvisoryResolver.Store` | src/oh_reference.rs:796-839 | the file after a reply has been dealt with |
| `AdvisoryResolver.ResolveAt` | src/oh_reference.rs:715-840 | one call is a run of its own events in the protocol, and its answer is the one that ends them |
| `ResolverMeaning.PreflightMeans` | src/oh_reference.rs:722-746 | the answer given before the cache is touched, for every text, expected kind and configuration |
| `ResolverMeaning.AnswerMeans` | src/oh_reference.rs:796-840 | the whole answer to every reply, with what is told of the cache where there is none |
| `ResolverMeaning.PeekMeans` | src/oh_reference.rs:748-795 | the whole answer of an offline call |
| `ResolverMeaning.FileMeans` | src/oh_reference.rs:796-860 | the file after every reply |
| `ResolverMeaning.LoadMeans` | src/oh_reference.rs:275-303 | a cache file is read exactly when it is at most 8 MiB long, has schema 1, at most 10,000 entries and only well-formed ones |
| `ResolverMeaning.LoadErrorMeans` | src/oh_reference.rs:275-303 | what each load error says about the file |
| `ResolverMeaning.PersistMeans` | src/oh_reference.rs:325-368 | written are the newest 10,000 entries unless their encoding exceeds 8 MiB |
| `ResolverRuns.PreflightExactly` | src/oh_reference.rs:722-746 | a call reaches the cache exactly when it names a canonical reference of the expected kind and has a cache |
| `ResolverRuns.EventKeepsSound` | src/oh_reference.rs:715-860 | every event keeps the file well formed and the lock holder's view current |
| `ResolverRuns.CacheFileAlwaysSound` | src/oh_reference.rs:275-368 | over every run the file is absent or holds at most 10,000 entries, each under its own canonical reference, and only the one-byte boundary keeps it from loading |
| `ResolverRuns.DenialHides` | src/oh_reference.rs:817-860 | after a 401, 403 or 404 the identity can still be served exactly when its eviction failed |
| `ResolverRuns.EntryOrigin` | src/oh_reference.rs:796-839 | what can be served after an event was granted by it or could be served before |
| `ResolverRuns.ServableStands` | src/oh_reference.rs:715-860 | everything servable after a run stems from a success that no later denial undid |
| `ResolverRuns.CacheAnswersStand` | src/oh_reference.rs:715-860 | an answer from the cache repeats the record of an earlier 200 for that reference, and every denial of it since then failed to evict |
| `ResolverRuns.DeniedStaysHidden` | src/oh_reference.rs:844-860 | when evictions go through, a denied identity is not served again before a new success |
| `ResolverRuns.CachedFreshness` | src/oh_reference.rs:913-939 | a cached answer is Confirmed or Retired exactly when checked_at <= now <= checked_at + min(ttl, 24 h), and otherwise Stale |
| `ResolverRuns.CachedAnswersAreRecent` | src/oh_reference.rs:873-939 | over every run a cached answer is fresh exactly when it is asked for within min(ttl, 24 h) of the call that was granted it |
| `ResolverRuns.StatesMean` | src/oh_reference.rs:796-839 | which replies lead to which states, and that a denial gives away nothing but the reference |
| `ResolverRuns.GrantStores` | src/oh_reference.rs:797-803 | a written success is the servable cache, except that at the byte limit the cache becomes unreadable |
| `ResolverRuns.RunThenCall` | src/oh_reference.rs:715-840 | a call that nothing interleaves with extends a run by its own events |
| `CacheWitness.DeniedYetServed` | src/oh_reference.rs:817-860 | on any wire: a grant, a denial whose eviction fails, and the identity is served again |
| `CacheWitness.DeniedYetConfirmed` | src/oh_reference.rs:817-860 | such a run exists for either way an eviction can fail, and ends in a Confirmed |
| `CacheWitness.AtTheLimitRefused` | src/oh_reference.rs:341-357 | a cache of 8192 valid entries whose plain encoding is exactly at the limit: written, and refused by its own reader |
| `CacheWire.WireLawful` | src/oh_reference.rs:286-289 | the laws asked of the serialisation can be met: any injective encoding gives a lawful wire |
| `Rerank.RerankWithModel` | src/rerank.rs:142-193 | fails on the first index out of range, else returns every emitted score under its candidate's original index, sorted if no score is NaN |
| `Rerank.SortRerankedResults` | src/rerank.rs:196-203 | sorts in place; with a NaN only the multiset is promised |
| `Rerank.SortedIsTheRanking` | src/rerank.rs:196-203 | without NaN a permutation is the sorted list exactly when everyone outranks what follows: higher score first, ties by index |
| `Rerank.NaNBreaksTheOrder` | src/rerank.rs:196-203 | with NaN the comparator is not transitive |
| `Rerank.StrictAcceptsExactly` | src/rerank.rs:691-719 | strict validation accepts exactly when original indices are distinct, the model emitted each candidate once and every score is finite |
| `Rerank.StrictResultIsTheRanking` | src/rerank.rs:691-719 | an accepted result is a bijection onto the original indices, in the ranking order |
| `Rerank.EmissionOrderIrrelevant` | src/rerank.rs:142-203 | the result depends on the (index, score) pairs, not on the order they were emitted in |
| `Rerank.RankStrictly` | src/rerank.rs:248-249 | mapping, sorting and validation together succeed exactly on rankable output and return the ranking |
| `Rerank.RankableMeans` | src/rerank.rs:691-719 | when an output can be ranked, in terms of candidates, indices and scores |
| `Rerank.RankedMeans` | src/rerank.rs:142-203 | a strict result holds one entry for each thing the model emitted, higher scores first and ties by index |
| `StrictReranker.Slot.RerankResultsStrict` | src/rerank.rs:209-255 | the slot afterwards, and success exactly when the cache was verified, the output is rankable and the digest did not move |
| `StrictReranker.Slot.PrepareStrictRerankerResident` | src/rerank.rs:259-307 | the slot afterwards, and admission exactly when the digest held before and after loading |
| `StrictReranker.Slot.RerankResultsStrictResident` | src/rerank.rs:311-342 | serves exactly when admitted and the output is rankable, without touching the slot |
| `StrictReranker.ResidentExactlyAfterConfirmation` | src/rerank.rs:209-342 | over every run a resident request is served exactly when the last operation that mattered was a confirming preparation, with the model it left |
| `StrictReranker.OperationMeans` | src/rerank.rs:209-307 | the slot an operation leaves behind: digest, model and admission |
| `StrictReranker.ModelWasLoaded` | src/rerank.rs:209-342 | over every run the model in the slot is the one loaded for its digest, which the slot has held since |
| `StrictReranker.ChangeSeenYetServed` | src/rerank.rs:259-307 | a run in which a preparation sees the cache change and the earlier admission stands |
| `IdentifierSearch.FileCache.MentionsIdentifier` | src/doc_drift.rs:160-182 | reads a file at most once and answers what the skipping loop finds in the text it kept, for every identifier |
| `IdentifierSearch.FileCache.Watch` | src/doc_drift.rs:167-181 | the loop, watched for any number of rounds, is where the round function says |
| `IdentifierSearch.RoundsAnswer` | src/doc_drift.rs:167-181 | whenever the loop has stopped its answer is right for identifiers without a split border, and it stops within one round more than the text has characters, if at all |
| `IdentifierSearch.StopsExactly` | src/doc_drift.rs:167-181 | the loop ends exactly for non-empty identifiers and for texts that do not begin with an identifier character |
| `IdentifierSearch.SearchRightExactly` | src/doc_drift.rs:160-182 | for a non-empty identifier the search is right about every text exactly when the identifier has no split border |
| `IdentifierSearch.PlainIdentifiersAreFound` | src/doc_drift.rs:160-182 | an identifier of identifier characters is reported exactly when it occurs as a whole word |
| `SearchMeaning.MentionedMeans` | src/doc_drift.rs:160-182 | a mention is an occurrence with no letter, digit or underscore on either side |
| `IdentifierSearch.SplitBorderReachesSearch` | src/doc_drift.rs:297-351 | the call of a name with a split border is a candidate, and its whole-word occurrence is missed |
| `IdentifierSearch.DashedName` | src/doc_drift.rs:160-182 | such a name and text |
| `IdentifierSearch.EmptyLeafExactly` | src/doc_drift.rs:346-351 | exactly the spans whose leaf identifier is empty |
| `SearchMeaning.LeafMeans` | src/doc_drift.rs:346-351 | the identifier of a span is what follows the last dot and the last double colon once the call brackets at its end are gone |
| `SearchMeaning.SymbolMeans` | src/doc_drift.rs:297-339 | exactly the spans that are looked up as symbols |
| `IdentifierSearch.OpenPathNeverStops` | src/doc_drift.rs:297-351 | a span that ends in `::` is accepted as a symbol with an empty identifier |
| `Slug.SlugFormStable` | src/roots.rs:548-555 | sanitising leaves slugs alone |
| `Slug.AsciiSanitizeIdempotent` | src/roots.rs:548-555 | for ASCII text sanitising twice is sanitising once |
| `Slug.SlugIsOneComponent` | src/roots.rs:540-555 | the slug of ASCII text holds no slash and no dot |
| `Slug.DottedCapitalIsUnstable` | src/roots.rs:548-555 | U+0130 sanitises to a text that sanitises to something else |
| `SlugMeaning.SanitizeMeans` | src/roots.rs:548-555 | a slug is the alphanumeric stretches of the text, with dashes between them, in lower case |
| `Roots.WorkspaceConfig.WithDeclaredRoots` | src/roots.rs:326-436 | the roots afterwards are the old ones followed by the roots that the declarations add, first come first served |
| `Roots.AddedApart` | src/roots.rs:384-434 | added paths and declared slugs are new and pairwise distinct, and a root is for language servers only exactly when it lies strictly inside the primary root |
| `Roots.AddedSlugsDistinct` | src/roots.rs:104-114 | with stable keys `slug()` of the added roots is new and pairwise distinct |
| `Roots.AsciiKeysStable` | src/roots.rs:548-555 | ASCII keys are stable |
| `Roots.SlugsDistinctExactly` | src/roots.rs:326-436 | exactly the stable keys can be declared anywhere without doubling a slug |
| `Roots.LeftOutForAReason` | src/roots.rs:349-402 | a usable declaration is left out only when its path or its slug is taken |
| `RootsMeaning.AddedDeclared` | src/roots.rs:349-434 | every added root is the canonical form of an existing declared path, as an ordinary project under the sanitised key |
| `RootsMeaning.FirstComeFirstServed` | src/roots.rs:349-434 | a declaration adds its root exactly when neither its path nor its slug is taken by a root before it |
| `RootsMeaning.SlugMeans` | src/roots.rs:104-114 | a root's slug: the sanitised override, else the last component, else the whole path |
| `AdrCompile.LoadedWell` | src/adr.rs:557-625 | loaded records have ids equal to their file stems, hence distinct |
| `AdrCompile.OneManifestPerAdr` | src/adr.rs:235-262 | there is exactly one manifest name per record, and it holds that record |
| `AdrCompile.Workspace.LoadRecords` | src/adr.rs:557-581 | records in name order, or the first one that does not parse |
| `AdrCompile.Workspace.EachRecord` | src/adr.rs:235-262 | the record loop in either mode |
| `AdrCompile.Workspace.EachFile` | src/adr.rs:264-285 | the sweep in either mode, in any listing order |
| `AdrCompile.Workspace.IndexPage` | src/adr.rs:287-307 | the index page in either mode |
| `AdrCompile.Workspace.Compile` | src/adr.rs:222-316 | files and report after a run in either mode; nothing changes in check mode or when a record does not parse |
| `AdrCompile.CheckCleanIffFixpoint` | src/adr.rs:222-316 | a check finds nothing exactly when a write would change no file |
| `AdrCompile.WriteReachesFixpoint` | src/adr.rs:222-316 | after a write from any state the records load as before, a check finds nothing and a second write changes nothing |
| `AdrCompile.WrittenExactly` | src/adr.rs:235-285 | after a write the JSON files are exactly one per record and every other file is untouched |
| `AdrCompile.ValidationReadsWhatWasCompiled` | src/adr.rs:633-661 | after a write validation loads exactly the records' manifests, by id, however the directory is listed |
| `AdrMeaning.LoadMeans` | src/adr.rs:557-625 | one record per Markdown file but the index page, in name order, with the id, source and contents of its front matter; or the first file without front matter or with another id |
| `AdrMeaning.WriteMeans` | src/adr.rs:235-285 | after a write the JSON files are the records' manifests and every other file is what it was |
| `AdrMeaning.IndexMeans` | src/adr.rs:287-307 | of the record directory a write changes the contents of the index page and nothing else |
| `AdrMeaning.CheckMeans` | src/adr.rs:235-307 | a check reports a missing, differing or stale manifest or a differing index page exactly when there is one |
| `AdrMeaning.ValidationMeans` | src/adr.rs:633-661 | validation loads each record's manifest once, by ascending id |

## Left out

- Evaluation.EvaluateFiles: violations carry a structured detail with everything the message mentions, not the rendered English text.
- CompletenessReport.ReportBuilder.Finalize: derived orderings and the digest are parameters; that the digest of a report is injective is not claimed.
- WorkItems.SelectWorkItemsForReport: the ledger's digests, anchors and sealing are uninterpreted functions, with only their use at the call site modelled.
- GraphSnapshot.DigestBinds: assumes collision-free hashing and JSON that determines its value; the content tree and configuration digests are not modelled, because their framing is not injective.
- Publication.PublicationFiles.PersistReportUnderLock: temporary files, their clean-up and `fsync` are not modelled; a rename is one atomic step and a crash leaves the disk as it is.
- Publication.GraphChangesUnmarked: a mutator is a lock, an invalidation and then any number of graph changes, as the full, incremental and pruning paths do; initialising an empty database directory, which invalidates nothing, changes no graph and is not a step.
- Publication.LoadLinearizesAtMarkerRead: each of the three reads sees one file state; a read that overlaps a rename sees either side of it.
- ResolverCache.ResolutionCache.Persist: permissions, ownership, symbolic links and the directory are one nondeterministic failure.
- PublicationCodec.PlainCodecLawful: the sample serialisation writes of a report what tells the samples apart, and its hashes are as long as their input; the text of JSON is not modelled.
- CacheWire.WireLawful: reading back is defined as finding what was written; the text of JSON itself is not modelled.
- AdvisoryResolver.ResolveAt: a call is dropped only while it waits; building the HTTP request, redirects, time-outs and the namespace of the cache path are outside the model.
- ResolverRuns.CacheAnswersStand: runs start from an absent cache file, and only these calls write it.
- Rerank.SortRerankedResults: finite scores are real numbers, so the two zeros are one; with a NaN the library may order arbitrarily or panic, and a panic's poisoned lock is not modelled.
- StrictReranker.Slot.RerankResultsStrict: hashing the model tree, locating the snapshot and running inference are inputs.
- IdentifierSearch.FileCache.MentionsIdentifier: the loop is watched for a given number of rounds, because for some inputs it has no last one.
- Slug.AsciiSanitizeIdempotent: lower-casing is per character; the context-dependent final sigma of full Unicode lower-casing is not modelled.
- Roots.WorkspaceConfig.WithDeclaredRoots: paths are component lists as on Unix, and the file system answers the same throughout one call.
- RepoPath.NormalisersAgree: the ADR form starts after trimming and on Unix components.
- AdrCompile.Workspace.Compile: files are readable text or absent, so I/O errors are left out; the two directories are separate; the front matter beyond the id is one opaque field.
- Counter widths (`u64`, `usize`) are not modelled: no counter can reach them.
- The loops over the six expected result kinds are recursive functions over the fixed list of kinds.
- Process spawning, version probing, git access, HTTP transport, clocks and the file inventory are inputs or absent.
- `classify_file`, the extension tables and the mapping of failures to terminal statuses: long look-ups without a property across functions.
- The command line, the MCP server, the viewer, markdown rendering and the regex scan of documentation drift: dispatch, presentation or library semantics.
- Embedding, LanceDB storage and ONNX inference: external engines.

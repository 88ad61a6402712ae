/** What the last check of a load, on length and time of the report file, can tell. */
module ReportIdentityCheck {
  import opened Wrappers
  import opened ReportModel
  import opened Runs
  import opened Publication

  /** The publisher gets as far as replacing the report file. */
  predicate Installable(c: Codec, r: Report) {
    |SummaryFileOf(c, r)| <= MAX_SUMMARY_BYTES
  }

  /** The publisher gets as far as committing. */
  predicate Committable(c: Codec, r: Report, mtime: nat) {
    Installable(c, r) && |Line(c.encodeMarker(MarkerOf(c, r, |ReportFileOf(c, r, mtime).bytes|, mtime)))| <= MAX_COMMIT_BYTES
  }

  /** Every publication of the run is one of these. */
  ghost predicate PublishesOnly(run: Run<Sys, Step>, allowed: (Report, nat) -> bool) {
    forall n | 0 <= n < |run.steps| && run.steps[n].AcquireToPublish? :: allowed(run.steps[n].report, run.steps[n].mtime)
  }

  // ---- where the report file comes from ----

  ghost predicate AllowedFile(c: Codec, allowed: (Report, nat) -> bool, file: Option<ReportFile>) {
    exists r, mtime :: allowed(r, mtime) && Installable(c, r) && file == Some(ReportFileOf(c, r, mtime))
  }

  ghost predicate AllowedJobs(allowed: (Report, nat) -> bool, s: Sys) {
    && (forall p | p in s.jobs && s.jobs[p].Publishing? :: allowed(s.jobs[p].report, s.jobs[p].mtime))
    && (s.current.Some? ==> allowed(s.current.value.report, s.current.value.file.mtime))
  }

  lemma StepKeepsAllowed(c: Codec, allowed: (Report, nat) -> bool, s: Sys, step: Step)
    requires Inv(c, s) && AllowedJobs(allowed, s) && Apply(c, s, step).Some?
    requires step.AcquireToPublish? ==> allowed(step.report, step.mtime)
    ensures AllowedJobs(allowed, Apply(c, s, step).value)
  {
  }

  lemma {:induction false} RunKeepsAllowed(c: Codec, allowed: (Report, nat) -> bool, run: Run<Sys, Step>, n: nat)
    requires IsRun(c, run) && PublishesOnly(run, allowed) && n < |run.states|
    ensures AllowedJobs(allowed, run.states[n])
  {
    if n > 0 {
      RunKeepsAllowed(c, allowed, run, n - 1);
      RunKeepsInv(c, run, n - 1);
      RunApplies(c, run, n - 1);
      StepKeepsAllowed(c, allowed, run.states[n - 1], run.steps[n - 1]);
    }
  }

  lemma StepKeepsFile(c: Codec, allowed: (Report, nat) -> bool, s: Sys, step: Step)
    requires Inv(c, s) && AllowedJobs(allowed, s) && Apply(c, s, step).Some? && AllowedFile(c, allowed, s.disk.report)
    ensures AllowedFile(c, allowed, Apply(c, s, step).value.disk.report)
  {
    if step.Publish? && s.jobs[step.p].stage.SummaryGone? {
      assert StageHolds(c, s.jobs[step.p], s.disk);
    }
  }

  /** Once the report file is an allowed one it stays one. */
  lemma {:induction false} FileStaysAllowed(c: Codec, allowed: (Report, nat) -> bool, run: Run<Sys, Step>, j: nat, k: nat)
    requires IsRun(c, run) && PublishesOnly(run, allowed) && j <= k < |run.states|
    requires AllowedFile(c, allowed, run.states[j].disk.report)
    ensures AllowedFile(c, allowed, run.states[k].disk.report)
  {
    if j < k {
      FileStaysAllowed(c, allowed, run, j, k - 1);
      RunKeepsAllowed(c, allowed, run, k - 1);
      RunKeepsInv(c, run, k - 1);
      RunApplies(c, run, k - 1);
      StepKeepsFile(c, allowed, run.states[k - 1], run.steps[k - 1]);
    }
  }

  // ---- the condition ----

  /** Length and time tell every committed report file from every report file that can replace it. */
  ghost predicate StatsTellApart(c: Codec, allowed: (Report, nat) -> bool) {
    forall a, m, b, m' |
      && allowed(a, m) && Committable(c, a, m) && allowed(b, m') && Installable(c, b)
      && Stat(Some(ReportFileOf(c, a, m))) == Stat(Some(ReportFileOf(c, b, m'))) ::
      ReportFileOf(c, a, m) == ReportFileOf(c, b, m')
  }

  /** A load that succeeds has seen, last, the report of the publication it returns. */
  ghost predicate LoadSeesItsReport(c: Codec, run: Run<Sys, Step>, i: nat, j: nat, k: nat)
    requires i < |run.states| && j < |run.states| && k < |run.states|
  {
    LoadAcross(c, run, i, j, k).Ok? ==> run.states[k].disk.report == run.states[j].disk.report
  }

  lemma ApartMeansSame(c: Codec, allowed: (Report, nat) -> bool, run: Run<Sys, Step>, i: nat, j: nat, k: nat)
    requires c.Lawful() && StatsTellApart(c, allowed) && IsRun(c, run) && PublishesOnly(run, allowed)
    requires i < |run.states| && j <= k < |run.states|
    ensures LoadSeesItsReport(c, run, i, j, k)
  {
    if LoadAcross(c, run, i, j, k).Ok? {
      LoadLinearizesAtMarkerRead(c, run, i, j, k);
      RunKeepsInv(c, run, j);
      RunKeepsAllowed(c, allowed, run, j);
      var pub := run.states[j].current.value;
      assert pub.file == ReportFileOf(c, pub.report, pub.file.mtime);
      assert Committable(c, pub.report, pub.file.mtime);
      FileStaysAllowed(c, allowed, run, j, k);
      var r, mtime :| allowed(r, mtime) && Installable(c, r) && run.states[k].disk.report == Some(ReportFileOf(c, r, mtime));
    }
  }

  // ---- a replacement that goes unnoticed ----

  /** The disk after a whole publication, and after one that stops with the report installed. */
  function CommittedDisk(c: Codec, r: Report, mtime: nat): Disk {
    var file := ReportFileOf(c, r, mtime);
    Disk(Some(file), Some(SummaryFileOf(c, r)), Some(Line(c.encodeMarker(MarkerOf(c, r, |file.bytes|, mtime)))))
  }

  function ReplacedDisk(c: Codec, r: Report, mtime: nat): Disk {
    Disk(Some(ReportFileOf(c, r, mtime)), None, None)
  }

  lemma AdvancesOnce(c: Codec, r: Report, mtime: nat, stage: Stage, d: Disk, stage': Stage, d': Disk, ops: nat)
    requires ops > 0 && Advance(c, r, mtime, stage, d) == Some((stage', d'))
    ensures Advances(c, r, mtime, stage, d, ops) == Advances(c, r, mtime, stage', d', ops - 1)
  {
  }

  lemma ReachesReplaced(c: Codec, r: Report, mtime: nat, d: Disk, ops: nat)
    requires Installable(c, r) && ops >= 3
    ensures Advances(c, r, mtime, Locked, d, ops) == Advances(c, r, mtime, ReportInstalled, ReplacedDisk(c, r, mtime), ops - 3)
  {
    var d1 := d.(marker := None);
    var d2 := d1.(summary := None);
    AdvancesOnce(c, r, mtime, Locked, d, MarkerGone, d1, ops);
    AdvancesOnce(c, r, mtime, MarkerGone, d1, SummaryGone, d2, ops - 1);
    AdvancesOnce(c, r, mtime, SummaryGone, d2, ReportInstalled, ReplacedDisk(c, r, mtime), ops - 2);
  }

  lemma ReachesCommitted(c: Codec, r: Report, mtime: nat, d: Disk)
    requires Committable(c, r, mtime)
    ensures Advances(c, r, mtime, Locked, d, 6) == (Committed, CommittedDisk(c, r, mtime))
  {
    var d3 := ReplacedDisk(c, r, mtime);
    var d4 := d3.(summary := Some(SummaryFileOf(c, r)));
    var bytes := |ReportFileOf(c, r, mtime).bytes|;
    ReachesReplaced(c, r, mtime, d, 6);
    AdvancesOnce(c, r, mtime, ReportInstalled, d3, SummaryInstalled, d4, 3);
    AdvancesOnce(c, r, mtime, SummaryInstalled, d4, Stated(bytes, mtime), d4, 2);
    AdvancesOnce(c, r, mtime, Stated(bytes, mtime), d4, Committed, CommittedDisk(c, r, mtime), 1);
  }

  /** A publisher takes the lock and gets `ops` operations far. */
  lemma PublisherRuns(c: Codec, s: Sys, p: Proc, r: Report, mtime: nat, ops: nat) returns (steps: seq<Step>, t: Sys)
    requires s.lock.None? && s.jobs == map[]
    ensures After(StepOf(c), s, steps) == Some(t) && t.disk == Advances(c, r, mtime, Locked, s.disk, ops).1
    ensures t.jobs.Keys == {p} && t.lock == Some(p)
    ensures forall n | 0 <= n < |steps| && steps[n].AcquireToPublish? :: steps[n].report == r && steps[n].mtime == mtime
  {
    var acquire := AcquireToPublish(p, r, mtime);
    var held := PublisherAt(s, p, r, mtime, Locked, s.disk, s.current);
    assert Apply(c, s, acquire) == Some(held);
    var rest, current := MethodIsStepSequence(c, s, p, r, mtime, Locked, s.disk, s.current, ops);
    steps := [acquire] + rest;
    assert steps[1..] == rest;
    var (stage, d) := Advances(c, r, mtime, Locked, s.disk, ops);
    t := PublisherAt(s, p, r, mtime, stage, d, current);
    forall n | 1 <= n < |steps| ensures steps[n] == Publish(p) {
      assert steps[n] == rest[n - 1] && rest[n - 1] in rest;
    }
  }

  lemma LeavesRoom(c: Codec, s: Sys, p: Proc) returns (t: Sys)
    requires s.jobs.Keys == {p} && s.lock == Some(p)
    ensures Apply(c, s, Exit(p)) == Some(t) && t.disk == s.disk && t.lock.None? && t.jobs == map[]
  {
    t := s.(lock := None, jobs := s.jobs - {p});
  }

  /** From any start: one publication is committed. */
  lemma CommitRun(c: Codec, s: Sys, p: Proc, r: Report, mtime: nat) returns (run: Run<Sys, Step>)
    requires Initial(s) && Committable(c, r, mtime)
    ensures IsRun(c, run) && run.states[0] == s
    ensures var last := run.states[|run.steps|];
            last.disk == CommittedDisk(c, r, mtime) && last.jobs.Keys == {p} && last.lock == Some(p)
    ensures forall n | 0 <= n < |run.steps| && run.steps[n].AcquireToPublish? ::
              run.steps[n].report == r && run.steps[n].mtime == mtime
  {
    var steps, t := PublisherRuns(c, s, p, r, mtime, 6);
    ReachesCommitted(c, r, mtime, s.disk);
    var start: Run<Sys, Step> := Run([s], []);
    run := Extend(StepOf(c), start, steps);
  }

  /** From any start: one publication is committed, the next gets as far as replacing the report. */
  lemma CommitThenReplace(c: Codec, s: Sys, p: Proc, a: Report, m: nat, b: Report, m': nat)
    returns (run: Run<Sys, Step>, i: nat)
    requires Initial(s) && Committable(c, a, m) && Installable(c, b)
    ensures IsRun(c, run) && run.states[0] == s && i < |run.states|
    ensures run.states[i].disk == CommittedDisk(c, a, m)
    ensures run.states[|run.steps|].disk == ReplacedDisk(c, b, m')
    ensures forall n | 0 <= n < |run.steps| && run.steps[n].AcquireToPublish? ::
              (run.steps[n].report, run.steps[n].mtime) in {(a, m), (b, m')}
  {
    var committed := CommitRun(c, s, p, a, m);
    i := |committed.steps|;
    var s1 := committed.states[i];
    var s2 := LeavesRoom(c, s1, p);
    var steps, s3 := PublisherRuns(c, s2, p, b, m', 3);
    ReachesReplaced(c, b, m', s2.disk, 3);
    var left := Extend(StepOf(c), committed, [Exit(p)]);
    AfterOne(StepOf(c), s1, Exit(p));
    run := Extend(StepOf(c), left, steps);
  }

  /** The load that reads summary and marker after the commit and the report after the
      replacement succeeds exactly when the two report files agree in length and time. */
  lemma ReplacementNoticedExactly(c: Codec, s: Sys, p: Proc, a: Report, m: nat, b: Report, m': nat)
    returns (run: Run<Sys, Step>, i: nat, k: nat)
    requires c.Lawful() && Initial(s) && Committable(c, a, m) && Installable(c, b)
    ensures IsRun(c, run) && run.states[0] == s && i <= k < |run.states|
    ensures forall n | 0 <= n < |run.steps| && run.steps[n].AcquireToPublish? ::
              (run.steps[n].report, run.steps[n].mtime) in {(a, m), (b, m')}
    ensures run.states[i].disk.report == Some(ReportFileOf(c, a, m))
    ensures run.states[k].disk.report == Some(ReportFileOf(c, b, m'))
    ensures LoadAcross(c, run, i, i, k).Ok? <==>
            Stat(Some(ReportFileOf(c, a, m))) == Stat(Some(ReportFileOf(c, b, m')))
  {
    run, i := CommitThenReplace(c, s, p, a, m, b, m');
    k := |run.steps|;
    CommittedReadsBack(c, a, m);
  }

  lemma CommittedReadsBack(c: Codec, r: Report, mtime: nat)
    requires c.Lawful() && Committable(c, r, mtime)
    ensures forall report ::
              Load(c, CommittedDisk(c, r, mtime).summary, CommittedDisk(c, r, mtime).marker, report).Ok? <==>
              Stat(report) == Stat(CommittedDisk(c, r, mtime).report)
  {
    var marker := MarkerOf(c, r, |ReportFileOf(c, r, mtime).bytes|, mtime);
    assert c.decodeMarker(Line(c.encodeMarker(marker))) == Some(marker);
    assert c.decodeSummary(SummaryFileOf(c, r)) == Some(FromReport(c, r));
  }

  // ---- the exact condition ----

  const EMPTY_SYSTEM := Sys(Disk(None, None, None), Graph([], []), None, map[], None)

  lemma CollisionGoesUnnoticed(c: Codec, allowed: (Report, nat) -> bool) returns (run: Run<Sys, Step>, i: nat, k: nat)
    requires c.Lawful() && !StatsTellApart(c, allowed)
    ensures IsRun(c, run) && PublishesOnly(run, allowed) && i <= k < |run.states|
    ensures LoadAcross(c, run, i, i, k).Ok? && run.states[k].disk.report != run.states[i].disk.report
  {
    var a, m, b, m' :|
      && allowed(a, m) && Committable(c, a, m) && allowed(b, m') && Installable(c, b)
      && Stat(Some(ReportFileOf(c, a, m))) == Stat(Some(ReportFileOf(c, b, m')))
      && ReportFileOf(c, a, m) != ReportFileOf(c, b, m');
    run, i, k := ReplacementNoticedExactly(c, EMPTY_SYSTEM, 0, a, m, b, m');
  }

  /** Whatever publications are allowed: the last check notices every replaced report, in every
      run and at every moment, exactly when length and time tell the committed report files from
      the report files that can replace them. */
  lemma ReplacementsNoticedExactly(c: Codec, allowed: (Report, nat) -> bool)
    requires c.Lawful()
    ensures StatsTellApart(c, allowed) <==>
            forall run: Run<Sys, Step>, i: nat, j: nat, k: nat |
              IsRun(c, run) && PublishesOnly(run, allowed) && i < |run.states| && j <= k < |run.states| ::
              LoadSeesItsReport(c, run, i, j, k)
  {
    if StatsTellApart(c, allowed) {
      forall run: Run<Sys, Step>, i: nat, j: nat, k: nat |
        IsRun(c, run) && PublishesOnly(run, allowed) && i < |run.states| && j <= k < |run.states|
        ensures LoadSeesItsReport(c, run, i, j, k)
      {
        ApartMeansSame(c, allowed, run, i, j, k);
      }
    } else {
      var run, i, k := CollisionGoesUnnoticed(c, allowed);
      assert !LoadSeesItsReport(c, run, i, i, k);
    }
  }
}

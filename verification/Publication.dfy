/** Publishing a report, its bounded summary and the commit marker under the repository lock,
    while graph mutators invalidate and readers look on without a lock. */
module Publication {
  import opened Wrappers
  import opened Utf8
  import opened ReportModel
  import opened GraphModel
  import opened Runs

  const MAX_SUMMARY_BYTES: nat := 4 * 1024
  const MAX_COMMIT_BYTES: nat := 2 * 1024
  const SUMMARY_SCHEMA_VERSION: nat := 3

  datatype Summary = Summary(
    schemaVersion: nat,
    ready: bool,
    totalFiles: nat,
    includedFiles: nat,
    excludedFiles: nat,
    violationCount: nat,
    reportDigest: string,
    reportIdentityDigest: string,
    graphSnapshotDigest: string)

  datatype Marker = Marker(
    schemaVersion: nat,
    summarySha256: string,
    reportDigest: string,
    reportBytes: nat,
    reportModified: nat)

  /** Serialisation and hashing, taken as given. */
  datatype Codec = Codec(
    encodeReport: Report -> seq<Byte>,
    encodeSummary: Summary -> seq<Byte>,
    decodeSummary: seq<Byte> -> Option<Summary>,
    encodeMarker: Marker -> seq<Byte>,
    decodeMarker: seq<Byte> -> Option<Marker>,
    sha256: seq<Byte> -> string,
    identityDigest: ReportIdentity -> string)
  {
    /** JSON followed by a newline reads back; the hashes have no collisions. */
    ghost predicate Lawful() {
      && (forall s :: decodeSummary(Line(encodeSummary(s))) == Some(s))
      && (forall m :: decodeMarker(Line(encodeMarker(m))) == Some(m))
      && (forall a, b :: sha256(a) == sha256(b) ==> a == b)
      && (forall i, j :: identityDigest(i) == identityDigest(j) ==> i == j)
    }
  }

  /** What `write_synced_temp` writes. */
  function Line(bytes: seq<Byte>): seq<Byte> {
    bytes + [0x0A]
  }

  function FromReport(c: Codec, r: Report): Summary {
    Summary(SUMMARY_SCHEMA_VERSION, r.violations == [], r.summary.totalFiles, r.summary.includedFiles,
            r.summary.excludedFiles, |r.violations|, r.digest, c.identityDigest(r.identity), r.graphSnapshotDigest)
  }

  datatype ReportFile = ReportFile(bytes: seq<Byte>, mtime: nat)

  datatype Disk = Disk(report: Option<ReportFile>, summary: Option<seq<Byte>>, marker: Option<seq<Byte>>)

  // ---- the publisher, one file operation at a time ----

  datatype Stage =
    | Locked | MarkerGone | SummaryGone | ReportInstalled | SummaryInstalled
    | Stated(bytes: nat, modified: nat) | Committed

  function ReportFileOf(c: Codec, r: Report, mtime: nat): ReportFile {
    ReportFile(Line(c.encodeReport(r)), mtime)
  }

  function SummaryFileOf(c: Codec, r: Report): seq<Byte> {
    Line(c.encodeSummary(FromReport(c, r)))
  }

  function MarkerOf(c: Codec, r: Report, bytes: nat, modified: nat): Marker {
    Marker(SUMMARY_SCHEMA_VERSION, c.sha256(SummaryFileOf(c, r)), r.digest, bytes, modified)
  }

  /** The next file operation of the publisher and its effect; None where it stops. */
  function Advance(c: Codec, r: Report, mtime: nat, stage: Stage, d: Disk): Option<(Stage, Disk)> {
    match stage
    case Locked =>
      if |c.encodeSummary(FromReport(c, r))| < MAX_SUMMARY_BYTES then Some((MarkerGone, d.(marker := None))) else None
    case MarkerGone => Some((SummaryGone, d.(summary := None)))
    case SummaryGone => Some((ReportInstalled, d.(report := Some(ReportFileOf(c, r, mtime)))))
    case ReportInstalled => Some((SummaryInstalled, d.(summary := Some(SummaryFileOf(c, r)))))
    case SummaryInstalled =>
      if d.report.Some? then Some((Stated(|d.report.value.bytes|, d.report.value.mtime), d)) else None
    case Stated(bytes, modified) =>
      var marker := c.encodeMarker(MarkerOf(c, r, bytes, modified));
      if |marker| < MAX_COMMIT_BYTES then Some((Committed, d.(marker := Some(Line(marker))))) else None
    case Committed => None
  }

  /** The publisher stopped by an error or a crash after at most `ops` operations. */
  function Advances(c: Codec, r: Report, mtime: nat, stage: Stage, d: Disk, ops: nat): (Stage, Disk)
    decreases ops
  {
    if ops == 0 then (stage, d)
    else
      match Advance(c, r, mtime, stage, d)
      case None => (stage, d)
      case Some((stage', d')) => Advances(c, r, mtime, stage', d', ops - 1)
  }

  /** The three published files. */
  class PublicationFiles {
    var report: Option<ReportFile>
    var summary: Option<seq<Byte>>
    var marker: Option<seq<Byte>>

    function Value(): Disk
      reads this
    {
      Disk(report, summary, marker)
    }

    /** `persist_report_under_lock`, interrupted before operation number `budget`. */
    method PersistReportUnderLock(c: Codec, r: Report, mtime: nat, budget: nat) returns (ok: bool)
      modifies this
      ensures ok <==> Advances(c, r, mtime, Locked, old(Value()), budget).0 == Committed
      ensures Value() == Advances(c, r, mtime, Locked, old(Value()), budget).1
    {
      ghost var goal := Advances(c, r, mtime, Locked, Value(), budget);
      var summaryBytes := c.encodeSummary(FromReport(c, r));
      if budget == 0 || |summaryBytes| >= MAX_SUMMARY_BYTES {
        return false;
      }
      marker := None;
      assert goal == Advances(c, r, mtime, MarkerGone, Value(), budget - 1);
      if budget == 1 {
        return false;
      }
      summary := None;
      assert goal == Advances(c, r, mtime, SummaryGone, Value(), budget - 2);
      if budget == 2 {
        return false;
      }
      report := Some(ReportFile(Line(c.encodeReport(r)), mtime));
      assert goal == Advances(c, r, mtime, ReportInstalled, Value(), budget - 3);
      if budget == 3 {
        return false;
      }
      summary := Some(Line(summaryBytes));
      assert goal == Advances(c, r, mtime, SummaryInstalled, Value(), budget - 4);
      if budget == 4 {
        return false;
      }
      var bytes, modified := |report.value.bytes|, report.value.mtime;
      assert goal == Advances(c, r, mtime, Stated(bytes, modified), Value(), budget - 5);
      var commit := Marker(SUMMARY_SCHEMA_VERSION, c.sha256(Line(summaryBytes)), r.digest, bytes, modified);
      var commitBytes := c.encodeMarker(commit);
      if budget == 5 || |commitBytes| >= MAX_COMMIT_BYTES {
        return false;
      }
      marker := Some(Line(commitBytes));
      assert goal == Advances(c, r, mtime, Committed, Value(), budget - 6);
      return true;
    }

    /** A marker that is not there is no error; `fails` is any other failure to remove it. */
    method InvalidateSummaryPublication(fails: bool) returns (ok: bool)
      modifies this`marker
      ensures ok <==> !fails
      ensures Value() == Invalidated(old(Value()), fails)
    {
      if fails {
        return false;
      }
      marker := None;
      return true;
    }
  }

  function Invalidated(d: Disk, fails: bool): Disk {
    if fails then d else d.(marker := None)
  }

  // ---- the system ----

  type Proc = nat

  datatype Graph = Graph(nodes: seq<Node>, edges: seq<Edge>)

  datatype Job =
    | Publishing(report: Report, mtime: nat, stage: Stage)
    | Mutating(invalidated: bool)

  /** What was on disk when the marker now present was installed. */
  datatype Published = Published(report: Report, file: ReportFile, graph: Graph)

  /** `current` only records history: no step depends on it. */
  datatype Sys = Sys(disk: Disk, graph: Graph, lock: Option<Proc>, jobs: map<Proc, Job>, current: Option<Published>)

  datatype Step =
    | AcquireToPublish(p: Proc, report: Report, mtime: nat)
    | Publish(p: Proc)
    | AcquireToMutate(p: Proc)
    | Invalidate(p: Proc)
    | MutateGraph(p: Proc, graph: Graph)
    | Exit(p: Proc)

  /** One atomic step; None when it is not possible. `Exit` is a return, an error or a crash at
      any point: each of them drops the lock and leaves the disk as it is. */
  function Apply(c: Codec, s: Sys, step: Step): Option<Sys> {
    match step
    case AcquireToPublish(p, report, mtime) =>
      if s.lock.None? then Some(s.(lock := Some(p), jobs := s.jobs[p := Publishing(report, mtime, Locked)])) else None
    case Publish(p) =>
      if p in s.jobs && s.jobs[p].Publishing? then
        var job := s.jobs[p];
        match Advance(c, job.report, job.mtime, job.stage, s.disk)
        case None => None
        case Some((stage, disk)) =>
          Some(s.(disk := disk, jobs := s.jobs[p := job.(stage := stage)],
                  current := if stage == MarkerGone then None
                             else if stage == Committed then Some(Published(job.report, ReportFileOf(c, job.report, job.mtime), s.graph))
                             else s.current))
      else None
    case AcquireToMutate(p) =>
      if s.lock.None? then Some(s.(lock := Some(p), jobs := s.jobs[p := Mutating(false)])) else None
    case Invalidate(p) =>
      if p in s.jobs && s.jobs[p].Mutating? then
        Some(s.(disk := Invalidated(s.disk, false), jobs := s.jobs[p := Mutating(true)], current := None))
      else None
    case MutateGraph(p, graph) =>
      if p in s.jobs && s.jobs[p] == Mutating(true) then Some(s.(graph := graph)) else None
    case Exit(p) =>
      if p in s.jobs then Some(s.(lock := if s.lock == Some(p) then None else s.lock, jobs := s.jobs - {p})) else None
  }

  /** No marker yet; report and summary may be leftovers. */
  ghost predicate Initial(s: Sys) {
    s.lock.None? && s.jobs == map[] && s.disk.marker.None? && s.current.None?
  }

  function StepOf(c: Codec): (Sys, Step) -> Option<Sys> {
    (s, step) => Apply(c, s, step)
  }

  ghost predicate IsRun(c: Codec, run: Run<Sys, Step>) {
    run.Follows(StepOf(c)) && Initial(run.states[0])
  }

  lemma RunApplies(c: Codec, run: Run<Sys, Step>, n: nat)
    requires IsRun(c, run) && n < |run.steps|
    ensures Apply(c, run.states[n], run.steps[n]) == Some(run.states[n + 1])
  {
    assert StepOf(c)(run.states[n], run.steps[n]) == Some(run.states[n + 1]);
  }

  // ---- what every step keeps ----

  ghost predicate OnDisk(c: Codec, pub: Published, d: Disk) {
    && d.report == Some(pub.file)
    && d.summary == Some(SummaryFileOf(c, pub.report))
    && d.marker == Some(Line(c.encodeMarker(MarkerOf(c, pub.report, |pub.file.bytes|, pub.file.mtime))))
    && pub.file.bytes == Line(c.encodeReport(pub.report))
    && |d.summary.value| <= MAX_SUMMARY_BYTES
    && |d.marker.value| <= MAX_COMMIT_BYTES
  }

  ghost predicate StageHolds(c: Codec, job: Job, d: Disk) {
    match job
    case Mutating(invalidated) => invalidated ==> d.marker.None?
    case Publishing(r, mtime, stage) =>
      && (!stage.Locked? && !stage.Committed? ==> d.marker.None?)
      && (!stage.Locked? ==> |SummaryFileOf(c, r)| <= MAX_SUMMARY_BYTES)
      && (stage.ReportInstalled? || stage.SummaryInstalled? || stage.Stated? ==> d.report == Some(ReportFileOf(c, r, mtime)))
      && (stage.SummaryInstalled? || stage.Stated? ==> d.summary == Some(SummaryFileOf(c, r)))
      && (stage.Stated? ==> stage.bytes == |ReportFileOf(c, r, mtime).bytes| && stage.modified == mtime)
  }

  ghost predicate Inv(c: Codec, s: Sys) {
    && s.jobs.Keys == (if s.lock.Some? then {s.lock.value} else {})
    && (s.disk.marker.Some? <==> s.current.Some?)
    && (s.current.Some? ==> OnDisk(c, s.current.value, s.disk) && s.graph == s.current.value.graph)
    && (forall p | p in s.jobs :: StageHolds(c, s.jobs[p], s.disk))
  }

  lemma PublishKeepsInv(c: Codec, s: Sys, p: Proc)
    requires Inv(c, s) && Apply(c, s, Publish(p)).Some?
    ensures Inv(c, Apply(c, s, Publish(p)).value)
  {
    var t := Apply(c, s, Publish(p)).value;
    assert s.jobs.Keys == {p};
    assert StageHolds(c, s.jobs[p], s.disk);
    assert t.jobs.Keys == {p};
    assert StageHolds(c, t.jobs[p], t.disk);
  }

  lemma StepKeepsInv(c: Codec, s: Sys, step: Step)
    requires Inv(c, s) && Apply(c, s, step).Some?
    ensures Inv(c, Apply(c, s, step).value)
  {
    var t := Apply(c, s, step).value;
    match step
    case Publish(p) => PublishKeepsInv(c, s, p);
    case Exit(p) => assert t.jobs.Keys == {};
    case Invalidate(p) => assert t.jobs.Keys == {p};
    case _ =>
  }

  lemma {:induction false} RunKeepsInv(c: Codec, run: Run<Sys, Step>, n: nat)
    requires IsRun(c, run) && n < |run.states|
    ensures Inv(c, run.states[n])
  {
    if n > 0 {
      RunKeepsInv(c, run, n - 1);
      RunApplies(c, run, n - 1);
      StepKeepsInv(c, run.states[n - 1], run.steps[n - 1]);
    }
  }

  /** The lock serialises publishers and mutators: at most one job is under way. */
  lemma OneJobAtATime(c: Codec, run: Run<Sys, Step>, n: nat, p: Proc, q: Proc)
    requires IsRun(c, run) && n < |run.states|
    requires p in run.states[n].jobs && q in run.states[n].jobs
    ensures p == q && run.states[n].lock == Some(p)
  {
    RunKeepsInv(c, run, n);
  }

  /** The marker agrees with the files it commits to. */
  ghost predicate MarkerSound(c: Codec, d: Disk) {
    d.marker.Some? ==>
      && d.report.Some? && d.summary.Some?
      && c.decodeMarker(d.marker.value).Some? && c.decodeSummary(d.summary.value).Some?
      && var marker := c.decodeMarker(d.marker.value).value;
         var summary := c.decodeSummary(d.summary.value).value;
         && marker.summarySha256 == c.sha256(d.summary.value)
         && marker.reportDigest == summary.reportDigest
         && marker.reportBytes == |d.report.value.bytes|
         && marker.reportModified == d.report.value.mtime
  }

  /** In every reachable state, whatever crashed where, a present marker vouches for exactly
      the report and the summary beside it, and for the graph they were published with. */
  lemma MarkerAlwaysSound(c: Codec, run: Run<Sys, Step>, n: nat)
    requires c.Lawful() && IsRun(c, run) && n < |run.states|
    ensures MarkerSound(c, run.states[n].disk)
    ensures run.states[n].disk.marker.Some? ==>
              && run.states[n].current.Some?
              && run.states[n].graph == run.states[n].current.value.graph
              && run.states[n].disk.report == Some(run.states[n].current.value.file)
  {
    RunKeepsInv(c, run, n);
    var s := run.states[n];
    if s.current.Some? {
      var pub := s.current.value;
      assert c.decodeMarker(s.disk.marker.value) == Some(MarkerOf(c, pub.report, |pub.file.bytes|, pub.file.mtime));
      assert c.decodeSummary(s.disk.summary.value) == Some(FromReport(c, pub.report));
    }
  }

  // ---- lock-free readers ----

  datatype LoadError = MissingOrOversize | Unparsable | WrongSchema | SummaryHashDiffers | ReportDigestDiffers | ReportStatDiffers
                     | RuntimeIdentityDiffers | RuntimeGraphDiffers

  function ReadBounded(file: Option<seq<Byte>>, max: nat): Option<seq<Byte>> {
    if file.Some? && |file.value| <= max then file else None
  }

  function Stat(file: Option<ReportFile>): Option<(nat, nat)> {
    if file.Some? then Some((|file.value.bytes|, file.value.mtime)) else None
  }

  /** `load_summary` as a function of its three reads, in their order. */
  function Load(c: Codec, summaryFile: Option<seq<Byte>>, markerFile: Option<seq<Byte>>, report: Option<ReportFile>)
    : Result<Summary, LoadError>
  {
    var bytes := ReadBounded(summaryFile, MAX_SUMMARY_BYTES);
    if bytes.None? then Err(MissingOrOversize)
    else
      var summary := c.decodeSummary(bytes.value);
      if summary.None? then Err(Unparsable)
      else if summary.value.schemaVersion != SUMMARY_SCHEMA_VERSION then Err(WrongSchema)
      else
        var commitBytes := ReadBounded(markerFile, MAX_COMMIT_BYTES);
        if commitBytes.None? then Err(MissingOrOversize)
        else
          var commit := c.decodeMarker(commitBytes.value);
          if commit.None? then Err(Unparsable)
          else if commit.value.schemaVersion != SUMMARY_SCHEMA_VERSION then Err(WrongSchema)
          else if commit.value.summarySha256 != c.sha256(bytes.value) then Err(SummaryHashDiffers)
          else if commit.value.reportDigest != summary.value.reportDigest then Err(ReportDigestDiffers)
          else if Stat(report) != Some((commit.value.reportBytes, commit.value.reportModified)) then Err(ReportStatDiffers)
          else Ok(summary.value)
  }

  /** A load that reads summary, marker and report in the states `i`, `j` and `k`. */
  function LoadAcross(c: Codec, run: Run<Sys, Step>, i: nat, j: nat, k: nat): Result<Summary, LoadError>
    requires i < |run.states| && j < |run.states| && k < |run.states|
  {
    Load(c, run.states[i].disk.summary, run.states[j].disk.marker, run.states[k].disk.report)
  }

  /** A successful load is as good as an atomic one at the moment it read the marker: it
      returns the summary of the publication whose marker that was, which was complete on disk
      then, together with the graph it was published with; and the report it saw last has the
      length and time of that publication's report. */
  lemma LoadLinearizesAtMarkerRead(c: Codec, run: Run<Sys, Step>, i: nat, j: nat, k: nat)
    requires c.Lawful() && IsRun(c, run)
    requires i < |run.states| && j < |run.states| && k < |run.states|
    requires LoadAcross(c, run, i, j, k).Ok?
    ensures run.states[j].current.Some?
    ensures var pub := run.states[j].current.value;
            && LoadAcross(c, run, i, j, k) == Ok(FromReport(c, pub.report))
            && run.states[j].disk.report == Some(pub.file)
            && run.states[j].disk.summary == run.states[i].disk.summary
            && run.states[j].graph == pub.graph
            && Stat(run.states[k].disk.report) == Stat(Some(pub.file))
  {
    RunKeepsInv(c, run, j);
    var pub := run.states[j].current.value;
    var marker := MarkerOf(c, pub.report, |pub.file.bytes|, pub.file.mtime);
    assert c.decodeMarker(run.states[j].disk.marker.value) == Some(marker);
    var bytes := run.states[i].disk.summary.value;
    assert c.sha256(bytes) == c.sha256(SummaryFileOf(c, pub.report));
    assert c.decodeSummary(SummaryFileOf(c, pub.report)) == Some(FromReport(c, pub.report));
  }

  /** Read at one instant, the three files load exactly when the marker is there. */
  lemma InstantLoadIffMarked(c: Codec, run: Run<Sys, Step>, n: nat)
    requires c.Lawful() && IsRun(c, run) && n < |run.states|
    ensures LoadAcross(c, run, n, n, n).Ok? <==> run.states[n].disk.marker.Some?
  {
    RunKeepsInv(c, run, n);
    var s := run.states[n];
    if s.current.Some? {
      var pub := s.current.value;
      assert c.decodeMarker(s.disk.marker.value) == Some(MarkerOf(c, pub.report, |pub.file.bytes|, pub.file.mtime));
      assert c.decodeSummary(s.disk.summary.value) == Some(FromReport(c, pub.report));
    }
  }

  ghost predicate Commits(s: Sys, step: Step) {
    step.Publish? && step.p in s.jobs && s.jobs[step.p].Publishing? && s.jobs[step.p].stage.Stated?
  }

  ghost predicate Invalidates(s: Sys, step: Step) {
    step.Invalidate? ||
    (step.Publish? && step.p in s.jobs && s.jobs[step.p].Publishing? && s.jobs[step.p].stage.Locked?)
  }

  lemma {:induction false} MarkerStaysGone(c: Codec, run: Run<Sys, Step>, n: nat, j: nat)
    requires IsRun(c, run) && n <= j < |run.states| && run.states[n].disk.marker.None?
    requires forall t | n <= t < j :: !Commits(run.states[t], run.steps[t])
    ensures run.states[j].disk.marker.None?
  {
    if n < j {
      MarkerStaysGone(c, run, n, j - 1);
      RunApplies(c, run, j - 1);
      assert !Commits(run.states[j - 1], run.steps[j - 1]);
    }
  }

  /** From an invalidation, by a mutator or by a publisher, until the next commit no load can
      succeed, whenever it reads the other two files. */
  lemma NoLoadBetweenInvalidationAndCommit(c: Codec, run: Run<Sys, Step>, n: nat, i: nat, j: nat, k: nat)
    requires IsRun(c, run) && n < j < |run.states| && i < |run.states| && k < |run.states|
    requires Invalidates(run.states[n], run.steps[n])
    requires forall t | n < t < j :: !Commits(run.states[t], run.steps[t])
    ensures LoadAcross(c, run, i, j, k).Err?
  {
    RunApplies(c, run, n);
    MarkerStaysGone(c, run, n + 1, j);
  }

  /** The graph on disk changes only while no marker is present. */
  lemma GraphChangesUnmarked(c: Codec, run: Run<Sys, Step>, n: nat)
    requires IsRun(c, run) && n < |run.steps| && run.states[n].graph != run.states[n + 1].graph
    ensures run.states[n].disk.marker.None? && run.states[n + 1].disk.marker.None?
    ensures run.states[n].lock.Some?
  {
    RunKeepsInv(c, run, n);
    var s := run.states[n];
    RunApplies(c, run, n);
    assert run.steps[n].MutateGraph?;
    assert StageHolds(c, s.jobs[run.steps[n].p], s.disk);
  }

  // ---- the method and the steps are the same publisher ----

  /** The state of a system in which `p` holds the lock and publishes. */
  function PublisherAt(s: Sys, p: Proc, r: Report, mtime: nat, stage: Stage, d: Disk, current: Option<Published>): Sys {
    s.(disk := d, lock := Some(p), jobs := map[p := Publishing(r, mtime, stage)], current := current)
  }

  /** Every interrupted or completed run of the publishing method is a sequence of steps of one
      process, ending in the disk the method leaves behind. */
  lemma {:induction false} MethodIsStepSequence(
      c: Codec, s: Sys, p: Proc, r: Report, mtime: nat, stage: Stage, d: Disk, current: Option<Published>, budget: nat)
    returns (steps: seq<Step>, current': Option<Published>)
    ensures forall step | step in steps :: step == Publish(p)
    ensures var (stage', d') := Advances(c, r, mtime, stage, d, budget);
            After(StepOf(c), PublisherAt(s, p, r, mtime, stage, d, current), steps)
            == Some(PublisherAt(s, p, r, mtime, stage', d', current'))
    decreases budget
  {
    var before := PublisherAt(s, p, r, mtime, stage, d, current);
    if budget == 0 || Advance(c, r, mtime, stage, d).None? {
      steps, current' := [], current;
    } else {
      var (stage1, d1) := Advance(c, r, mtime, stage, d).value;
      var after := Apply(c, before, Publish(p)).value;
      assert after.jobs == map[p := Publishing(r, mtime, stage1)];
      assert after == PublisherAt(s, p, r, mtime, stage1, d1, after.current);
      var rest;
      rest, current' := MethodIsStepSequence(c, s, p, r, mtime, stage1, d1, after.current, budget - 1);
      steps := [Publish(p)] + rest;
      assert steps[1..] == rest;
    }
  }

  /** What a mutator does with the outcome of its invalidation: go on, or give up. */
  function MutatorSteps(p: Proc, fails: bool): seq<Step> {
    if fails then [Exit(p)] else [Invalidate(p)]
  }

  /** A mutator's invalidation leaves the disk the method leaves, and only one that succeeded lets
      it change the graph. */
  lemma InvalidationIsStep(c: Codec, s: Sys, p: Proc, fails: bool) returns (t: Sys)
    requires s.lock == Some(p) && s.jobs == map[p := Mutating(false)]
    ensures After(StepOf(c), s, MutatorSteps(p, fails)) == Some(t) && t.disk == Invalidated(s.disk, fails)
    ensures t.graph == s.graph && (t.lock == Some(p) <==> !fails)
    ensures forall graph :: Apply(c, t, MutateGraph(p, graph)).Some? <==> !fails
  {
    var step := MutatorSteps(p, fails)[0];
    t := Apply(c, s, step).value;
    AfterOne(StepOf(c), s, step);
  }
}

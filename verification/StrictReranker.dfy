/** The process-wide strict reranker: which model it holds, and when requests may rely on it
    without hashing the model tree again. */
module StrictReranker {
  import opened Wrappers
  import opened Sorting
  import opened Rerank
  import opened Runs

  datatype Model = Model(weights: string)

  datatype Loaded = Loaded(cacheDigest: string, residentAdmitted: bool, model: Model)

  /** What a strict operation finds outside: the digest that matched the sealed manifest, the
      model the snapshot loads as, what inference yields, and the digest observed afterwards. */
  datatype World = World(
    verified: Option<string>, snapshot: Option<Model>,
    infer: Model -> Option<seq<Emitted>>, observedAfter: Option<string>)

  datatype StrictError =
    | CacheUnverified | LoadFailed | CacheChanged | NotAdmitted | Ranking(error: RerankError)

  /** The slot's contents for this digest, loading the snapshot when they are not it. */
  function EnsureLoaded(slot: Option<Loaded>, digest: string, snapshot: Option<Model>): Option<Loaded> {
    if slot.Some? && slot.value.cacheDigest == digest then slot
    else
      match snapshot
      case None => None
      case Some(model) => Some(Loaded(digest, false, model))
  }

  function Ready(slot: Option<Loaded>, world: World): Option<Loaded> {
    match world.verified
    case None => None
    case Some(digest) => EnsureLoaded(slot, digest, world.snapshot)
  }

  /** Strict reranking withdraws admission once the model is in place. */
  function AfterStrict(slot: Option<Loaded>, world: World): Option<Loaded> {
    match Ready(slot, world)
    case None => slot
    case Some(loaded) => Some(loaded.(residentAdmitted := false))
  }

  /** Preparation admits the model when the cache is still what was verified. */
  function AfterPrepare(slot: Option<Loaded>, world: World): Option<Loaded> {
    match Ready(slot, world)
    case None => slot
    case Some(loaded) => if world.observedAfter == world.verified then Some(loaded.(residentAdmitted := true)) else Some(loaded)
  }

  predicate Admitted(slot: Option<Loaded>) {
    slot.Some? && slot.value.residentAdmitted
  }

  /** Why a strict request fails: no verified cache, a snapshot that does not load, an output that
      cannot be ranked, or a cache that changed meanwhile. */
  ghost predicate StrictFails(before: Option<Loaded>, after: Option<Loaded>, candidates: seq<Candidate>, world: World, error: StrictError) {
    match error
    case CacheUnverified => world.verified.None?
    case LoadFailed =>
      && world.verified.Some? && world.snapshot.None?
      && (before.None? || before.value.cacheDigest != world.verified.value)
    case Ranking(reason) => after.Some? && Refused(candidates, world.infer(after.value.model), reason)
    case CacheChanged => world.verified.Some? && world.observedAfter != world.verified
    case NotAdmitted => false
  }

  class Slot {
    var slot: Option<Loaded>

    constructor ()
      ensures slot == None
    {
      slot := None;
    }

    method RerankResultsStrict(candidates: seq<Candidate>, world: World) returns (r: Result<seq<Reranked>, StrictError>)
      modifies this
      ensures slot == AfterStrict(old(slot), world)
      ensures r.Ok? <==>
              && slot.Some? && Ready(old(slot), world).Some? && world.observedAfter == world.verified
              && StrictlyRankable(candidates, world.infer(slot.value.model))
      ensures r.Ok? ==> r.value == Sort(MappedBack(candidates, world.infer(slot.value.model).value), RankLe)
      ensures r.Err? ==> StrictFails(old(slot), slot, candidates, world, r.error)
    {
      if world.verified.None? {
        return Err(CacheUnverified);
      }
      if slot.None? || slot.value.cacheDigest != world.verified.value {
        if world.snapshot.None? {
          return Err(LoadFailed);
        }
        slot := Some(Loaded(world.verified.value, false, world.snapshot.value));
      }
      slot := Some(slot.value.(residentAdmitted := false));
      var ranked := RankStrictly(candidates, world.infer(slot.value.model));
      if ranked.Err? {
        return Err(Ranking(ranked.error));
      }
      if world.observedAfter != world.verified {
        return Err(CacheChanged);
      }
      return Ok(ranked.value);
    }

    method PrepareStrictRerankerResident(world: World) returns (ok: bool)
      modifies this
      ensures slot == AfterPrepare(old(slot), world)
      ensures ok <==> Ready(old(slot), world).Some? && world.observedAfter == world.verified
      ensures ok ==> Admitted(slot) && Some(slot.value.cacheDigest) == world.verified
    {
      if world.verified.None? {
        return false;
      }
      if slot.None? || slot.value.cacheDigest != world.verified.value {
        if world.snapshot.None? {
          return false;
        }
        slot := Some(Loaded(world.verified.value, false, world.snapshot.value));
      }
      if world.observedAfter != world.verified {
        return false;
      }
      slot := Some(slot.value.(residentAdmitted := true));
      return true;
    }

    method RerankResultsStrictResident(candidates: seq<Candidate>, infer: Model -> Option<seq<Emitted>>)
      returns (r: Result<seq<Reranked>, StrictError>)
      ensures r.Ok? <==> Admitted(slot) && StrictlyRankable(candidates, infer(slot.value.model))
      ensures r.Ok? ==> r.value == Sort(MappedBack(candidates, infer(slot.value.model).value), RankLe)
      ensures !Admitted(slot) ==> r == Err(NotAdmitted)
      ensures Admitted(slot) && r.Err? ==> r.error.Ranking? && Refused(candidates, infer(slot.value.model), r.error.error)
    {
      if slot.None? || !slot.value.residentAdmitted {
        return Err(NotAdmitted);
      }
      var ranked := RankStrictly(candidates, infer(slot.value.model));
      if ranked.Err? {
        return Err(Ranking(ranked.error));
      }
      return Ok(ranked.value);
    }
  }

  // ---- runs ----

  /** Operations hold the slot's lock, so a run is a list. A resident request changes nothing. */
  datatype Operation = Strict(world: World) | Prepare(world: World) | Resident

  function SlotAfter(slot: Option<Loaded>, op: Operation): Option<Loaded> {
    match op
    case Strict(world) => AfterStrict(slot, world)
    case Prepare(world) => AfterPrepare(slot, world)
    case Resident => slot
  }

  function StepOf(): (Option<Loaded>, Operation) -> Option<Option<Loaded>> {
    (slot, op) => Some(SlotAfter(slot, op))
  }

  /** A run of the process, which starts with an empty slot. */
  ghost predicate IsRun(run: Run<Option<Loaded>, Operation>) {
    run.Follows(StepOf()) && run.states[0] == None
  }

  /** A preparation that verified the cache before and after it had the model. */
  predicate Confirms(slot: Option<Loaded>, op: Operation) {
    op.Prepare? && Ready(slot, op.world).Some? && op.world.observedAfter == op.world.verified
  }

  /** An operation that leaves the slot without admission although it had a model. */
  predicate Withdraws(slot: Option<Loaded>, op: Operation) {
    match op
    case Strict(world) => Ready(slot, world).Some?
    case Prepare(world) =>
      && Ready(slot, world).Some? && world.observedAfter != world.verified
      && (slot.None? || Some(slot.value.cacheDigest) != world.verified)
    case Resident => false
  }

  /** An operation that neither confirms nor withdraws leaves the slot as it was. */
  lemma OnlyTwoThingsChangeTheSlot(slot: Option<Loaded>, op: Operation)
    ensures Confirms(slot, op) ==>
              Admitted(SlotAfter(slot, op)) && Some(SlotAfter(slot, op).value.cacheDigest) == op.world.verified
    ensures Withdraws(slot, op) ==> !Admitted(SlotAfter(slot, op))
    ensures !Confirms(slot, op) && !Withdraws(slot, op) ==> SlotAfter(slot, op) == slot
    ensures !(Confirms(slot, op) && Withdraws(slot, op))
  {
  }

  predicate ConfirmedAt(run: Run<Option<Loaded>, Operation>, i: nat) {
    i < |run.steps| && i < |run.states| && Confirms(run.states[i], run.steps[i])
  }

  predicate WithdrawnAt(run: Run<Option<Loaded>, Operation>, i: nat) {
    i < |run.steps| && i < |run.states| && Withdraws(run.states[i], run.steps[i])
  }

  /** Of the first `n` operations the last one that mattered was the confirming preparation at `i`. */
  ghost predicate LastMattered(run: Run<Option<Loaded>, Operation>, i: nat, n: nat) {
    && i < n && ConfirmedAt(run, i)
    && forall j: nat | i < j < n :: !ConfirmedAt(run, j) && !WithdrawnAt(run, j)
  }

  lemma OneOperation(run: Run<Option<Loaded>, Operation>, n: nat)
    requires IsRun(run) && n < |run.steps|
    ensures run.states[n + 1] == SlotAfter(run.states[n], run.steps[n])
    ensures !ConfirmedAt(run, n) && !WithdrawnAt(run, n) ==> run.states[n + 1] == run.states[n]
    ensures WithdrawnAt(run, n) ==> !Admitted(run.states[n + 1])
    ensures ConfirmedAt(run, n) ==>
              Admitted(run.states[n + 1]) && Some(run.states[n + 1].value.cacheDigest) == run.steps[n].world.verified
  {
    assert StepOf()(run.states[n], run.steps[n]) == Some(run.states[n + 1]);
    OnlyTwoThingsChangeTheSlot(run.states[n], run.steps[n]);
  }

  /** Since the last operation that mattered, the slot has not changed at all. */
  lemma {:induction false} UnchangedSince(run: Run<Option<Loaded>, Operation>, i: nat, n: nat)
    requires IsRun(run) && n < |run.states| && LastMattered(run, i, n)
    ensures run.states[n] == run.states[i + 1]
  {
    if i + 1 < n {
      UnchangedSince(run, i, n - 1);
      OneOperation(run, n - 1);
    }
  }

  lemma {:induction false} AdmissionWasConfirmed(run: Run<Option<Loaded>, Operation>, n: nat) returns (i: nat)
    requires IsRun(run) && n < |run.states| && Admitted(run.states[n])
    ensures LastMattered(run, i, n)
  {
    assert n > 0;
    OneOperation(run, n - 1);
    if ConfirmedAt(run, n - 1) {
      i := n - 1;
    } else {
      i := AdmissionWasConfirmed(run, n - 1);
    }
  }

  /** A resident request can be served exactly when the last operation that mattered was a
      confirming preparation; the model it uses is the one that preparation left, under the digest
      it verified twice. */
  lemma ResidentExactlyAfterConfirmation(run: Run<Option<Loaded>, Operation>, n: nat)
    requires IsRun(run) && n < |run.states|
    ensures Admitted(run.states[n]) <==> exists i: nat :: LastMattered(run, i, n)
    ensures forall i: nat | LastMattered(run, i, n) ::
              run.states[n] == run.states[i + 1] && Some(run.states[n].value.cacheDigest) == run.steps[i].world.verified
  {
    if Admitted(run.states[n]) {
      var i := AdmissionWasConfirmed(run, n);
    }
    forall i: nat | LastMattered(run, i, n)
      ensures Admitted(run.states[n]) && run.states[n] == run.states[i + 1]
      ensures Some(run.states[n].value.cacheDigest) == run.steps[i].world.verified
    {
      UnchangedSince(run, i, n);
      OneOperation(run, i);
    }
  }

  /** A preparation that fails does not withdraw an earlier admission of the same digest, even
      when it saw the cache change. */
  lemma FailedPreparationKeepsAdmission(slot: Option<Loaded>, world: World)
    requires Admitted(slot) && !Confirms(slot, Prepare(world))
    ensures Admitted(AfterPrepare(slot, world)) <==>
            world.verified.None? || world.verified == Some(slot.value.cacheDigest) || world.snapshot.None?
  {
  }

  /** So the resident lane can go on serving after a preparation that saw the cache change: the
      digest it verified first is the one already loaded, and the change it then observed withdraws
      nothing. */
  lemma ChangeSeenYetServed(first: World, second: World) returns (run: Run<Option<Loaded>, Operation>)
    requires first.verified.Some? && first.snapshot.Some? && first.observedAfter == first.verified
    requires second.verified == first.verified && second.observedAfter != second.verified
    ensures IsRun(run) && run.steps == [Prepare(first), Prepare(second)]
    ensures ConfirmedAt(run, 0) && !ConfirmedAt(run, 1) && Ready(run.states[1], second).Some?
    ensures Admitted(run.states[2]) && run.states[2] == run.states[1]
  {
    var s1 := SlotAfter(None, Prepare(first));
    var s2 := SlotAfter(s1, Prepare(second));
    run := Run([None, s1, s2], [Prepare(first), Prepare(second)]);
    assert StepOf()(run.states[0], run.steps[0]) == Some(s1);
    assert StepOf()(run.states[1], run.steps[1]) == Some(s2);
  }

  // ---- which model is in the slot ----

  /** What a strict operation or a preparation leaves behind, given the slot it found: nothing changes
      without a verified digest; another digest brings the model its snapshot loads as, if it loads;
      and admission is withdrawn by a request and granted by a digest that held throughout. */
  lemma OperationMeans(slot: Option<Loaded>, op: Operation)
    requires !op.Resident?
    ensures var after, w := SlotAfter(slot, op), op.world;
            match w.verified
            case None => after == slot
            case Some(digest) =>
              if slot.Some? && slot.value.cacheDigest == digest then
                && after.Some? && after.value.cacheDigest == digest && after.value.model == slot.value.model
                && (after.value.residentAdmitted <==>
                    op.Prepare? && (w.observedAfter == Some(digest) || slot.value.residentAdmitted))
              else if w.snapshot.None? then after == slot
              else
                && after.Some? && after.value.cacheDigest == digest && Some(after.value.model) == w.snapshot
                && (after.value.residentAdmitted <==> op.Prepare? && w.observedAfter == Some(digest))
  {
  }

  /** An operation that verified this digest and loaded this model for it. */
  predicate LoadsAt(run: Run<Option<Loaded>, Operation>, i: nat, digest: string, model: Model) {
    && i < |run.steps| && i < |run.states| && !run.steps[i].Resident?
    && run.steps[i].world.verified == Some(digest) && run.steps[i].world.snapshot == Some(model)
    && (run.states[i].None? || run.states[i].value.cacheDigest != digest)
  }

  /** Over every run, the model in the slot is the one that was loaded for its digest, and since then
      the slot has held that digest all the time. */
  lemma {:induction false} ModelWasLoaded(run: Run<Option<Loaded>, Operation>, n: nat) returns (i: nat)
    requires IsRun(run) && n < |run.states| && run.states[n].Some?
    ensures i < n && LoadsAt(run, i, run.states[n].value.cacheDigest, run.states[n].value.model)
    ensures forall j: nat | i < j <= n :: run.states[j].Some? && run.states[j].value.cacheDigest == run.states[n].value.cacheDigest
  {
    assert n > 0;
    OneOperation(run, n - 1);
    var before, op := run.states[n - 1], run.steps[n - 1];
    if !op.Resident? {
      OperationMeans(before, op);
    }
    if before.Some? && before.value.cacheDigest == run.states[n].value.cacheDigest {
      i := ModelWasLoaded(run, n - 1);
    } else {
      i := n - 1;
    }
  }
}

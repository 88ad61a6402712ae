/** Choosing the LSP work a report may rely on: fail-closed, and independent of the order in
    which the ledger lists its records. */
module WorkItems {
  import opened Wrappers
  import opened Sorting
  import opened Text
  import opened RepoPath
  import opened GraphModel

  datatype ItemState = Pending | InFlight | Completed | Failed | Skipped | Exhausted

  datatype Recovery = New | CarriedCompleted | CarriedSkipped | Retried | RecoveryExhausted

  datatype WorkIdentity = WorkIdentity(
    schemaVersion: nat,
    sourceSnapshot: string,
    requestAnchor: string,
    operationsDigest: string,
    toolchainContract: string,
    plannerContract: string,
    digest: string)

  datatype Record = Record(
    jobId: string,
    itemId: nat,
    root: string,
    file: string,
    nodeId: string,
    inputHash: string,
    identity: WorkIdentity,
    operations: seq<string>,
    state: ItemState,
    recovery: Recovery,
    outputEdges: seq<Edge>,
    outputNodes: seq<Node>,
    producedIds: set<string>,
    updatedAt: nat)

  /** The ledger's own functions, uninterpreted here. */
  datatype Ledger = Ledger(
    schemaVersion: nat,
    plannerContract: string,
    operationsDigest: seq<string> -> string,
    identityDigest: WorkIdentity -> string,
    sealedAnchorPrefix: string -> Option<string>,
    nodeAnchorPrefix: Node -> string,
    evidenceHash: seq<string> -> string)

  datatype Scan = Scan(
    ledger: Ledger,
    relatedJobs: set<string>,
    startedAt: nat,
    nodes: seq<Node>,
    authenticated: Option<set<string>>)

  datatype SelectError =
    | DuplicateProducer | ProducerNotCompleted | ProducerOutsideJobs | NoGraphInput | InvalidRecordPath
    | WorkIdentityMismatch | OutputMismatch | DuplicateOperation | DuplicateWork | MissingProducer

  // ---- ids ----

  function ProducerId(r: Record): string {
    r.jobId + ":" + Decimal(r.itemId)
  }

  lemma LastColon(a: string, b: string, m: string, n: string)
    requires ':' !in m && ':' !in n && a + ":" + m == b + ":" + n
    ensures a == b && m == n
  {
    var s := a + ":" + m;
    assert s[|a|] == ':' && s[|b|] == ':';
    forall k | |a| < k < |s| ensures s[k] != ':' {
      assert s[k] == m[k - |a| - 1] && m[k - |a| - 1] in m;
    }
    forall k | |b| < k < |s| ensures s[k] != ':' {
      assert s[k] == n[k - |b| - 1] && n[k - |b| - 1] in n;
    }
    assert a == s[..|a|] && b == s[..|b|];
    assert m == s[|a| + 1..] && n == s[|b| + 1..];
  }

  /** `job:item` names one job and one item. */
  lemma ProducerIdInjective(r: Record, s: Record)
    ensures ProducerId(r) == ProducerId(s) <==> JobItem(r) == JobItem(s)
  {
    if ProducerId(r) == ProducerId(s) {
      LastColon(r.jobId, s.jobId, Decimal(r.itemId), Decimal(s.itemId));
      DecimalInjective(r.itemId, s.itemId);
    }
  }

  function JobItem(r: Record): (string, nat) {
    (r.jobId, r.itemId)
  }

  /** What two records may not share: the node, the input and the bag of operations. */
  function WorkOf(r: Record): (string, string, multiset<string>) {
    (r.nodeId, r.inputHash, multiset(r.operations))
  }

  /** The same, as the loop stores it. */
  function WorkKey(r: Record): (string, string, seq<string>) {
    (r.nodeId, r.inputHash, Sort(r.operations, StrLe))
  }

  lemma WorkKeyFaithful(r: Record, s: Record)
    ensures WorkKey(r) == WorkKey(s) <==> WorkOf(r) == WorkOf(s)
  {
    SortPermutes(r.operations, StrLe);
    SortPermutes(s.operations, StrLe);
    if WorkOf(r) == WorkOf(s) {
      StrLeIsOrder();
      SortCanonical(r.operations, s.operations, StrLe);
    }
  }

  // ---- the checks on one record ----

  predicate IsAuthenticated(scan: Scan, r: Record) {
    scan.authenticated.Some? && ProducerId(r) in scan.authenticated.value
  }

  predicate Eligible(scan: Scan, r: Record) {
    if scan.authenticated.Some? then IsAuthenticated(scan, r)
    else r.updatedAt >= scan.startedAt && r.jobId in scan.relatedJobs
  }

  /** Nodes by stable id; a later node replaces an earlier one. */
  function NodesById(nodes: seq<Node>): map<string, Node> {
    if nodes == [] then map[]
    else var n := |nodes| - 1; NodesById(nodes[..n])[nodes[n].StableId() := nodes[n]]
  }

  function OutputIds(ledger: Ledger, r: Record): set<string> {
    (set e | e in r.outputEdges :: e.StableId(ledger.evidenceHash)) + (set n | n in r.outputNodes :: n.StableId())
  }

  predicate SealedFor(ledger: Ledger, r: Record, node: Node) {
    && r.root == node.id.root
    && Normalized(r.file) == Normalized(node.id.file)
    && r.identity.schemaVersion == ledger.schemaVersion
    && r.identity.plannerContract == ledger.plannerContract
    && r.identity.operationsDigest == ledger.operationsDigest(r.operations)
    && r.identity.digest == ledger.identityDigest(r.identity)
    && r.inputHash == r.identity.digest
    && ledger.sealedAnchorPrefix(r.identity.requestAnchor) == Some(ledger.nodeAnchorPrefix(node))
  }

  /** The first check a recovered record fails, if any. */
  function RecoveredError(scan: Scan, byId: map<string, Node>, r: Record): Option<SelectError> {
    if r.nodeId !in byId then Some(NoGraphInput)
    else
      var node := byId[r.nodeId];
      if Normalized(r.file).Err? || Normalized(node.id.file).Err? then Some(InvalidRecordPath)
      else if !SealedFor(scan.ledger, r, node) then Some(WorkIdentityMismatch)
      else if OutputIds(scan.ledger, r) != r.producedIds then Some(OutputMismatch)
      else None
  }

  function RecordError(scan: Scan, byId: map<string, Node>, r: Record): Option<SelectError> {
    var authenticated := IsAuthenticated(scan, r);
    if authenticated && r.state != Completed then Some(ProducerNotCompleted)
    else if authenticated && r.jobId !in scan.relatedJobs then Some(ProducerOutsideJobs)
    else
      var recovered := if r.recovery == CarriedCompleted || authenticated then RecoveredError(scan, byId, r) else None;
      if recovered.Some? then recovered
      else if AdjacentEqual(Sort(r.operations, StrLe)) then Some(DuplicateOperation)
      else None
  }

  /** The record may back a report. */
  ghost predicate Acceptable(scan: Scan, r: Record) {
    && (IsAuthenticated(scan, r) ==> r.state == Completed && r.jobId in scan.relatedJobs)
    && (r.recovery == CarriedCompleted || IsAuthenticated(scan, r) ==>
          && r.nodeId in NodesById(scan.nodes)
          && Normalized(r.file).Ok?
          && SealedFor(scan.ledger, r, NodesById(scan.nodes)[r.nodeId])
          && OutputIds(scan.ledger, r) == r.producedIds)
    && Distinct(r.operations)
  }

  lemma AcceptableIffNoError(scan: Scan, r: Record)
    ensures Acceptable(scan, r) <==> RecordError(scan, NodesById(scan.nodes), r).None?
  {
    StrLeIsOrder();
    AdjacentEqualDetects(r.operations, StrLe);
  }

  // ---- what a successful selection means ----

  function EligibleOf(scan: Scan, records: seq<Record>): seq<Record> {
    Filter(records, EligibleTest(scan))
  }

  function EligibleTest(scan: Scan): Record -> bool {
    r => Eligible(scan, r)
  }

  /** No two records clash and each may back a report. */
  ghost predicate NoClash(scan: Scan, selected: seq<Record>) {
    && Distinct(Map(selected, JobItem))
    && Distinct(Map(selected, WorkOf))
    && forall r | r in selected :: Acceptable(scan, r)
  }

  ghost predicate NamesPresent(scan: Scan, selected: seq<Record>) {
    scan.authenticated.Some? ==>
      forall id | id in scan.authenticated.value :: exists r | r in selected :: ProducerId(r) == id
  }

  ghost predicate Selectable(scan: Scan, records: seq<Record>) {
    NoClash(scan, EligibleOf(scan, records)) && NamesPresent(scan, EligibleOf(scan, records))
  }

  /** The report's order: file, then job, then item. */
  predicate ItemLe(a: Record, b: Record) {
    if a.file != b.file then StrLe(a.file, b.file)
    else if a.jobId != b.jobId then StrLe(a.jobId, b.jobId)
    else a.itemId <= b.itemId
  }

  lemma ItemLeTransitive(a: Record, b: Record, c: Record)
    requires ItemLe(a, b) && ItemLe(b, c)
    ensures ItemLe(a, c)
  {
    if a.file != b.file && b.file != c.file {
      StrLeTransitive(a.file, b.file, c.file);
      if a.file == c.file {
        StrLeAntisymmetric(a.file, b.file);
      }
    } else if a.file == b.file == c.file && a.jobId != b.jobId && b.jobId != c.jobId {
      StrLeTransitive(a.jobId, b.jobId, c.jobId);
      if a.jobId == c.jobId {
        StrLeAntisymmetric(a.jobId, b.jobId);
      }
    }
  }

  lemma ItemOrder()
    ensures TotalPreorder(ItemLe)
  {
    forall a: Record, b: Record ensures ItemLe(a, b) || ItemLe(b, a) {
      StrLeTotal(a.file, b.file);
      StrLeTotal(a.jobId, b.jobId);
    }
    forall a: Record, b: Record, c: Record | ItemLe(a, b) && ItemLe(b, c) ensures ItemLe(a, c) {
      ItemLeTransitive(a, b, c);
    }
  }

  lemma ItemLeSameKey(a: Record, b: Record)
    requires ItemLe(a, b) && ItemLe(b, a)
    ensures JobItem(a) == JobItem(b)
  {
    if a.file != b.file {
      StrLeAntisymmetric(a.file, b.file);
    } else if a.jobId != b.jobId {
      StrLeAntisymmetric(a.jobId, b.jobId);
    }
  }

  lemma DistinctKeysSeparate(selected: seq<Record>)
    requires Distinct(Map(selected, JobItem))
    ensures Separates(selected, ItemLe)
  {
    forall a, b | a in selected && b in selected && ItemLe(a, b) && ItemLe(b, a) ensures a == b {
      ItemLeSameKey(a, b);
      DistinctKeysIdentify(selected, JobItem, a, b);
    }
  }

  // ---- the loop ----

  lemma NoClashPrefix(scan: Scan, a: seq<Record>, b: seq<Record>)
    requires a <= b && NoClash(scan, b)
    ensures NoClash(scan, a)
  {
    assert b == a + b[|a|..];
    MapConcat(a, b[|a|..], JobItem);
    MapConcat(a, b[|a|..], WorkOf);
    DistinctPrefix(Map(a, JobItem), Map(b, JobItem));
    DistinctPrefix(Map(a, WorkOf), Map(b, WorkOf));
    assert forall r | r in a :: r in b;
  }

  lemma ClashStays(scan: Scan, records: seq<Record>, i: nat)
    requires i <= |records| && !NoClash(scan, EligibleOf(scan, records[..i]))
    ensures !Selectable(scan, records)
  {
    FilterPrefix(records, i, EligibleTest(scan));
    if NoClash(scan, EligibleOf(scan, records)) {
      NoClashPrefix(scan, EligibleOf(scan, records[..i]), EligibleOf(scan, records));
    }
  }

  function ProducerIds(selected: seq<Record>): set<string> {
    set r | r in selected :: ProducerId(r)
  }

  function WorkKeys(selected: seq<Record>): set<(string, string, seq<string>)> {
    set r | r in selected :: WorkKey(r)
  }

  lemma KeysSeen(selected: seq<Record>, r: Record)
    ensures ProducerId(r) in ProducerIds(selected) <==> JobItem(r) in Map(selected, JobItem)
    ensures WorkKey(r) in WorkKeys(selected) <==> WorkOf(r) in Map(selected, WorkOf)
  {
    forall s | s in selected
      ensures ProducerId(r) == ProducerId(s) <==> JobItem(r) == JobItem(s)
      ensures WorkKey(r) == WorkKey(s) <==> WorkOf(r) == WorkOf(s)
    {
      ProducerIdInjective(r, s);
      WorkKeyFaithful(r, s);
    }
    MapMembers(selected, JobItem, JobItem(r));
    MapMembers(selected, WorkOf, WorkOf(r));
  }

  /** One more record fits exactly when the loop body lets it pass. */
  lemma NoClashStep(scan: Scan, selected: seq<Record>, r: Record)
    requires NoClash(scan, selected)
    ensures NoClash(scan, selected + [r]) <==>
            && ProducerId(r) !in ProducerIds(selected)
            && RecordError(scan, NodesById(scan.nodes), r).None?
            && WorkKey(r) !in WorkKeys(selected)
  {
    KeysSeen(selected, r);
    AcceptableIffNoError(scan, r);
    MapConcat(selected, [r], JobItem);
    MapConcat(selected, [r], WorkOf);
    assert Map([r], JobItem) == [JobItem(r)] && Map([r], WorkOf) == [WorkOf(r)];
    DistinctSnoc(Map(selected, JobItem), JobItem(r));
    DistinctSnoc(Map(selected, WorkOf), WorkOf(r));
    assert (forall s | s in selected + [r] :: Acceptable(scan, s)) <==> Acceptable(scan, r);
  }

  method IndexNodes(nodes: seq<Node>) returns (byId: map<string, Node>)
    ensures byId == NodesById(nodes)
  {
    byId := map[];
    for i := 0 to |nodes|
      invariant byId == NodesById(nodes[..i])
    {
      assert nodes[..i + 1][..i] == nodes[..i];
      byId := byId[nodes[i].StableId() := nodes[i]];
    }
    assert nodes[..|nodes|] == nodes;
  }

  lemma KeySetsStep(selected: seq<Record>, r: Record)
    ensures ProducerIds(selected + [r]) == ProducerIds(selected) + {ProducerId(r)}
    ensures WorkKeys(selected + [r]) == WorkKeys(selected) + {WorkKey(r)}
  {
  }

  /** The records before position `i` have passed. */
  ghost predicate Passed(scan: Scan, records: seq<Record>, i: nat, selected: seq<Record>)
    requires i <= |records|
  {
    selected == EligibleOf(scan, records[..i]) && NoClash(scan, selected)
  }

  /** What stops the loop at a record, given those selected before it. */
  function RoundError(scan: Scan, selected: seq<Record>, r: Record): Option<SelectError> {
    if ProducerId(r) in ProducerIds(selected) then Some(DuplicateProducer)
    else
      match RecordError(scan, NodesById(scan.nodes), r)
      case Some(e) => Some(e)
      case None => if WorkKey(r) in WorkKeys(selected) then Some(DuplicateWork) else None
  }

  /** The records before position `i` have passed, and this error stops the loop there. */
  ghost predicate RefusedAt(scan: Scan, records: seq<Record>, i: nat, error: SelectError) {
    && i < |records| && Eligible(scan, records[i])
    && Passed(scan, records, i, EligibleOf(scan, records[..i]))
    && RoundError(scan, EligibleOf(scan, records[..i]), records[i]) == Some(error)
  }

  /** The loop body on the record at position `i`. */
  method Consider(scan: Scan, records: seq<Record>, i: nat, byId: map<string, Node>, selected: seq<Record>,
                  producers: set<string>, works: set<(string, string, seq<string>)>)
    returns (problem: Option<SelectError>)
    requires i < |records| && byId == NodesById(scan.nodes)
    requires Passed(scan, records, i, selected)
    requires producers == ProducerIds(selected) && works == WorkKeys(selected)
    requires Eligible(scan, records[i])
    ensures problem == RoundError(scan, selected, records[i])
    ensures problem.Some? ==> !Selectable(scan, records)
    ensures problem.None? ==> Passed(scan, records, i + 1, selected + [records[i]])
  {
    var r := records[i];
    assert records[..i + 1][..i] == records[..i];
    assert EligibleOf(scan, records[..i + 1]) == selected + [r];
    NoClashStep(scan, selected, r);
    if !NoClash(scan, selected + [r]) {
      ClashStays(scan, records, i + 1);
    }
    if ProducerId(r) in producers {
      return Some(DuplicateProducer);
    }
    problem := RecordError(scan, byId, r);
    if problem.Some? {
      return;
    }
    if WorkKey(r) in works {
      return Some(DuplicateWork);
    }
    return None;
  }

  lemma RefusedHere(scan: Scan, records: seq<Record>, i: nat, selected: seq<Record>, error: SelectError)
    requires i < |records| && Eligible(scan, records[i]) && Passed(scan, records, i, selected)
    requires RoundError(scan, selected, records[i]) == Some(error)
    ensures RefusedAt(scan, records, i, error) && error != MissingProducer
  {
  }

  lemma NamesByIds(scan: Scan, selected: seq<Record>)
    requires scan.authenticated.Some? && forall r | r in selected :: IsAuthenticated(scan, r)
    ensures scan.authenticated.value == ProducerIds(selected) <==> NamesPresent(scan, selected)
  {
  }

  method SelectWorkItemsForReport(scan: Scan, records: seq<Record>) returns (result: Result<seq<Record>, SelectError>)
    ensures result.Ok? <==> Selectable(scan, records)
    ensures result.Ok? ==> result.value == Sort(EligibleOf(scan, records), ItemLe)
    ensures result.Err? && result.error != MissingProducer ==> exists i: nat :: RefusedAt(scan, records, i, result.error)
    ensures result.Err? && result.error == MissingProducer ==>
              NoClash(scan, EligibleOf(scan, records)) && !NamesPresent(scan, EligibleOf(scan, records))
  {
    var byId := IndexNodes(scan.nodes);
    var selected: seq<Record> := [];
    var producers: set<string> := {};
    var works: set<(string, string, seq<string>)> := {};
    for i := 0 to |records|
      invariant Passed(scan, records, i, selected)
      invariant producers == ProducerIds(selected) && works == WorkKeys(selected)
    {
      if Eligible(scan, records[i]) {
        var problem := Consider(scan, records, i, byId, selected, producers, works);
        if problem.Some? {
          RefusedHere(scan, records, i, selected, problem.value);
          return Err(problem.value);
        }
        KeySetsStep(selected, records[i]);
        producers := producers + {ProducerId(records[i])};
        works := works + {WorkKey(records[i])};
        selected := selected + [records[i]];
      } else {
        assert records[..i + 1][..i] == records[..i];
      }
    }
    assert records[..|records|] == records;
    FilterMembers(records, EligibleTest(scan));
    if scan.authenticated.Some? {
      NamesByIds(scan, selected);
      if scan.authenticated.value != producers {
        return Err(MissingProducer);
      }
    }
    return Ok(Sort(selected, ItemLe));
  }

  // ---- order independence ----

  lemma SelectablePermutation(scan: Scan, a: seq<Record>, b: seq<Record>)
    requires multiset(a) == multiset(b)
    ensures NoClash(scan, a) <==> NoClash(scan, b)
    ensures NamesPresent(scan, a) <==> NamesPresent(scan, b)
  {
    SameElements(a, b);
    MapPermutation(a, b, JobItem);
    MapPermutation(a, b, WorkOf);
    DistinctPermutation(Map(a, JobItem), Map(b, JobItem));
    DistinctPermutation(Map(a, WorkOf), Map(b, WorkOf));
  }

  /** Listing the records in another order changes neither whether the selection succeeds nor
      what it returns. */
  lemma SelectionOrderIndependent(scan: Scan, a: seq<Record>, b: seq<Record>)
    requires multiset(a) == multiset(b)
    ensures Selectable(scan, a) <==> Selectable(scan, b)
    ensures Selectable(scan, a) ==>
              Sort(EligibleOf(scan, a), ItemLe) == Sort(EligibleOf(scan, b), ItemLe)
  {
    FilterPermutation(a, b, EligibleTest(scan));
    SelectablePermutation(scan, EligibleOf(scan, a), EligibleOf(scan, b));
    if Selectable(scan, a) {
      ItemOrder();
      DistinctKeysSeparate(EligibleOf(scan, a));
      SortCanonical(EligibleOf(scan, a), EligibleOf(scan, b), ItemLe);
    }
  }

  /** The list returned holds each record the scan is about once, in strict (file, job, item) order:
      those named by the authenticated ids, if there are any, and else those that a related job wrote
      since the scan began. */
  lemma SelectionStrictlyOrdered(scan: Scan, records: seq<Record>)
    requires Selectable(scan, records)
    ensures var out := Sort(EligibleOf(scan, records), ItemLe);
            && (scan.authenticated.None? ==> forall r ::
                  r in out <==> r in records && r.updatedAt >= scan.startedAt && r.jobId in scan.relatedJobs)
            && (scan.authenticated.Some? ==> forall r ::
                  r in out <==> r in records && r.jobId + ":" + Decimal(r.itemId) in scan.authenticated.value)
            && (forall i, j | 0 <= i < j < |out| :: ItemLe(out[i], out[j]) && !ItemLe(out[j], out[i]))
  {
    var selected := EligibleOf(scan, records);
    var out := Sort(selected, ItemLe);
    FilterMembers(records, EligibleTest(scan));
    ItemOrder();
    SortSorts(selected, ItemLe);
    SortPermutes(selected, ItemLe);
    SameElements(selected, out);
    MapPermutation(selected, out, JobItem);
    DistinctPermutation(Map(selected, JobItem), Map(out, JobItem));
    forall i, j | 0 <= i < j < |out| ensures !ItemLe(out[j], out[i]) {
      assert Map(out, JobItem)[i] != Map(out, JobItem)[j];
      if ItemLe(out[j], out[i]) {
        ItemLeSameKey(out[i], out[j]);
      }
    }
  }
}

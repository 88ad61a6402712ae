/** What a selection of work items holds and why one is refused, in terms of the records
    themselves and not of the tests the loop makes. */
module WorkItemMeaning {
  import opened Wrappers
  import opened Sorting
  import opened Text
  import opened RepoPath
  import opened GraphModel
  import opened WorkItems

  // ---- which records are asked for ----

  /** The record is one the scan is about: named by the authenticated ids, if there are any, and
      else written since the scan began by one of its jobs. */
  predicate AskedFor(scan: Scan, r: Record) {
    match scan.authenticated
    case None => scan.startedAt <= r.updatedAt && r.jobId in scan.relatedJobs
    case Some(ids) => r.jobId + ":" + Decimal(r.itemId) in ids
  }

  lemma EligibleIsAskedFor(scan: Scan, r: Record)
    ensures Eligible(scan, r) <==> AskedFor(scan, r)
  {
  }

  // ---- which records may back a report ----

  /** Of the nodes with this stable id number `i` comes last. */
  ghost predicate LastNode(nodes: seq<Node>, id: string, i: int) {
    && 0 <= i < |nodes| && nodes[i].StableId() == id
    && forall j | i < j < |nodes| :: nodes[j].StableId() != id
  }

  lemma {:induction false} NodesByIdHoldsLast(nodes: seq<Node>, id: string)
    ensures id in NodesById(nodes) <==> exists i :: LastNode(nodes, id, i)
    ensures forall i | LastNode(nodes, id, i) :: id in NodesById(nodes) && NodesById(nodes)[id] == nodes[i]
  {
    if nodes != [] {
      var n := |nodes| - 1;
      NodesByIdHoldsLast(nodes[..n], id);
      if nodes[n].StableId() == id {
        assert LastNode(nodes, id, n);
      } else {
        forall i ensures LastNode(nodes, id, i) <==> LastNode(nodes[..n], id, i) {
          EarlierNode(nodes, id, i);
        }
      }
    }
  }

  lemma EarlierNode(nodes: seq<Node>, id: string, i: int)
    requires nodes != [] && nodes[|nodes| - 1].StableId() != id
    ensures LastNode(nodes, id, i) <==> LastNode(nodes[..|nodes| - 1], id, i)
  {
    var front := nodes[..|nodes| - 1];
    assert forall j | 0 <= j < |front| :: front[j] == nodes[j];
  }

  /** The record was sealed for this node under the ledger's present contracts. */
  ghost predicate SealAgrees(ledger: Ledger, r: Record, node: Node) {
    && r.root == node.id.root
    && Normalized(r.file).Ok? && Normalized(node.id.file) == Normalized(r.file)
    && ledger.schemaVersion == r.identity.schemaVersion
    && ledger.plannerContract == r.identity.plannerContract
    && ledger.operationsDigest(r.operations) == r.identity.operationsDigest
    && ledger.identityDigest(r.identity) == r.identity.digest == r.inputHash
    && ledger.sealedAnchorPrefix(r.identity.requestAnchor).Some?
    && ledger.sealedAnchorPrefix(r.identity.requestAnchor).value == ledger.nodeAnchorPrefix(node)
  }

  /** The ids it claims are those of its output, edges and nodes. */
  ghost predicate OutputAgrees(ledger: Ledger, r: Record) {
    forall id :: id in r.producedIds <==>
      || (exists e | e in r.outputEdges :: e.StableId(ledger.evidenceHash) == id)
      || (exists n | n in r.outputNodes :: n.StableId() == id)
  }

  /** Work that was not done by this scan: carried over, or authenticated by id. */
  predicate Inherited(scan: Scan, r: Record) {
    r.recovery == CarriedCompleted || (scan.authenticated.Some? && r.jobId + ":" + Decimal(r.itemId) in scan.authenticated.value)
  }

  ghost predicate MayBack(scan: Scan, r: Record) {
    && (scan.authenticated.Some? && r.jobId + ":" + Decimal(r.itemId) in scan.authenticated.value ==>
          r.state == Completed && r.jobId in scan.relatedJobs)
    && (Inherited(scan, r) ==>
          && (exists i :: LastNode(scan.nodes, r.nodeId, i) && SealAgrees(scan.ledger, r, scan.nodes[i]))
          && OutputAgrees(scan.ledger, r))
    && (forall i, j | 0 <= i < j < |r.operations| :: r.operations[i] != r.operations[j])
  }

  lemma OutputIdsAgree(ledger: Ledger, r: Record)
    ensures OutputIds(ledger, r) == r.producedIds <==> OutputAgrees(ledger, r)
  {
    var ids := OutputIds(ledger, r);
    forall id ensures id in ids <==>
      || (exists e | e in r.outputEdges :: e.StableId(ledger.evidenceHash) == id)
      || (exists n | n in r.outputNodes :: n.StableId() == id)
    {
    }
  }

  lemma SealedForAgrees(ledger: Ledger, r: Record, node: Node)
    ensures Normalized(r.file).Ok? && SealedFor(ledger, r, node) <==> SealAgrees(ledger, r, node)
  {
  }

  lemma AcceptableMayBack(scan: Scan, r: Record)
    ensures Acceptable(scan, r) <==> MayBack(scan, r)
  {
    NodesByIdHoldsLast(scan.nodes, r.nodeId);
    OutputIdsAgree(scan.ledger, r);
    forall node ensures Normalized(r.file).Ok? && SealedFor(scan.ledger, r, node) <==> SealAgrees(scan.ledger, r, node) {
      SealedForAgrees(scan.ledger, r, node);
    }
  }

  // ---- the whole selection ----

  /** The records asked for may each back a report, no two of them are one producer or do the same
      work, and together they name every authenticated id. */
  ghost predicate MaySelect(scan: Scan, records: seq<Record>) {
    && (forall r | r in records && AskedFor(scan, r) :: MayBack(scan, r))
    && (forall i, j | 0 <= i < j < |records| && AskedFor(scan, records[i]) && AskedFor(scan, records[j]) ::
          !SameProducer(records[i], records[j]) && !SameWork(records[i], records[j]))
    && (scan.authenticated.Some? ==> forall id | id in scan.authenticated.value ::
          exists r | r in records :: r.jobId + ":" + Decimal(r.itemId) == id)
  }

  predicate SameProducer(r: Record, s: Record) {
    r.jobId == s.jobId && r.itemId == s.itemId
  }

  predicate SameWork(r: Record, s: Record) {
    r.nodeId == s.nodeId && r.inputHash == s.inputHash && multiset(r.operations) == multiset(s.operations)
  }

  lemma AskedForTest(scan: Scan)
    ensures forall r :: EligibleTest(scan)(r) <==> AskedFor(scan, r)
  {
    forall r ensures EligibleTest(scan)(r) <==> AskedFor(scan, r) {
      EligibleIsAskedFor(scan, r);
    }
  }

  lemma ProducersDiffer(scan: Scan, records: seq<Record>)
    ensures Distinct(Map(EligibleOf(scan, records), JobItem)) <==>
            forall i, j | 0 <= i < j < |records| && AskedFor(scan, records[i]) && AskedFor(scan, records[j]) ::
              !SameProducer(records[i], records[j])
  {
    DistinctFiltered(records, EligibleTest(scan), JobItem);
    AskedForTest(scan);
    assert forall r, s :: JobItem(r) == JobItem(s) <==> SameProducer(r, s);
  }

  lemma WorksDiffer(scan: Scan, records: seq<Record>)
    ensures Distinct(Map(EligibleOf(scan, records), WorkOf)) <==>
            forall i, j | 0 <= i < j < |records| && AskedFor(scan, records[i]) && AskedFor(scan, records[j]) ::
              !SameWork(records[i], records[j])
  {
    DistinctFiltered(records, EligibleTest(scan), WorkOf);
    AskedForTest(scan);
    assert forall r, s :: WorkOf(r) == WorkOf(s) <==> SameWork(r, s);
  }

  lemma AllNamed(scan: Scan, records: seq<Record>)
    ensures NamesPresent(scan, EligibleOf(scan, records)) <==>
            (scan.authenticated.Some? ==> forall id | id in scan.authenticated.value ::
               exists r | r in records :: r.jobId + ":" + Decimal(r.itemId) == id)
  {
    var selected := EligibleOf(scan, records);
    FilterMembers(records, EligibleTest(scan));
    if scan.authenticated.Some? {
      forall id | id in scan.authenticated.value
        ensures (exists r | r in selected :: ProducerId(r) == id) <==>
                (exists r | r in records :: r.jobId + ":" + Decimal(r.itemId) == id)
      {
        if r :| r in records && r.jobId + ":" + Decimal(r.itemId) == id {
          assert r in selected && ProducerId(r) == id;
        }
      }
    }
  }

  lemma SelectableMaySelect(scan: Scan, records: seq<Record>)
    ensures Selectable(scan, records) <==> MaySelect(scan, records)
  {
    var selected := EligibleOf(scan, records);
    ProducersDiffer(scan, records);
    WorksDiffer(scan, records);
    AllNamed(scan, records);
    FilterMembers(records, EligibleTest(scan));
    forall r ensures r in selected <==> r in records && AskedFor(scan, r) {
      EligibleIsAskedFor(scan, r);
    }
    EachMayBack(scan, records, selected);
  }

  lemma EachMayBack(scan: Scan, records: seq<Record>, selected: seq<Record>)
    requires forall r :: r in selected <==> r in records && AskedFor(scan, r)
    ensures (forall r | r in selected :: Acceptable(scan, r)) <==> forall r | r in records && AskedFor(scan, r) :: MayBack(scan, r)
  {
    forall r ensures Acceptable(scan, r) <==> MayBack(scan, r) {
      AcceptableMayBack(scan, r);
    }
  }

  /** `a` comes before `b` in a report. */
  predicate ComesBefore(a: Record, b: Record) {
    || (a.file != b.file && StrLe(a.file, b.file))
    || (a.file == b.file && a.jobId != b.jobId && StrLe(a.jobId, b.jobId))
    || (a.file == b.file && a.jobId == b.jobId && a.itemId < b.itemId)
  }

  /** What a successful selection returns: exactly the records asked for, each once, by file, then
      job, then item. */
  lemma SelectionHolds(scan: Scan, records: seq<Record>)
    requires MaySelect(scan, records)
    ensures var out := Sort(EligibleOf(scan, records), ItemLe);
            && (forall i, j | 0 <= i < j < |out| :: ComesBefore(out[i], out[j]))
            && (scan.authenticated.None? ==> forall r :: r in out <==>
                  r in records && r.updatedAt >= scan.startedAt && r.jobId in scan.relatedJobs)
            && (scan.authenticated.Some? ==> forall r :: r in out <==>
                  r in records && r.jobId + ":" + Decimal(r.itemId) in scan.authenticated.value)
            && (scan.authenticated.Some? ==> forall r | r in out :: r.state == Completed && r.jobId in scan.relatedJobs)
  {
    SelectableMaySelect(scan, records);
    SelectionStrictlyOrdered(scan, records);
    FilterMembers(records, EligibleTest(scan));
    var out := Sort(EligibleOf(scan, records), ItemLe);
    forall i, j | 0 <= i < j < |out| ensures ComesBefore(out[i], out[j]) {
      StrictlyBefore(out[i], out[j]);
    }
  }

  lemma StrictlyBefore(a: Record, b: Record)
    requires ItemLe(a, b) && !ItemLe(b, a)
    ensures ComesBefore(a, b)
  {
  }

  // ---- why a selection is refused ----

  /** An earlier record that was asked for and shares the producer, or the work, of number `i`. */
  ghost predicate EarlierProducer(scan: Scan, records: seq<Record>, i: nat) {
    i < |records| && exists r | r in records[..i] :: AskedFor(scan, r) && SameProducer(r, records[i])
  }

  ghost predicate EarlierWork(scan: Scan, records: seq<Record>, i: nat) {
    i < |records| && exists r | r in records[..i] :: AskedFor(scan, r) && SameWork(r, records[i])
  }

  ghost predicate PathsReadable(r: Record, node: Node) {
    Normalized(r.file).Ok? && Normalized(node.id.file).Ok?
  }

  /** What each error says about record number `i`. */
  ghost predicate Reason(scan: Scan, records: seq<Record>, i: nat, error: SelectError) {
    && i < |records| && AskedFor(scan, records[i])
    && var r := records[i];
       match error
       case DuplicateProducer => EarlierProducer(scan, records, i)
       case ProducerNotCompleted => scan.authenticated.Some? && r.state != Completed
       case ProducerOutsideJobs => scan.authenticated.Some? && r.jobId !in scan.relatedJobs
       case NoGraphInput => Inherited(scan, r) && forall n | n in scan.nodes :: n.StableId() != r.nodeId
       case InvalidRecordPath =>
         Inherited(scan, r) && exists k :: LastNode(scan.nodes, r.nodeId, k) && !PathsReadable(r, scan.nodes[k])
       case WorkIdentityMismatch =>
         Inherited(scan, r) && exists k :: LastNode(scan.nodes, r.nodeId, k) && PathsReadable(r, scan.nodes[k])
                                           && !SealAgrees(scan.ledger, r, scan.nodes[k])
       case OutputMismatch => Inherited(scan, r) && !OutputAgrees(scan.ledger, r)
       case DuplicateOperation => exists a, b :: 0 <= a < b < |r.operations| && r.operations[a] == r.operations[b]
       case DuplicateWork => EarlierWork(scan, records, i)
       case MissingProducer => false
  }

  lemma SeenEarlier(scan: Scan, records: seq<Record>, i: nat)
    requires i < |records|
    ensures ProducerId(records[i]) in ProducerIds(EligibleOf(scan, records[..i])) ==> EarlierProducer(scan, records, i)
    ensures WorkKey(records[i]) in WorkKeys(EligibleOf(scan, records[..i])) ==> EarlierWork(scan, records, i)
  {
    FilterMembers(records[..i], EligibleTest(scan));
    forall r | r in EligibleOf(scan, records[..i])
      ensures r in records[..i] && AskedFor(scan, r)
      ensures ProducerId(records[i]) == ProducerId(r) ==> SameProducer(r, records[i])
      ensures WorkKey(records[i]) == WorkKey(r) ==> SameWork(r, records[i])
    {
      EligibleIsAskedFor(scan, r);
      ProducerIdInjective(records[i], r);
      WorkKeyFaithful(records[i], r);
    }
  }

  lemma NoNodeNamed(nodes: seq<Node>, id: string)
    requires id !in NodesById(nodes)
    ensures forall n | n in nodes :: n.StableId() != id
  {
    NodesByIdHoldsAll(nodes, id);
  }

  lemma {:induction false} NodesByIdHoldsAll(nodes: seq<Node>, id: string)
    ensures id in NodesById(nodes) <==> exists n | n in nodes :: n.StableId() == id
  {
    if nodes != [] {
      var n := |nodes| - 1;
      NodesByIdHoldsAll(nodes[..n], id);
      assert nodes == nodes[..n] + [nodes[n]];
    }
  }

  lemma RecoveredReason(scan: Scan, records: seq<Record>, i: nat, error: SelectError)
    requires i < |records| && AskedFor(scan, records[i]) && Inherited(scan, records[i])
    requires RecoveredError(scan, NodesById(scan.nodes), records[i]) == Some(error)
    ensures Reason(scan, records, i, error)
  {
    var r := records[i];
    if r.nodeId !in NodesById(scan.nodes) {
      NoNodeNamed(scan.nodes, r.nodeId);
    } else {
      NodesByIdHoldsLast(scan.nodes, r.nodeId);
      var k :| LastNode(scan.nodes, r.nodeId, k);
      SealedForAgrees(scan.ledger, r, scan.nodes[k]);
      OutputIdsAgree(scan.ledger, r);
    }
  }

  /** The record the selection stops at gives the reason the error names, and those before it could
      have been selected. */
  lemma RefusalMeans(scan: Scan, records: seq<Record>, i: nat, error: SelectError)
    requires RefusedAt(scan, records, i, error)
    ensures Reason(scan, records, i, error)
    ensures forall r | r in records[..i] && AskedFor(scan, r) :: MayBack(scan, r)
  {
    var r := records[i];
    EligibleIsAskedFor(scan, r);
    SeenEarlier(scan, records, i);
    if RecordError(scan, NodesById(scan.nodes), r) == Some(error) && Inherited(scan, r) &&
       RecoveredError(scan, NodesById(scan.nodes), r) == Some(error) {
      RecoveredReason(scan, records, i, error);
    }
    StrLeIsOrder();
    AdjacentEqualDetects(r.operations, StrLe);
    FilterMembers(records[..i], EligibleTest(scan));
    forall s | s in records[..i] && AskedFor(scan, s) ensures MayBack(scan, s) {
      EligibleIsAskedFor(scan, s);
      AcceptableMayBack(scan, s);
    }
  }
}

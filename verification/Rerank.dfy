/** Mapping a cross-encoder's output back to the candidates, ordering it, and the strict lane's
    demand for an exact permutation. */
module Rerank {
  import opened Wrappers
  import opened Sorting

  /** A model score. Finite scores are compared as real numbers. */
  datatype Score = NaN | NegInf | Finite(value: real) | PosInf

  datatype Comparison = Less | Equal | Greater

  datatype Candidate = Candidate(text: string, originalIndex: nat)
  datatype Emitted = Emitted(index: nat, score: Score)
  datatype Reranked = Reranked(originalIndex: nat, score: Score)

  datatype RerankError =
    | ModelFailed | InvalidIndex(index: nat, candidates: nat)
    | CountMismatch | DuplicateOriginals | NotAPermutation | NonFiniteScore

  // ---- order ----

  function PartialCmp(a: Score, b: Score): Option<Comparison> {
    if a.NaN? || b.NaN? then None
    else if a == b then Some(Equal)
    else if a.NegInf? || b.PosInf? then Some(Less)
    else if a.PosInf? || b.NegInf? then Some(Greater)
    else if a.value < b.value then Some(Less)
    else Some(Greater)
  }

  /** The comparator of `sort_reranked_results`, as "not after". */
  predicate RankLe(a: Reranked, b: Reranked) {
    match PartialCmp(b.score, a.score)
    case Some(Less) => true
    case Some(Greater) => false
    case _ => a.originalIndex <= b.originalIndex
  }

  predicate NoNaN(s: seq<Reranked>) {
    forall r | r in s :: !r.score.NaN?
  }

  predicate Higher(a: Score, b: Score) {
    || (a.PosInf? && (b.Finite? || b.NegInf?))
    || (a.Finite? && (b.NegInf? || (b.Finite? && b.value < a.value)))
  }

  /** What the comparator is meant to be: higher scores first, ties by original index. */
  predicate Outranks(a: Reranked, b: Reranked) {
    Higher(a.score, b.score)
    || (a.score == b.score && !a.score.NaN? && a.originalIndex <= b.originalIndex)
  }

  lemma RankLeMeans(a: Reranked, b: Reranked)
    requires !a.score.NaN? && !b.score.NaN?
    ensures RankLe(a, b) <==> Outranks(a, b)
    ensures RankLe(a, b) || RankLe(b, a)
    ensures RankLe(a, b) && RankLe(b, a) ==> a == b
  {
  }

  /** `NaN` ties with everything, which is not transitive: no order to sort by. */
  lemma NaNBreaksTheOrder()
    ensures var a, b, c := Reranked(0, Finite(1.0)), Reranked(1, NaN), Reranked(2, Finite(2.0));
            RankLe(a, b) && RankLe(b, c) && !RankLe(a, c)
  {
  }

  /** The comparator extended to a total order by ranking `NaN` last; equal to it without `NaN`. */
  predicate TotalRankLe(a: Reranked, b: Reranked) {
    if a.score.NaN? then b.score.NaN? && a.originalIndex <= b.originalIndex
    else b.score.NaN? || RankLe(a, b)
  }

  lemma TotalRankTransitive(a: Reranked, b: Reranked, c: Reranked)
    requires TotalRankLe(a, b) && TotalRankLe(b, c)
    ensures TotalRankLe(a, c)
  {
    if !a.score.NaN? && !b.score.NaN? && !c.score.NaN? {
      RankLeMeans(a, b);
      RankLeMeans(b, c);
      RankLeMeans(a, c);
    }
  }

  lemma TotalRankIsOrder()
    ensures TotalOrder(TotalRankLe)
  {
    forall a, b, c | TotalRankLe(a, b) && TotalRankLe(b, c) ensures TotalRankLe(a, c) {
      TotalRankTransitive(a, b, c);
    }
  }

  /** The stable sort under two comparators that agree on the list. */
  lemma {:induction false} SortAgrees(s: seq<Reranked>)
    requires NoNaN(s)
    ensures Sort(s, RankLe) == Sort(s, TotalRankLe)
  {
    if s != [] {
      assert forall r | r in s[1..] :: r in s;
      SortAgrees(s[1..]);
      var tail := Sort(s[1..], RankLe);
      SortPermutes(s[1..], RankLe);
      SameElements(s[1..], tail);
      InsertAgrees(s[0], tail);
    }
  }

  lemma {:induction false} InsertAgrees(x: Reranked, s: seq<Reranked>)
    requires !x.score.NaN? && NoNaN(s)
    ensures Insert(x, s, RankLe) == Insert(x, s, TotalRankLe)
  {
    if s != [] {
      assert s[0] in s;
      assert forall r | r in s[1..] :: r in s;
      InsertAgrees(x, s[1..]);
    }
  }

  // ---- sorting in place ----

  /** With a `NaN` among the scores the library promises no particular order. */
  method SortRerankedResults(results: array<Reranked>)
    modifies results
    ensures multiset(results[..]) == multiset(old(results[..]))
    ensures NoNaN(old(results[..])) ==> results[..] == Sort(old(results[..]), RankLe)
  {
    var sorted := Sort(results[..], RankLe);
    SortPermutes(results[..], RankLe);
    forall i | 0 <= i < results.Length {
      results[i] := sorted[i];
    }
    assert results[..] == sorted;
  }

  /** Without `NaN` the sorted list is the one permutation in which everyone outranks what follows. */
  lemma SortedIsTheRanking(s: seq<Reranked>, t: seq<Reranked>)
    requires NoNaN(s) && multiset(t) == multiset(s)
    ensures t == Sort(s, RankLe) <==> forall i, j | 0 <= i < j < |t| :: Outranks(t[i], t[j])
  {
    var sorted := Sort(s, RankLe);
    SortAgrees(s);
    TotalRankIsOrder();
    SortSorts(s, TotalRankLe);
    SortPermutes(s, TotalRankLe);
    SameElements(s, t);
    SameElements(s, sorted);
    forall i, j | 0 <= i < j < |sorted| ensures Outranks(sorted[i], sorted[j]) {
      assert sorted[i] in s && sorted[j] in s;
      RankLeMeans(sorted[i], sorted[j]);
    }
    if forall i, j | 0 <= i < j < |t| :: Outranks(t[i], t[j]) {
      forall i, j | 0 <= i < j < |t| ensures TotalRankLe(t[i], t[j]) {
        assert t[i] in s && t[j] in s;
        RankLeMeans(t[i], t[j]);
      }
      SortedUnique(t, sorted, TotalRankLe);
    }
  }

  // ---- mapping back ----

  predicate InRange(candidates: seq<Candidate>, emitted: seq<Emitted>) {
    forall e | e in emitted :: e.index < |candidates|
  }

  function Back(candidates: seq<Candidate>): Emitted -> Reranked {
    (e: Emitted) => if e.index < |candidates| then Reranked(candidates[e.index].originalIndex, e.score) else Reranked(0, e.score)
  }

  function MappedBack(candidates: seq<Candidate>, emitted: seq<Emitted>): seq<Reranked> {
    Map(emitted, Back(candidates))
  }

  /** What the strict and the ordinary lane build from the model's output. */
  method RerankWithModel(candidates: seq<Candidate>, output: Option<seq<Emitted>>) returns (r: Result<seq<Reranked>, RerankError>)
    ensures output.None? ==> r == Err(ModelFailed)
    ensures output.Some? ==> (r.Ok? <==> InRange(candidates, output.value))
    ensures r.Ok? ==> multiset(r.value) == multiset(MappedBack(candidates, output.value))
    ensures r.Ok? && NoNaN(r.value) ==> r.value == Sort(MappedBack(candidates, output.value), RankLe)
    ensures output.Some? && r.Err? ==> exists k | 0 <= k < |output.value| ::
              && output.value[k].index >= |candidates| && InRange(candidates, output.value[..k])
              && r.error == InvalidIndex(output.value[k].index, |candidates|)
  {
    if output.None? {
      return Err(ModelFailed);
    }
    var emitted := output.value;
    var results: seq<Reranked> := [];
    for k := 0 to |emitted|
      invariant InRange(candidates, emitted[..k])
      invariant results == MappedBack(candidates, emitted[..k])
    {
      if emitted[k].index >= |candidates| {
        return Err(InvalidIndex(emitted[k].index, |candidates|));
      }
      assert emitted[..k + 1] == emitted[..k] + [emitted[k]];
      results := results + [Reranked(candidates[emitted[k].index].originalIndex, emitted[k].score)];
    }
    assert emitted[..|emitted|] == emitted;
    var slice := new Reranked[|results|](i requires 0 <= i < |results| => results[i]);
    assert slice[..] == results;
    SortRerankedResults(slice);
    SameElements(slice[..], results);
    return Ok(slice[..]);
  }

  // ---- strict validation ----

  function OriginalOf(r: Reranked): nat {
    r.originalIndex
  }

  function Originals(candidates: seq<Candidate>): seq<nat> {
    Map(candidates, (c: Candidate) => c.originalIndex)
  }

  function ResultOriginals(results: seq<Reranked>): seq<nat> {
    Map(results, OriginalOf)
  }

  function Indices(emitted: seq<Emitted>): seq<nat> {
    Map(emitted, (e: Emitted) => e.index)
  }

  predicate AllFinite(results: seq<Reranked>) {
    forall r | r in results :: r.score.Finite?
  }

  function ValidateStrictRerank(candidates: seq<Candidate>, results: seq<Reranked>): Result<(), RerankError> {
    if |results| != |candidates| then Err(CountMismatch)
    else
      var expected := SetOf(Originals(candidates));
      var observed := SetOf(ResultOriginals(results));
      if |expected| != |candidates| then Err(DuplicateOriginals)
      else if |observed| != |results| || observed != expected then Err(NotAPermutation)
      else if !AllFinite(results) then Err(NonFiniteScore)
      else Ok(())
  }

  /** The emitted indices are `0..n`, each once. */
  predicate IsPermutation(emitted: seq<Emitted>, n: nat) {
    |emitted| == n && Distinct(Indices(emitted)) && forall e | e in emitted :: e.index < n
  }

  predicate FiniteScores(emitted: seq<Emitted>) {
    forall e | e in emitted :: e.score.Finite?
  }

  lemma SetOfPermutation<T>(s: seq<T>, t: seq<T>)
    requires multiset(s) == multiset(t)
    ensures SetOf(s) == SetOf(t)
  {
    SameElements(s, t);
  }

  lemma MappedOriginal(candidates: seq<Candidate>, emitted: seq<Emitted>, k: nat)
    requires InRange(candidates, emitted) && k < |emitted|
    ensures Indices(emitted)[k] == emitted[k].index < |candidates|
    ensures ResultOriginals(MappedBack(candidates, emitted))[k] == Originals(candidates)[emitted[k].index]
  {
    assert emitted[k] in emitted;
  }

  /** With distinct originals, distinct indices and distinct mapped originals are the same thing. */
  lemma MappedDistinct(candidates: seq<Candidate>, emitted: seq<Emitted>)
    requires InRange(candidates, emitted) && Distinct(Originals(candidates))
    ensures Distinct(ResultOriginals(MappedBack(candidates, emitted))) <==> Distinct(Indices(emitted))
  {
    var mapped := ResultOriginals(MappedBack(candidates, emitted));
    forall i, j | 0 <= i < j < |emitted| ensures mapped[i] == mapped[j] <==> Indices(emitted)[i] == Indices(emitted)[j] {
      MappedOriginal(candidates, emitted, i);
      MappedOriginal(candidates, emitted, j);
    }
  }

  lemma MappedContained(candidates: seq<Candidate>, emitted: seq<Emitted>)
    requires InRange(candidates, emitted)
    ensures SetOf(ResultOriginals(MappedBack(candidates, emitted))) <= SetOf(Originals(candidates))
  {
    var mapped := ResultOriginals(MappedBack(candidates, emitted));
    forall x | x in mapped ensures x in Originals(candidates) {
      var k :| 0 <= k < |mapped| && mapped[k] == x;
      MappedOriginal(candidates, emitted, k);
    }
  }

  lemma MappedFinite(candidates: seq<Candidate>, emitted: seq<Emitted>, results: seq<Reranked>)
    requires InRange(candidates, emitted) && multiset(results) == multiset(MappedBack(candidates, emitted))
    ensures AllFinite(results) <==> FiniteScores(emitted)
  {
    var mapped := MappedBack(candidates, emitted);
    SameElements(results, mapped);
    forall k | 0 <= k < |emitted| ensures mapped[k] in results && mapped[k].score == emitted[k].score {
    }
    if AllFinite(results) {
      forall e | e in emitted ensures e.score.Finite? {
        var k :| 0 <= k < |emitted| && emitted[k] == e;
        assert mapped[k] in results;
      }
    }
  }

  /** The strict lane accepts exactly when the candidates carry distinct original indices, the
      model emitted each candidate once, and every score is finite. */
  lemma StrictAcceptsExactly(candidates: seq<Candidate>, emitted: seq<Emitted>, results: seq<Reranked>)
    requires InRange(candidates, emitted) && multiset(results) == multiset(MappedBack(candidates, emitted))
    ensures ValidateStrictRerank(candidates, results).Ok? <==>
            Distinct(Originals(candidates)) && IsPermutation(emitted, |candidates|) && FiniteScores(emitted)
  {
    var mapped := MappedBack(candidates, emitted);
    SameElements(results, mapped);
    MapPermutation(results, mapped, OriginalOf);
    SetOfPermutation(ResultOriginals(results), ResultOriginals(mapped));
    SetSize(Originals(candidates));
    SetSize(ResultOriginals(mapped));
    MappedFinite(candidates, emitted, results);
    MappedContained(candidates, emitted);
    if Distinct(Originals(candidates)) {
      MappedDistinct(candidates, emitted);
      if |SetOf(ResultOriginals(mapped))| == |candidates| {
        ContainedSameSize(SetOf(ResultOriginals(mapped)), SetOf(Originals(candidates)));
      }
    }
  }

  lemma FiniteHasNoNaN(results: seq<Reranked>)
    requires AllFinite(results)
    ensures NoNaN(results)
  {
  }

  /** An accepted result lists every original index exactly once, each outranking what follows. */
  lemma StrictResultIsTheRanking(candidates: seq<Candidate>, emitted: seq<Emitted>, results: seq<Reranked>)
    requires results == Sort(MappedBack(candidates, emitted), RankLe)
    requires ValidateStrictRerank(candidates, results).Ok?
    ensures multiset(ResultOriginals(results)) == multiset(Originals(candidates))
    ensures Distinct(ResultOriginals(results))
    ensures forall i, j | 0 <= i < j < |results| :: Outranks(results[i], results[j])
  {
    var mapped := MappedBack(candidates, emitted);
    SortPermutes(mapped, RankLe);
    SameElements(results, mapped);
    assert NoNaN(mapped);
    SortedIsTheRanking(mapped, results);
    SetSize(ResultOriginals(results));
    SetSize(Originals(candidates));
    SameDistinctSets(ResultOriginals(results), Originals(candidates));
  }

  /** What is accepted depends on the (index, score) pairs, not on the order they came in. */
  lemma EmissionOrderIrrelevant(candidates: seq<Candidate>, a: seq<Emitted>, b: seq<Emitted>)
    requires multiset(a) == multiset(b) && NoNaN(MappedBack(candidates, a))
    ensures Sort(MappedBack(candidates, a), RankLe) == Sort(MappedBack(candidates, b), RankLe)
  {
    MapPermutation(a, b, Back(candidates));
    var left, right := MappedBack(candidates, a), MappedBack(candidates, b);
    SameElements(left, right);
    SortAgrees(left);
    SortAgrees(right);
    TotalRankIsOrder();
    SortCanonical(left, right, TotalRankLe);
  }

  /** What the strict lane can accept of a model's output. */
  ghost predicate StrictlyRankable(candidates: seq<Candidate>, output: Option<seq<Emitted>>) {
    && output.Some? && Distinct(Originals(candidates))
    && IsPermutation(output.value, |candidates|) && FiniteScores(output.value)
  }

  /** What the strict lane refuses a model's output for: the first thing that is wrong with it. */
  ghost predicate Refused(candidates: seq<Candidate>, output: Option<seq<Emitted>>, error: RerankError) {
    match error
    case ModelFailed => output.None?
    case InvalidIndex(index, n) =>
      output.Some? && n == |candidates| && index >= n && exists e | e in output.value :: e.index == index
    case CountMismatch =>
      output.Some? && (forall e | e in output.value :: e.index < |candidates|) && |output.value| != |candidates|
    case DuplicateOriginals =>
      exists i, j :: 0 <= i < j < |candidates| && candidates[i].originalIndex == candidates[j].originalIndex
    case NotAPermutation =>
      output.Some? && exists i, j :: 0 <= i < j < |output.value| && output.value[i].index == output.value[j].index
    case NonFiniteScore => output.Some? && exists e | e in output.value :: !e.score.Finite?
  }

  lemma NotDistinctPair<T>(s: seq<T>)
    requires !Distinct(s)
    ensures exists i, j :: 0 <= i < j < |s| && s[i] == s[j]
  {
  }

  lemma VerdictMeans(candidates: seq<Candidate>, emitted: seq<Emitted>, results: seq<Reranked>)
    requires InRange(candidates, emitted) && multiset(results) == multiset(MappedBack(candidates, emitted))
    requires ValidateStrictRerank(candidates, results).Err?
    ensures Refused(candidates, Some(emitted), ValidateStrictRerank(candidates, results).error)
  {
    var mapped := MappedBack(candidates, emitted);
    SameElements(results, mapped);
    match ValidateStrictRerank(candidates, results).error
    case DuplicateOriginals =>
      SetSize(Originals(candidates));
      NotDistinctPair(Originals(candidates));
      var i, j :| 0 <= i < j < |candidates| && Originals(candidates)[i] == Originals(candidates)[j];
      assert candidates[i].originalIndex == candidates[j].originalIndex;
    case NotAPermutation =>
      NotEachOnce(candidates, emitted, results);
    case NonFiniteScore =>
      MappedFinite(candidates, emitted, results);
    case _ =>
  }

  lemma NotEachOnce(candidates: seq<Candidate>, emitted: seq<Emitted>, results: seq<Reranked>)
    requires InRange(candidates, emitted) && multiset(results) == multiset(MappedBack(candidates, emitted))
    requires ValidateStrictRerank(candidates, results) == Err(NotAPermutation)
    ensures exists i, j :: 0 <= i < j < |emitted| && emitted[i].index == emitted[j].index
  {
    var mapped := MappedBack(candidates, emitted);
    SameElements(results, mapped);
    MapPermutation(results, mapped, OriginalOf);
    SetOfPermutation(ResultOriginals(results), ResultOriginals(mapped));
    SetSize(Originals(candidates));
    SetSize(ResultOriginals(mapped));
    MappedContained(candidates, emitted);
    MappedDistinct(candidates, emitted);
    if Distinct(Indices(emitted)) {
      ContainedSameSize(SetOf(ResultOriginals(mapped)), SetOf(Originals(candidates)));
    }
    NotDistinctPair(Indices(emitted));
    var i, j :| 0 <= i < j < |emitted| && Indices(emitted)[i] == Indices(emitted)[j];
    assert emitted[i].index == emitted[j].index;
  }

  /** `rerank_with_model` followed by `validate_strict_rerank`. */
  method RankStrictly(candidates: seq<Candidate>, output: Option<seq<Emitted>>) returns (r: Result<seq<Reranked>, RerankError>)
    ensures r.Ok? <==> StrictlyRankable(candidates, output)
    ensures r.Ok? ==> r.value == Sort(MappedBack(candidates, output.value), RankLe)
    ensures r.Err? ==> Refused(candidates, output, r.error)
  {
    r := RerankWithModel(candidates, output);
    if r.Err? {
      return;
    }
    StrictAcceptsExactly(candidates, output.value, r.value);
    var verdict := ValidateStrictRerank(candidates, r.value);
    if verdict.Err? {
      VerdictMeans(candidates, output.value, r.value);
      return Err(verdict.error);
    }
    FiniteHasNoNaN(r.value);
  }

  lemma RankedMembers(candidates: seq<Candidate>, emitted: seq<Emitted>, x: Reranked)
    requires InRange(candidates, emitted)
    ensures x in Sort(MappedBack(candidates, emitted), RankLe) <==> exists e | e in emitted ::
              e.index < |candidates| && x.originalIndex == candidates[e.index].originalIndex && x.score == e.score
  {
    var mapped := MappedBack(candidates, emitted);
    SortPermutes(mapped, RankLe);
    SameElements(Sort(mapped, RankLe), mapped);
    MapMembers(emitted, Back(candidates), x);
  }

  lemma RankedInOrder(candidates: seq<Candidate>, emitted: seq<Emitted>, i: int, j: int)
    requires StrictlyRankable(candidates, Some(emitted)) && 0 <= i < j < |Sort(MappedBack(candidates, emitted), RankLe)|
    ensures var out := Sort(MappedBack(candidates, emitted), RankLe);
            && Outranks(out[i], out[j]) && out[i].originalIndex != out[j].originalIndex
            && out[i].score.Finite? && out[j].score.Finite?
  {
    var mapped := MappedBack(candidates, emitted);
    var out := Sort(mapped, RankLe);
    SortPermutes(mapped, RankLe);
    MappedFinite(candidates, emitted, out);
    StrictAcceptsExactly(candidates, emitted, out);
    StrictResultIsTheRanking(candidates, emitted, out);
    assert out[i] in out && out[j] in out;
    assert ResultOriginals(out)[i] != ResultOriginals(out)[j];
  }

  /** What a strict request returns, said of candidates and model output: as many results as
      candidates, one for each thing the model emitted, higher scores first and ties by index. */
  lemma RankedMeans(candidates: seq<Candidate>, output: Option<seq<Emitted>>)
    requires StrictlyRankable(candidates, output)
    ensures var out := Sort(MappedBack(candidates, output.value), RankLe);
            && |out| == |candidates| == |output.value|
            && (forall x :: x in out <==> exists e | e in output.value ::
                  e.index < |candidates| && x.originalIndex == candidates[e.index].originalIndex && x.score == e.score)
            && (forall i, j | 0 <= i < j < |out| ::
                  && out[i].score.Finite? && out[j].score.Finite?
                  && (out[i].score.value > out[j].score.value
                      || (out[i].score.value == out[j].score.value && out[i].originalIndex < out[j].originalIndex)))
  {
    var out := Sort(MappedBack(candidates, output.value), RankLe);
    SortPermutes(MappedBack(candidates, output.value), RankLe);
    forall x ensures x in out <==> exists e | e in output.value ::
      e.index < |candidates| && x.originalIndex == candidates[e.index].originalIndex && x.score == e.score
    {
      RankedMembers(candidates, output.value, x);
    }
    forall i, j | 0 <= i < j < |out|
      ensures Outranks(out[i], out[j]) && out[i].originalIndex != out[j].originalIndex && out[i].score.Finite? && out[j].score.Finite?
    {
      RankedInOrder(candidates, output.value, i, j);
    }
  }

  /** The output can be ranked exactly when the candidates have different original indices, the model
      emitted each of them once, and all its scores are finite. */
  lemma RankableMeans(candidates: seq<Candidate>, output: Option<seq<Emitted>>)
    ensures StrictlyRankable(candidates, output) <==>
            && (forall i, j | 0 <= i < j < |candidates| :: candidates[i].originalIndex != candidates[j].originalIndex)
            && output.Some? && |output.value| == |candidates|
            && (forall e | e in output.value :: e.index < |candidates| && e.score.Finite?)
            && (forall i, j | 0 <= i < j < |output.value| :: output.value[i].index != output.value[j].index)
  {
    assert forall i | 0 <= i < |candidates| :: Originals(candidates)[i] == candidates[i].originalIndex;
    if output.Some? {
      assert forall i | 0 <= i < |output.value| :: Indices(output.value)[i] == output.value[i].index;
    }
  }
}

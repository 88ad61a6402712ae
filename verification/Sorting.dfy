/** What the model uses of the standard library's stable `sort`, `sort_by` and `dedup`:
    an executable stable sort, and the fact that a sorted permutation is unique. */
module Sorting {

  /** A total preorder: what `sort_by` needs of its comparator. */
  ghost predicate TotalPreorder<T(!new)>(le: (T, T) -> bool) {
    && (forall a, b :: le(a, b) || le(b, a))
    && (forall a, b, c :: le(a, b) && le(b, c) ==> le(a, c))
  }

  /** A total order: what a derived `Ord` that agrees with `Eq` gives. */
  ghost predicate TotalOrder<T(!new)>(le: (T, T) -> bool) {
    && TotalPreorder(le)
    && (forall a, b :: le(a, b) && le(b, a) ==> a == b)
  }

  ghost predicate Sorted<T>(s: seq<T>, le: (T, T) -> bool) {
    forall i, j | 0 <= i < j < |s| :: le(s[i], s[j])
  }

  /** Elements the comparator cannot tell apart are equal. */
  ghost predicate Separates<T(!new)>(s: seq<T>, le: (T, T) -> bool) {
    forall a, b | a in s && b in s && le(a, b) && le(b, a) :: a == b
  }

  /** Puts `x` in front of the first element it does not exceed. */
  function Insert<T>(x: T, s: seq<T>, le: (T, T) -> bool): seq<T> {
    if s == [] then [x]
    else if le(x, s[0]) then [x] + s
    else [s[0]] + Insert(x, s[1..], le)
  }

  /** Stable sort. */
  function Sort<T>(s: seq<T>, le: (T, T) -> bool): seq<T> {
    if s == [] then [] else Insert(s[0], Sort(s[1..], le), le)
  }

  lemma {:induction false} InsertPermutes<T>(x: T, s: seq<T>, le: (T, T) -> bool)
    ensures multiset(Insert(x, s, le)) == multiset{x} + multiset(s)
  {
    if s == [] {
    } else if !le(x, s[0]) {
      assert s == [s[0]] + s[1..];
      InsertPermutes(x, s[1..], le);
    }
  }

  lemma {:induction false} SortPermutes<T>(s: seq<T>, le: (T, T) -> bool)
    ensures multiset(Sort(s, le)) == multiset(s)
    ensures |Sort(s, le)| == |s|
  {
    if s == [] {
    } else {
      assert s == [s[0]] + s[1..];
      SortPermutes(s[1..], le);
      InsertPermutes(s[0], Sort(s[1..], le), le);
    }
    assert |multiset(Sort(s, le))| == |multiset(s)|;
  }

  lemma SameElements<T>(a: seq<T>, b: seq<T>)
    requires multiset(a) == multiset(b)
    ensures |a| == |b|
    ensures forall x :: x in a <==> x in b
  {
    assert |multiset(a)| == |multiset(b)|;
    forall x ensures x in a <==> x in b {
      assert x in a <==> x in multiset(a);
      assert x in b <==> x in multiset(b);
    }
  }

  lemma EmptyOrInhabited<T(!new)>(s: seq<T>)
    ensures s == [] || exists x :: x in s
  {
    if s != [] {
      assert s[0] in s;
    }
  }

  lemma {:induction false} InsertSorts<T(!new)>(x: T, s: seq<T>, le: (T, T) -> bool)
    requires TotalPreorder(le) && Sorted(s, le)
    ensures Sorted(Insert(x, s, le), le)
  {
    if s == [] {
    } else if le(x, s[0]) {
      forall j | 0 <= j < |s| ensures le(x, s[j]) {
        assert j == 0 || le(s[0], s[j]);
      }
    } else {
      InsertSorts(x, s[1..], le);
      InsertPermutes(x, s[1..], le);
      var tail := Insert(x, s[1..], le);
      forall j | 0 <= j < |tail| ensures le(s[0], tail[j]) {
        assert tail[j] in multiset(tail);
        assert tail[j] == x || tail[j] in s[1..];
      }
    }
  }

  lemma {:induction false} SortSorts<T(!new)>(s: seq<T>, le: (T, T) -> bool)
    requires TotalPreorder(le)
    ensures Sorted(Sort(s, le), le)
  {
    if s != [] {
      SortSorts(s[1..], le);
      InsertSorts(s[0], Sort(s[1..], le), le);
    }
  }

  lemma TailMultiset<T>(s: seq<T>)
    requires s != []
    ensures multiset(s[1..]) == multiset(s) - multiset{s[0]}
  {
    assert s == [s[0]] + s[1..];
  }

  lemma SameLeast<T(!new)>(a: seq<T>, b: seq<T>, le: (T, T) -> bool)
    requires Sorted(a, le) && Sorted(b, le) && a != [] && b != []
    requires a[0] in b && b[0] in a
    requires Separates(a, le)
    ensures a[0] == b[0]
  {
    var i :| 0 <= i < |b| && b[i] == a[0];
    var j :| 0 <= j < |a| && a[j] == b[0];
  }

  lemma TailSorted<T(!new)>(s: seq<T>, le: (T, T) -> bool)
    requires s != [] && Sorted(s, le)
    ensures Sorted(s[1..], le)
    ensures Separates(s, le) ==> Separates(s[1..], le)
  {
    forall x | x in s[1..] ensures x in s {}
  }

  lemma SameFront<T(!new)>(a: seq<T>, b: seq<T>, le: (T, T) -> bool)
    requires Sorted(a, le) && Sorted(b, le) && multiset(a) == multiset(b) && Separates(a, le) && a != []
    ensures b != [] && a[0] == b[0] && multiset(a[1..]) == multiset(b[1..])
  {
    SameElements(a, b);
    SameLeast(a, b, le);
    TailMultiset(a);
    TailMultiset(b);
  }

  lemma FrontAndTail<T>(a: seq<T>, b: seq<T>)
    requires a != [] && b != [] && a[0] == b[0] && a[1..] == b[1..]
    ensures a == b
  {
    assert a == [a[0]] + a[1..] && b == [b[0]] + b[1..];
  }

  /** Two sorted permutations of each other are equal. */
  lemma {:induction false} SortedUnique<T(!new)>(a: seq<T>, b: seq<T>, le: (T, T) -> bool)
    requires Sorted(a, le) && Sorted(b, le) && multiset(a) == multiset(b)
    requires Separates(a, le)
    ensures a == b
  {
    if a == [] {
      assert |multiset(b)| == |b|;
    } else {
      SameFront(a, b, le);
      TailSorted(a, le);
      TailSorted(b, le);
      SortedUnique(a[1..], b[1..], le);
      FrontAndTail(a, b);
    }
  }

  /** Sorting permutations of one list gives one result. */
  lemma SortCanonical<T(!new)>(a: seq<T>, b: seq<T>, le: (T, T) -> bool)
    requires TotalPreorder(le) && multiset(a) == multiset(b) && Separates(a, le)
    ensures Sort(a, le) == Sort(b, le)
  {
    SortSorts(a, le);
    SortSorts(b, le);
    SortPermutes(a, le);
    SortPermutes(b, le);
    SameElements(a, Sort(a, le));
    SortedUnique(Sort(a, le), Sort(b, le), le);
  }

  /** A sorted list is left as it is: this is where stability shows. */
  lemma {:induction false} SortFixesSorted<T>(s: seq<T>, le: (T, T) -> bool)
    requires Sorted(s, le)
    ensures Sort(s, le) == s
  {
    if s != [] {
      SortFixesSorted(s[1..], le);
      assert s == [s[0]] + s[1..];
      if |s| > 1 {
        assert le(s[0], s[1]);
      }
    }
  }

  /** `Vec::dedup`: drops an element equal to its predecessor. */
  function Dedup<T(==)>(s: seq<T>): seq<T> {
    if |s| < 2 then s
    else if s[0] == s[1] then Dedup(s[1..])
    else [s[0]] + Dedup(s[1..])
  }

  lemma {:induction false} DedupBasics<T>(s: seq<T>)
    ensures |Dedup(s)| <= |s|
    ensures s != [] ==> Dedup(s) != [] && Dedup(s)[0] == s[0]
    ensures forall x :: x in Dedup(s) <==> x in s
    ensures Dedup(Dedup(s)) == Dedup(s)
  {
    if |s| >= 2 {
      DedupBasics(s[1..]);
      assert s == [s[0]] + s[1..];
      if s[0] != s[1] {
        var d := Dedup(s[1..]);
        assert ([s[0]] + d)[1..] == d;
      }
    }
  }

  lemma {:induction false} DedupSorted<T(!new)>(s: seq<T>, le: (T, T) -> bool)
    requires Sorted(s, le)
    ensures Sorted(Dedup(s), le)
  {
    if |s| >= 2 {
      DedupSorted(s[1..], le);
      DedupBasics(s[1..]);
      var d := Dedup(s[1..]);
      forall j | 0 <= j < |d| ensures le(s[0], d[j]) {
        assert d[j] in s[1..];
      }
    }
  }

  /** Sorting first makes `dedup` remove every repetition. */
  lemma {:induction false} DedupSortedDistinct<T(!new)>(s: seq<T>, le: (T, T) -> bool)
    requires Sorted(s, le) && Separates(s, le)
    ensures Distinct(Dedup(s))
  {
    if |s| >= 2 {
      var rest := s[1..];
      assert forall x | x in rest :: x in s;
      DedupSortedDistinct(rest, le);
      DedupBasics(rest);
      if s[0] != s[1] {
        FirstOnlyOnce(s, le);
        DistinctCons(s[0], Dedup(rest));
      }
    }
  }

  lemma FirstOnlyOnce<T(!new)>(s: seq<T>, le: (T, T) -> bool)
    requires |s| >= 2 && Sorted(s, le) && Separates(s, le) && s[0] != s[1]
    ensures s[0] !in s[1..]
  {
    assert s[0] in s && s[1] in s && le(s[0], s[1]);
    assert !le(s[1], s[0]);
    forall i | 1 <= i < |s| ensures s[i] != s[0] {
      assert i == 1 || le(s[1], s[i]);
    }
  }

  lemma DistinctCons<T>(x: T, s: seq<T>)
    requires Distinct(s) && x !in s
    ensures Distinct([x] + s)
  {
    var t := [x] + s;
    forall i, j | 0 <= i < j < |t| ensures t[i] != t[j] {
      assert t[j] == s[j - 1];
    }
  }

  /** `sort` followed by `dedup` has nothing left to do on its own output. */
  lemma SortDedupIdempotent<T(!new)>(s: seq<T>, le: (T, T) -> bool)
    requires TotalPreorder(le)
    ensures var d := Dedup(Sort(s, le)); Dedup(Sort(d, le)) == d
  {
    SortSorts(s, le);
    DedupSorted(Sort(s, le), le);
    SortFixesSorted(Dedup(Sort(s, le)), le);
    DedupBasics(Sort(s, le));
  }

  function Map<T, U>(s: seq<T>, f: T -> U): (r: seq<U>)
    ensures |r| == |s|
    ensures forall i | 0 <= i < |s| :: r[i] == f(s[i])
  {
    if s == [] then [] else [f(s[0])] + Map(s[1..], f)
  }

  lemma {:induction false} MapConcat<T, U>(a: seq<T>, b: seq<T>, f: T -> U)
    ensures Map(a + b, f) == Map(a, f) + Map(b, f)
  {
    if a == [] {
      assert a + b == b;
    } else {
      assert (a + b)[1..] == a[1..] + b;
      MapConcat(a[1..], b, f);
    }
  }

  lemma MapSnoc<T, U>(s: seq<T>, x: T, f: T -> U)
    ensures Map(s + [x], f) == Map(s, f) + [f(x)]
  {
    MapConcat(s, [x], f);
    assert Map([x], f) == [f(x)];
  }

  lemma MapMembers<T, U>(s: seq<T>, f: T -> U, y: U)
    ensures y in Map(s, f) <==> exists x | x in s :: f(x) == y
  {
    if y in Map(s, f) {
      var i :| 0 <= i < |s| && Map(s, f)[i] == y;
      assert s[i] in s;
    }
    if x :| x in s && f(x) == y {
      var i :| 0 <= i < |s| && s[i] == x;
      assert Map(s, f)[i] == y;
    }
  }

  lemma EachIffEach<T, U>(s: seq<T>, f: T -> U, p: U -> bool, q: T -> bool)
    requires forall i | 0 <= i < |s| :: p(f(s[i])) <==> q(s[i])
    ensures (forall y | y in Map(s, f) :: p(y)) <==> (forall x | x in s :: q(x))
  {
    var mapped := Map(s, f);
    if forall y | y in mapped :: p(y) {
      forall x | x in s ensures q(x) {
        var i :| 0 <= i < |s| && s[i] == x;
        assert mapped[i] in mapped;
      }
    }
    if forall x | x in s :: q(x) {
      forall y | y in mapped ensures p(y) {
        var i :| 0 <= i < |mapped| && mapped[i] == y;
        assert s[i] in s;
      }
    }
  }

  function FlatMap<T, U>(s: seq<T>, f: T -> seq<U>): seq<U> {
    if s == [] then [] else f(s[0]) + FlatMap(s[1..], f)
  }

  lemma {:induction false} FlatMapConcat<T, U>(a: seq<T>, b: seq<T>, f: T -> seq<U>)
    ensures FlatMap(a + b, f) == FlatMap(a, f) + FlatMap(b, f)
  {
    if a == [] {
      assert a + b == b;
    } else {
      assert (a + b)[1..] == a[1..] + b;
      FlatMapConcat(a[1..], b, f);
    }
  }

  lemma PullOut<T>(s: seq<T>, i: nat)
    requires i < |s|
    ensures s == s[..i] + ([s[i]] + s[i + 1..])
    ensures multiset(s) == multiset{s[i]} + multiset(s[..i] + s[i + 1..])
  {
    assert s == s[..i] + ([s[i]] + s[i + 1..]);
  }

  lemma WithoutOne<T>(s: seq<T>, i: nat)
    requires i < |s|
    ensures multiset(s[..i] + s[i + 1..]) == multiset(s) - multiset{s[i]}
  {
    PullOut(s, i);
  }

  lemma PullOutBoth<T>(a: seq<T>, i: nat, b: seq<T>, j: nat)
    requires i < |a| && j < |b| && a[i] == b[j] && multiset(a) == multiset(b)
    ensures multiset(a[..i] + a[i + 1..]) == multiset(b[..j] + b[j + 1..])
  {
    WithoutOne(a, i);
    WithoutOne(b, j);
  }

  /** The first element of a list, found in a permutation of it. */
  lemma FindFirst<T>(a: seq<T>, b: seq<T>) returns (i: nat)
    requires a != [] && multiset(a) == multiset(b)
    ensures i < |b| && b[i] == a[0]
    ensures multiset(a[..0] + a[1..]) == multiset(b[..i] + b[i + 1..])
  {
    SameElements(a, b);
    assert a[0] in b;
    i :| 0 <= i < |b| && b[i] == a[0];
    PullOutBoth(a, 0, b, i);
  }

  lemma MapPullOut<T, U>(s: seq<T>, i: nat, f: T -> U)
    requires i < |s|
    ensures multiset(Map(s, f)) == multiset{f(s[i])} + multiset(Map(s[..i] + s[i + 1..], f))
  {
    PullOut(s, i);
    var before, after := s[..i], s[i + 1..];
    MapConcat(before, [s[i]] + after, f);
    MapConcat([s[i]], after, f);
    MapConcat(before, after, f);
    assert Map([s[i]], f) == [f(s[i])];
    assert Map(s, f) == Map(before, f) + ([f(s[i])] + Map(after, f));
    assert multiset(Map(s, f)) == multiset(Map(before, f)) + multiset([f(s[i])] + Map(after, f));
    assert multiset([f(s[i])] + Map(after, f)) == multiset{f(s[i])} + multiset(Map(after, f));
  }

  lemma {:induction false} MapPermutation<T, U>(a: seq<T>, b: seq<T>, f: T -> U)
    requires multiset(a) == multiset(b)
    ensures multiset(Map(a, f)) == multiset(Map(b, f))
    decreases |a|
  {
    if a == [] {
      SameElements(a, b);
    } else {
      var i := FindFirst(a, b);
      MapPermutation(a[..0] + a[1..], b[..i] + b[i + 1..], f);
      MapPullOut(a, 0, f);
      MapPullOut(b, i, f);
    }
  }

  /** Sorting commutes with a projection that the two comparators agree on. */
  lemma {:induction false} MapSort<T(!new), U>(s: seq<T>, f: T -> U, le: (T, T) -> bool, le': (U, U) -> bool)
    requires forall a, b :: le(a, b) == le'(f(a), f(b))
    ensures Map(Sort(s, le), f) == Sort(Map(s, f), le')
  {
    if s != [] {
      MapSort(s[1..], f, le, le');
      MapInsert(s[0], Sort(s[1..], le), f, le, le');
    }
  }

  lemma {:induction false} MapInsert<T(!new), U>(x: T, s: seq<T>, f: T -> U, le: (T, T) -> bool, le': (U, U) -> bool)
    requires forall a, b :: le(a, b) == le'(f(a), f(b))
    ensures Map(Insert(x, s, le), f) == Insert(f(x), Map(s, f), le')
  {
    if s != [] {
      assert Map(s, f)[1..] == Map(s[1..], f);
      if le(x, s[0]) {
        MapConcat([x], s, f);
      } else {
        MapInsert(x, s[1..], f, le, le');
      }
    }
  }

  ghost predicate IsLeast<T(!new)>(m: T, s: set<T>, le: (T, T) -> bool) {
    m in s && forall x | x in s :: le(m, x)
  }

  lemma {:induction false} LeastOf<T(!new)>(s: set<T>, le: (T, T) -> bool) returns (m: T)
    requires TotalPreorder(le) && s != {}
    ensures IsLeast(m, s, le)
    decreases |s|
  {
    var x :| x in s;
    m := x;
    if s - {x} != {} {
      var least := LeastOf(s - {x}, le);
      m := if le(least, x) then least else x;
    }
    forall y | y in s ensures le(m, y) {
      assert y == x || y in s - {x};
    }
  }

  lemma LeastExists<T(!new)>(s: set<T>, le: (T, T) -> bool)
    requires TotalPreorder(le) && s != {}
    ensures exists m :: IsLeast(m, s, le)
  {
    var m := LeastOf(s, le);
  }

  lemma LeastUnique<T(!new)>(m: T, n: T, s: set<T>, le: (T, T) -> bool)
    requires TotalOrder(le) && IsLeast(m, s, le) && IsLeast(n, s, le)
    ensures m == n
  {
    assert le(m, n) && le(n, m);
  }

  ghost function Least<T(!new)>(s: set<T>, le: (T, T) -> bool): (m: T)
    requires TotalOrder(le) && s != {}
    ensures IsLeast(m, s, le)
  {
    LeastExists(s, le);
    var m :| IsLeast(m, s, le);
    m
  }

  /** The iteration order of a `BTreeSet`. */
  ghost function Ascending<T(!new)>(s: set<T>, le: (T, T) -> bool): seq<T>
    requires TotalOrder(le)
    decreases |s|
  {
    if s == {} then []
    else
      var m := Least(s, le);
      [m] + Ascending(s - {m}, le)
  }

  lemma {:induction false} AscendingIs<T(!new)>(s: set<T>, le: (T, T) -> bool)
    requires TotalOrder(le)
    ensures Sorted(Ascending(s, le), le)
    ensures forall x :: x in Ascending(s, le) <==> x in s
    ensures |Ascending(s, le)| == |s|
    decreases |s|
  {
    if s != {} {
      var m := Least(s, le);
      AscendingIs(s - {m}, le);
    }
  }

  method PickLeast<T(!new, ==)>(s: set<T>, le: (T, T) -> bool) returns (m: T)
    requires TotalOrder(le) && s != {}
    ensures m in s && Ascending(s, le) == [m] + Ascending(s - {m}, le)
  {
    LeastExists(s, le);
    m :| m in s && forall x | x in s :: le(m, x);
    LeastUnique(m, Least(s, le), s, le);
  }

  /** Enumerates a set the way iterating a `BTreeSet` does. */
  method AscendingList<T(!new, ==)>(s: set<T>, le: (T, T) -> bool) returns (r: seq<T>)
    requires TotalOrder(le)
    ensures r == Ascending(s, le)
  {
    r := [];
    var rest := s;
    while rest != {}
      invariant r + Ascending(rest, le) == Ascending(s, le)
      decreases |rest|
    {
      var m := PickLeast(rest, le);
      r := r + [m];
      rest := rest - {m};
    }
  }

  lemma DifferenceEmpty<T>(a: set<T>, b: set<T>)
    ensures |a - b| == 0 <==> a <= b
  {
    if |a - b| == 0 {
      forall x | x in a ensures x in b {
        assert x in a - b || x in b;
      }
    }
  }

  lemma ContainedSameSize<T>(a: set<T>, b: set<T>)
    requires a <= b && |a| == |b|
    ensures a == b
  {
    assert b == a + (b - a);
    assert |b| == |a| + |b - a|;
  }

  /** Elements the comparator cannot tell apart keep their relative order. */
  lemma {:induction false} InsertTwice<T(!new)>(m: T, n: T, s: seq<T>, le: (T, T) -> bool) returns (a: seq<T>, b: seq<T>)
    requires TotalPreorder(le) && le(m, n) && le(n, m)
    ensures Insert(m, Insert(n, s, le), le) == a + [m, n] + b
    ensures Insert(n, Insert(m, s, le), le) == a + [n, m] + b
  {
    if s == [] || le(n, s[0]) {
      a, b := [], s;
      assert s != [] ==> le(m, s[0]);
      assert ([n] + s)[0] == n && ([m] + s)[0] == m;
    } else {
      assert !le(m, s[0]);
      var a', b' := InsertTwice(m, n, s[1..], le);
      a, b := [s[0]] + a', b';
      assert ([s[0]] + Insert(n, s[1..], le))[1..] == Insert(n, s[1..], le);
      assert ([s[0]] + Insert(m, s[1..], le))[1..] == Insert(m, s[1..], le);
    }
  }

  lemma SwapFirstTwo<T(!new)>(m: T, n: T, rest: seq<T>, le: (T, T) -> bool) returns (a: seq<T>, b: seq<T>)
    requires TotalPreorder(le) && le(m, n) && le(n, m)
    ensures Sort([m, n] + rest, le) == a + [m, n] + b
    ensures Sort([n, m] + rest, le) == a + [n, m] + b
  {
    a, b := InsertTwice(m, n, Sort(rest, le), le);
    assert ([m, n] + rest)[1..] == [n] + rest && ([n, m] + rest)[1..] == [m] + rest;
    assert ([n] + rest)[1..] == rest && ([m] + rest)[1..] == rest;
  }

  lemma TwoInFront<T>(x: T, y: T, rest: seq<T>)
    ensures multiset([x, y] + rest) == multiset{x} + multiset{y} + multiset(rest)
  {
    assert [x, y] + rest == [x] + ([y] + rest);
  }

  /** Two members can be brought to the front. */
  lemma BringToFront<T>(s: seq<T>, i: nat, j: nat) returns (rest: seq<T>)
    requires i < j < |s|
    ensures multiset([s[i], s[j]] + rest) == multiset(s)
  {
    var without := s[..j] + s[j + 1..];
    PullOut(s, j);
    assert without[i] == s[i];
    PullOut(without, i);
    rest := without[..i] + without[i + 1..];
    TwoInFront(s[i], s[j], rest);
  }

  // ---- filtering ----

  function Filter<T>(s: seq<T>, p: T -> bool): seq<T> {
    if s == [] then []
    else var n := |s| - 1; Filter(s[..n], p) + if p(s[n]) then [s[n]] else []
  }

  lemma {:induction false} FilterMembers<T>(s: seq<T>, p: T -> bool)
    ensures forall x :: x in Filter(s, p) <==> x in s && p(x)
  {
    if s != [] {
      var n := |s| - 1;
      FilterMembers(s[..n], p);
      assert s == s[..n] + [s[n]];
    }
  }

  lemma {:induction false} FilterConcat<T>(a: seq<T>, b: seq<T>, p: T -> bool)
    ensures Filter(a + b, p) == Filter(a, p) + Filter(b, p)
  {
    if b == [] {
      assert a + b == a;
    } else {
      var n := |b| - 1;
      FilterConcat(a, b[..n], p);
      assert (a + b)[..|a + b| - 1] == a + b[..n];
    }
  }

  lemma FilterFront<T>(a: seq<T>, b: seq<T>, p: T -> bool)
    ensures Filter(a, p) <= Filter(a + b, p)
  {
    FilterConcat(a, b, p);
  }

  lemma FilterPrefix<T>(s: seq<T>, i: nat, p: T -> bool)
    requires i <= |s|
    ensures Filter(s[..i], p) <= Filter(s, p)
  {
    FilterFront(s[..i], s[i..], p);
    SplitAt(s, i);
  }

  lemma SplitAt<T>(s: seq<T>, i: nat)
    requires i <= |s|
    ensures s[..i] + s[i..] == s
  {
  }

  lemma FilterPullOut<T>(s: seq<T>, i: nat, p: T -> bool)
    requires i < |s|
    ensures multiset(Filter(s, p)) == multiset(Filter([s[i]], p)) + multiset(Filter(s[..i] + s[i + 1..], p))
  {
    PullOut(s, i);
    var before, after := s[..i], s[i + 1..];
    FilterConcat(before, [s[i]] + after, p);
    FilterConcat([s[i]], after, p);
    FilterConcat(before, after, p);
    assert multiset(Filter(s, p)) == multiset(Filter(before, p)) + multiset(Filter([s[i]], p) + Filter(after, p));
  }

  lemma {:induction false} FilterPermutation<T>(a: seq<T>, b: seq<T>, p: T -> bool)
    requires multiset(a) == multiset(b)
    ensures multiset(Filter(a, p)) == multiset(Filter(b, p))
    decreases |a|
  {
    if a == [] {
      SameElements(a, b);
    } else {
      var i := FindFirst(a, b);
      FilterPermutation(a[..0] + a[1..], b[..i] + b[i + 1..], p);
      FilterPullOut(a, 0, p);
      FilterPullOut(b, i, p);
    }
  }

  // ---- distinctness ----

  predicate Distinct<T(==)>(s: seq<T>) {
    forall i, j | 0 <= i < j < |s| :: s[i] != s[j]
  }

  lemma {:induction false} DistinctByCount<T(!new)>(s: seq<T>)
    ensures Distinct(s) <==> forall x :: multiset(s)[x] <= 1
  {
    if s != [] {
      var rest := s[1..];
      DistinctByCount(rest);
      TailMultiset(s);
      assert multiset(s) == multiset{s[0]} + multiset(rest);
      if Distinct(s) {
        forall i, j | 0 <= i < j < |rest| ensures rest[i] != rest[j] {
          assert s[i + 1] != s[j + 1];
        }
        assert s[0] !in rest;
        assert multiset(rest)[s[0]] == 0;
      }
      if forall x :: multiset(s)[x] <= 1 {
        forall x ensures multiset(rest)[x] <= 1 {
          assert multiset(s)[x] <= 1;
        }
        assert multiset(s)[s[0]] <= 1;
        assert multiset(rest)[s[0]] == 0;
        assert s[0] !in multiset(rest);
        assert s[0] !in rest;
        forall i, j | 0 <= i < j < |s| ensures s[i] != s[j] {
          assert s[j] == rest[j - 1];
          assert s[j] in rest;
        }
      }
    }
  }

  lemma DistinctPermutation<T(!new)>(s: seq<T>, t: seq<T>)
    requires multiset(s) == multiset(t)
    ensures Distinct(s) <==> Distinct(t)
  {
    DistinctByCount(s);
    DistinctByCount(t);
  }

  lemma DistinctSnoc<T>(s: seq<T>, x: T)
    ensures Distinct(s + [x]) <==> Distinct(s) && x !in s
  {
    var t := s + [x];
    if Distinct(t) {
      forall i, j | 0 <= i < j < |s| ensures s[i] != s[j] {
        assert t[i] != t[j];
      }
      forall i | 0 <= i < |s| ensures s[i] != x {
        assert t[i] != t[|s|];
      }
    }
  }

  /** No two elements that pass the filter have the same key. */
  ghost predicate KeysDiffer<T(!new), U>(s: seq<T>, p: T -> bool, key: T -> U) {
    forall i, j | 0 <= i < j < |s| && p(s[i]) && p(s[j]) :: key(s[i]) != key(s[j])
  }

  lemma {:induction false} DistinctFiltered<T(!new), U>(s: seq<T>, p: T -> bool, key: T -> U)
    ensures Distinct(Map(Filter(s, p), key)) <==> KeysDiffer(s, p, key)
  {
    if s != [] {
      var n := |s| - 1;
      DistinctFiltered(s[..n], p, key);
      KeysDifferOneMore(s, p, key);
      if p(s[n]) {
        KeyApart(s[..n], p, key, s[n]);
        MapSnoc(Filter(s[..n], p), s[n], key);
        DistinctSnoc(Map(Filter(s[..n], p), key), key(s[n]));
      } else {
        assert Filter(s, p) == Filter(s[..n], p);
      }
    }
  }

  lemma KeyApart<T(!new), U>(s: seq<T>, p: T -> bool, key: T -> U, x: T)
    ensures key(x) !in Map(Filter(s, p), key) <==> forall y | y in s && p(y) :: key(y) != key(x)
  {
    FilterMembers(s, p);
    MapMembers(Filter(s, p), key, key(x));
  }

  lemma KeysDifferOneMore<T(!new), U>(s: seq<T>, p: T -> bool, key: T -> U)
    requires s != []
    ensures KeysDiffer(s, p, key) <==>
            && KeysDiffer(s[..|s| - 1], p, key)
            && (p(s[|s| - 1]) ==> forall x | x in s[..|s| - 1] && p(x) :: key(x) != key(s[|s| - 1]))
  {
    var n := |s| - 1;
    var front := s[..n];
    if KeysDiffer(front, p, key) && p(s[n]) && forall x | x in front && p(x) :: key(x) != key(s[n]) {
      forall i, j | 0 <= i < j < |s| && p(s[i]) && p(s[j]) ensures key(s[i]) != key(s[j]) {
        assert front[i] == s[i] && front[i] in front;
        assert j < n ==> front[j] == s[j];
      }
    }
    if KeysDiffer(s, p, key) {
      forall i, j | 0 <= i < j < n && p(front[i]) && p(front[j]) ensures key(front[i]) != key(front[j]) {
        assert front[i] == s[i] && front[j] == s[j];
      }
    }
  }

  function SetOf<T(==)>(s: seq<T>): set<T> {
    set x | x in s
  }

  lemma {:induction false} SetSize<T>(s: seq<T>)
    ensures |SetOf(s)| <= |s|
    ensures |SetOf(s)| == |s| <==> Distinct(s)
  {
    if s != [] {
      var n := |s| - 1;
      SetSize(s[..n]);
      assert s == s[..n] + [s[n]];
      DistinctSnoc(s[..n], s[n]);
      assert SetOf(s) == SetOf(s[..n]) + {s[n]};
    }
  }

  lemma {:induction false} DistinctMultiset<T(!new)>(s: seq<T>, x: T)
    requires Distinct(s)
    ensures multiset(s)[x] == if x in SetOf(s) then 1 else 0
  {
    DistinctByCount(s);
    assert x in s <==> x in multiset(s);
  }

  lemma SameDistinctSets<T(!new)>(s: seq<T>, t: seq<T>)
    requires Distinct(s) && Distinct(t) && SetOf(s) == SetOf(t)
    ensures multiset(s) == multiset(t)
  {
    forall x ensures multiset(s)[x] == multiset(t)[x] {
      DistinctMultiset(s, x);
      DistinctMultiset(t, x);
    }
  }

  /** Any listing of a set permutes a list that holds its members once. */
  lemma ListingPermutes<T(!new)>(listing: seq<T>, s: set<T>, once: seq<T>)
    requires multiset(listing) == multiset(s) && Distinct(once) && SetOf(once) == s
    ensures multiset(listing) == multiset(once)
    ensures forall x :: x in listing <==> x in s
  {
    forall x ensures multiset(listing)[x] == multiset(once)[x] {
      DistinctMultiset(once, x);
    }
    SameElements(listing, once);
  }

  lemma AscendingDistinct<T(!new)>(s: set<T>, le: (T, T) -> bool)
    requires TotalOrder(le)
    ensures Distinct(Ascending(s, le))
  {
    AscendingIs(s, le);
    assert SetOf(Ascending(s, le)) == s;
    SetSize(Ascending(s, le));
  }

  /** Members with one key are one member. */
  lemma DistinctKeysIdentify<T, U>(s: seq<T>, key: T -> U, a: T, b: T)
    requires Distinct(Map(s, key)) && a in s && b in s && key(a) == key(b)
    ensures a == b
  {
    var i :| 0 <= i < |s| && s[i] == a;
    var j :| 0 <= j < |s| && s[j] == b;
    assert Map(s, key)[i] == Map(s, key)[j];
  }

  lemma DistinctPrefix<T>(s: seq<T>, t: seq<T>)
    requires s <= t && Distinct(t)
    ensures Distinct(s)
  {
    forall i, j | 0 <= i < j < |s| ensures s[i] != s[j] {
      assert t[i] != t[j];
    }
  }

  /** `windows(2).any(|pair| pair[0] == pair[1])`. */
  predicate AdjacentEqual<T(==)>(s: seq<T>) {
    exists i | 0 <= i < |s| - 1 :: s[i] == s[i + 1]
  }

  /** After sorting, repetitions are neighbours. */
  lemma AdjacentEqualDetects<T(!new)>(s: seq<T>, le: (T, T) -> bool)
    requires TotalOrder(le)
    ensures AdjacentEqual(Sort(s, le)) <==> !Distinct(s)
  {
    var t := Sort(s, le);
    SortPermutes(s, le);
    SortSorts(s, le);
    DistinctPermutation(s, t);
    if !Distinct(t) {
      var i, j :| 0 <= i < j < |t| && t[i] == t[j];
      assert le(t[i], t[i + 1]);
      assert i + 1 == j || le(t[i + 1], t[j]);
      assert t[i] == t[i + 1];
    }
  }
}

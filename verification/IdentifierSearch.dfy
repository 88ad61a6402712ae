/** The evidence check behind a dead-symbol finding: does an identifier occur anywhere in a file
    as a whole word? The search skips the whole identifier after each failed match. */
module IdentifierSearch {
  import opened Wrappers
  import opened Text

  predicate IsIdentChar(c: char) {
    IsAsciiLetterOrDigit(c) || c == '_'
  }

  // ---- occurrences ----

  predicate Occurs(text: string, w: string, i: nat) {
    i + |w| <= |text| && text[i..i + |w|] == w
  }

  predicate FreeBefore(text: string, i: nat)
    requires i <= |text|
  {
    i == 0 || !IsIdentChar(text[i - 1])
  }

  predicate FreeAfter(text: string, i: nat)
    requires i <= |text|
  {
    i == |text| || !IsIdentChar(text[i])
  }

  predicate WholeWordAt(text: string, w: string, i: nat) {
    Occurs(text, w, i) && FreeBefore(text, i) && FreeAfter(text, i + |w|)
  }

  ghost predicate Mentioned(text: string, w: string) {
    exists i: nat :: WholeWordAt(text, w, i)
  }

  /** `text[from..].find(w)`, as a position in `text`. */
  function FindFrom(text: string, w: string, from: nat): (r: Option<nat>)
    requires from <= |text|
    ensures r.Some? ==> from <= r.value && Occurs(text, w, r.value)
    ensures r.Some? ==> forall i: nat | from <= i < r.value :: !Occurs(text, w, i)
    ensures r.None? ==> forall i: nat | from <= i :: !Occurs(text, w, i)
    decreases |text| - from
  {
    if Occurs(text, w, from) then Some(from)
    else if from == |text| then None
    else FindFrom(text, w, from + 1)
  }

  // ---- the loop ----

  /** What one round of the loop leads to. */
  datatype Round = Done(found: bool) | Again(from: nat)

  function Step(text: string, w: string, from: nat): (r: Round)
    requires from <= |text|
    ensures r.Again? ==> from + |w| <= r.from <= |text|
  {
    match FindFrom(text, w, from)
    case None => Done(false)
    case Some(start) =>
      if FreeBefore(text, start) && FreeAfter(text, start + |w|) then Done(true) else Again(start + |w|)
  }

  /** The loop run to its end. */
  function Search(text: string, w: string, from: nat): bool
    requires w != "" && from <= |text|
    decreases |text| - from
  {
    match Step(text, w, from)
    case Done(found) => found
    case Again(next) => Search(text, w, next)
  }

  /** The loop after `n` rounds. */
  function Rounds(text: string, w: string, n: nat): (r: Round)
    ensures r.Again? ==> r.from <= |text|
  {
    if n == 0 then Again(0)
    else
      match Rounds(text, w, n - 1)
      case Done(found) => Done(found)
      case Again(from) => Step(text, w, from)
  }

  /** The loop stops for every non-empty identifier; for the empty one it stops, in its first
      round, exactly when the text does not begin with an identifier character. */
  predicate Stops(text: string, w: string) {
    w != "" || text == "" || !IsIdentChar(text[0])
  }

  lemma {:induction false} EmptyIdentifierStandsStill(text: string, n: nat)
    requires text != "" && IsIdentChar(text[0])
    ensures Rounds(text, "", n) == Again(0)
  {
    if n > 0 {
      EmptyIdentifierStandsStill(text, n - 1);
      assert Occurs(text, "", 0);
    }
  }

  lemma {:induction false} RoundsAdvance(text: string, w: string, n: nat)
    requires w != ""
    ensures Rounds(text, w, n).Again? ==> n <= Rounds(text, w, n).from
  {
    if n > 0 {
      RoundsAdvance(text, w, n - 1);
    }
  }

  /** Exactly when the loop terminates. */
  lemma StopsExactly(text: string, w: string)
    ensures Stops(text, w) <==> exists n: nat :: Rounds(text, w, n).Done?
  {
    if w != "" {
      RoundsAdvance(text, w, |text| + 1);
      assert Rounds(text, w, |text| + 1).Done?;
    } else if Stops(text, w) {
      assert Occurs(text, "", 0);
      assert Rounds(text, w, 0) == Again(0);
      assert Rounds(text, w, 1).Done?;
    } else {
      forall n: nat ensures !Rounds(text, w, n).Done? {
        EmptyIdentifierStandsStill(text, n);
      }
    }
  }

  // ---- what the search finds ----

  lemma {:induction false} SearchSound(text: string, w: string, from: nat)
    requires w != "" && from <= |text| && Search(text, w, from)
    ensures exists i: nat :: from <= i && WholeWordAt(text, w, i)
    decreases |text| - from
  {
    match Step(text, w, from)
    case Done(_) =>
      assert WholeWordAt(text, w, FindFrom(text, w, from).value);
    case Again(next) =>
      SearchSound(text, w, next);
  }

  /** `w` can overlap itself shifted by `d`, and a non-identifier character of `w` comes just
      before the shifted copy. */
  predicate SplitBorder(w: string, d: nat) {
    0 < d < |w| && w[d..] == w[..|w| - d] && !IsIdentChar(w[d - 1])
  }

  ghost predicate NoSplitBorder(w: string) {
    forall d: nat :: !SplitBorder(w, d)
  }

  /** A whole-word occurrence that a skip jumps over makes a split border. */
  lemma SkippedOccurrence(text: string, w: string, i: nat, j: nat)
    requires Occurs(text, w, i) && WholeWordAt(text, w, j) && i < j < i + |w|
    ensures SplitBorder(w, j - i)
  {
    var d := j - i;
    forall k | 0 <= k < |w| - d ensures w[d..][k] == w[..|w| - d][k] {
      assert text[i..i + |w|][d + k] == w[d + k];
      assert text[j..j + |w|][k] == w[k];
    }
    assert text[i..i + |w|][d - 1] == w[d - 1];
  }

  /** Without split borders a skip does not jump over a whole-word occurrence. */
  lemma SkipIsSafe(text: string, w: string, from: nat, j: nat)
    requires w != "" && NoSplitBorder(w) && from <= j && WholeWordAt(text, w, j)
    ensures from <= |text|
    ensures Step(text, w, from) == Done(true) || (Step(text, w, from).Again? && Step(text, w, from).from <= j)
  {
    var pos := FindFrom(text, w, from);
    assert pos.Some? && pos.value <= j by {
      assert Occurs(text, w, j);
    }
    if !WholeWordAt(text, w, pos.value) && j < pos.value + |w| {
      SkippedOccurrence(text, w, pos.value, j);
    }
  }

  lemma {:induction false} SearchComplete(text: string, w: string, from: nat, j: nat)
    requires w != "" && NoSplitBorder(w) && from <= j && WholeWordAt(text, w, j)
    ensures Search(text, w, from)
    decreases |text| - from
  {
    SkipIsSafe(text, w, from, j);
    match Step(text, w, from)
    case Done(_) =>
    case Again(next) =>
      SearchComplete(text, w, next, j);
  }

  /** A text on which the skip misses the only whole-word occurrence. */
  function Witness(w: string, d: nat): string
    requires SplitBorder(w, d)
  {
    [if w[0] == 'a' then 'b' else 'a'] + w[..d] + w
  }

  lemma WitnessShape(w: string, d: nat)
    requires SplitBorder(w, d)
    ensures var text := Witness(w, d);
            |text| == 1 + d + |w| && IsIdentChar(text[0]) && text[0] != w[0]
            && text[1..1 + |w|] == w && text[1 + d..] == w && text[d] == w[d - 1]
  {
    var text := Witness(w, d);
    forall k | 0 <= k < |w| ensures text[1 + k] == w[k] {
      if k >= d {
        assert text[1 + k] == w[k - d];
        assert w[d..][k - d] == w[..|w| - d][k - d];
      }
    }
  }

  lemma SkipMisses(w: string, d: nat)
    requires SplitBorder(w, d)
    ensures !Search(Witness(w, d), w, 0) && WholeWordAt(Witness(w, d), w, 1 + d)
  {
    var text := Witness(w, d);
    WitnessShape(w, d);
    assert text[1 + d..1 + d + |w|] == text[1 + d..];
    assert text[0..|w|][0] == text[0];
    assert !Occurs(text, w, 0) && Occurs(text, w, 1);
    assert FindFrom(text, w, 0) == Some(1);
    assert Step(text, w, 0) == Again(1 + |w|);
    assert FindFrom(text, w, 1 + |w|).None?;
  }

  /** For a non-empty identifier, the skipping search is right about every text exactly when the
      identifier has no split border. */
  lemma SearchRightExactly(w: string)
    requires w != ""
    ensures (forall text :: Search(text, w, 0) <==> Mentioned(text, w)) <==> NoSplitBorder(w)
  {
    if NoSplitBorder(w) {
      forall text ensures Search(text, w, 0) <==> Mentioned(text, w) {
        if Search(text, w, 0) {
          SearchSound(text, w, 0);
        }
        if Mentioned(text, w) {
          var j: nat :| WholeWordAt(text, w, j);
          SearchComplete(text, w, 0, j);
        }
      }
    } else {
      var d: nat :| SplitBorder(w, d);
      SkipMisses(w, d);
      assert Mentioned(Witness(w, d), w);
    }
  }

  /** In particular for identifiers made of identifier characters. */
  lemma PlainIdentifiersAreFound(text: string, w: string)
    requires w != "" && forall c | c in w :: IsIdentChar(c)
    ensures Search(text, w, 0) <==> Mentioned(text, w)
  {
    assert NoSplitBorder(w);
    SearchRightExactly(w);
  }

  // ---- the loop and its answer ----

  lemma {:induction false} RoundsSettled(text: string, w: string, n: nat, m: nat)
    requires n <= m && Rounds(text, w, n).Done?
    ensures Rounds(text, w, m) == Rounds(text, w, n)
  {
    if n < m {
      RoundsSettled(text, w, n, m - 1);
    }
  }

  lemma {:induction false} RoundsSearch(text: string, w: string, n: nat)
    requires w != ""
    ensures match Rounds(text, w, n)
            case Done(found) => found == Search(text, w, 0)
            case Again(from) => Search(text, w, from) == Search(text, w, 0)
  {
    if n > 0 {
      RoundsSearch(text, w, n - 1);
    }
  }

  /** The empty identifier is settled in the first round or never, and then it is found. */
  lemma EmptyIdentifierRounds(text: string, n: nat)
    requires n > 0
    ensures Rounds(text, "", n) == if Stops(text, "") then Done(true) else Again(0)
  {
    if Stops(text, "") {
      assert Occurs(text, "", 0);
      assert Rounds(text, "", 0) == Again(0);
      assert Rounds(text, "", 1) == Done(true);
      RoundsSettled(text, "", 1, n);
    } else {
      EmptyIdentifierStandsStill(text, n);
    }
  }

  /** Whenever the loop has stopped, its answer is right for identifiers without a split border;
      and a loop that stops at all has stopped after as many rounds as the text has characters,
      and one more. */
  lemma RoundsAnswer(text: string, w: string, n: nat)
    ensures Rounds(text, w, n).Done? && NoSplitBorder(w) ==> (Rounds(text, w, n).found <==> Mentioned(text, w))
    ensures Stops(text, w) && n > |text| ==> Rounds(text, w, n).Done?
  {
    if w != "" {
      RoundsSearch(text, w, n);
      RoundsAdvance(text, w, n);
      if NoSplitBorder(w) {
        SearchRightExactly(w);
      }
    } else if n > 0 {
      EmptyIdentifierRounds(text, n);
      if Stops(text, w) {
        assert Occurs(text, "", 0) && WholeWordAt(text, "", 0);
      }
    }
  }

  // ---- the file cache ----

  class FileCache {
    var contents: map<string, Option<string>>

    constructor ()
      ensures contents == map[]
    {
      contents := map[];
    }

    /** The text of a file, read from disk the first time it is asked for. */
    method TextOf(path: string, disk: map<string, string>) returns (text: Option<string>)
      modifies this
      ensures path in contents && text == contents[path]
      ensures contents == if path in old(contents) then old(contents)
                          else old(contents)[path := if path in disk then Some(disk[path]) else None]
    {
      if path !in contents {
        contents := contents[path := if path in disk then Some(disk[path]) else None];
      }
      return contents[path];
    }

    /** `disk` holds the files that can be read as text now. The loop is watched for `rounds`
        rounds, because for some inputs it has no last one. */
    method MentionsIdentifier(path: string, ident: string, disk: map<string, string>, rounds: nat) returns (r: Option<Round>)
      modifies this
      ensures path in contents
      ensures contents == if path in old(contents) then old(contents)
                          else old(contents)[path := if path in disk then Some(disk[path]) else None]
      ensures r.None? <==> contents[path].None?
      ensures r.Some? ==> r.value == Rounds(contents[path].value, ident, rounds)
      ensures r.Some? && r.value.Done? && NoSplitBorder(ident) ==>
                (r.value.found <==> Mentioned(contents[path].value, ident))
      ensures r.Some? && Stops(contents[path].value, ident) && rounds > |contents[path].value| ==> r.value.Done?
    {
      var read := TextOf(path, disk);
      if read.None? {
        return None;
      }
      var round := Watch(read.value, ident, rounds);
      RoundsAnswer(read.value, ident, rounds);
      return Some(round);
    }

    /** The skipping loop, for `rounds` rounds. */
    static method Watch(text: string, ident: string, rounds: nat) returns (r: Round)
      ensures r == Rounds(text, ident, rounds)
    {
      var from: nat := 0;
      for n := 0 to rounds
        invariant Rounds(text, ident, n) == Again(from)
      {
        r := Attempt(text, ident, from);
        if r.Done? {
          RoundsSettled(text, ident, n + 1, rounds);
          return;
        }
        from := r.from;
      }
      return Again(from);
    }

    /** One round: find the next occurrence and look at its neighbours. */
    static method Attempt(text: string, ident: string, from: nat) returns (r: Round)
      requires from <= |text|
      ensures r == Step(text, ident, from)
    {
      var pos := FindFrom(text, ident, from);
      if pos.None? {
        return Done(false);
      }
      var start := pos.value;
      var end := start + |ident|;
      var beforeOk := FreeBefore(text, start);
      var afterOk := FreeAfter(text, end);
      if beforeOk && afterOk {
        return Done(true);
      }
      return Again(end);
    }
  }

  // ---- where the identifier comes from ----

  /** `trim_end_matches("()")`. */
  function TrimCalls(span: string): string {
    if |span| >= 2 && span[|span| - 2..] == "()" then TrimCalls(span[..|span| - 2]) else span
  }

  /** What follows the last `::`, or everything. */
  function AfterLastPath(s: string): (r: string)
    ensures |r| <= |s| && r == s[|s| - |r|..]
  {
    AfterPathFrom(s, |s|)
  }

  function AfterPathFrom(s: string, end: nat): (r: string)
    requires end <= |s|
    ensures |r| <= |s| && r == s[|s| - |r|..]
  {
    if end < 2 then s
    else if s[end - 2..end] == "::" then s[end..]
    else AfterPathFrom(s, end - 1)
  }

  /** What follows the last dot, or everything. */
  function LastDotSegment(s: string): string {
    if s == "" then ""
    else if s[|s| - 1] == '.' then ""
    else LastDotSegment(s[..|s| - 1]) + [s[|s| - 1]]
  }

  function LeafIdentifier(span: string): string {
    LastDotSegment(AfterLastPath(TrimCalls(span)))
  }

  /** Exactly the spans whose leaf is the empty identifier. */
  lemma EmptyLeafExactly(span: string)
    ensures var t := TrimCalls(span);
            LeafIdentifier(span) == "" <==>
            t == "" || t[|t| - 1] == '.' || (|t| >= 2 && t[|t| - 2..] == "::")
  {
    var t := TrimCalls(span);
    EmptyAfterDot(AfterLastPath(t));
    if t != "" {
      NonEmptyAfterPath(t, |t|);
      assert |t| < 2 || t[|t| - 2..|t|] == t[|t| - 2..];
    }
  }

  lemma EmptyAfterDot(s: string)
    ensures LastDotSegment(s) == "" <==> s == "" || s[|s| - 1] == '.'
  {
  }

  lemma {:induction false} NonEmptyAfterPath(s: string, end: nat)
    requires end <= |s| && s != ""
    ensures AfterPathFrom(s, end) == "" <==> end == |s| >= 2 && s[end - 2..end] == "::"
    ensures AfterPathFrom(s, end) != "" ==> AfterPathFrom(s, end)[|AfterPathFrom(s, end)| - 1] == s[|s| - 1]
  {
    if end >= 2 && s[end - 2..end] != "::" {
      NonEmptyAfterPath(s, end - 1);
    }
  }

  function TrimStart(s: string): string {
    if s != "" && IsWhitespace(s[0]) then TrimStart(s[1..]) else s
  }

  function TrimEnd(s: string): string {
    if s != "" && IsWhitespace(s[|s| - 1]) then TrimEnd(s[..|s| - 1]) else s
  }

  predicate Contains(s: string, w: string) {
    FindFrom(s, w, 0).Some?
  }

  predicate EndsWithCall(s: string) {
    |s| >= 2 && s[|s| - 2..] == "()"
  }

  /** Whether a code span is checked against the graph at all. */
  predicate LooksLikeSymbol(code: string, pathExtensions: set<string>) {
    var span := TrimEnd(TrimStart(code));
    if span == "" || (exists c | c in span :: IsWhitespace(c)) then false
    else if span[0] == '.' then false
    else if '.' in span && LastDotSegment(span) in pathExtensions then false
    else if '/' in span then false
    else if Contains(span, "::") || EndsWithCall(span) then true
    else if exists c | c in span :: !IsIdentChar(c) && c != '.' then false
    else ('A' <= span[0] <= 'Z' && |span| >= 3) || ('_' in span && |span| >= 4)
  }

  lemma IdentifierThenPath(owner: string)
    requires owner != "" && forall c | c in owner :: IsIdentChar(c)
    ensures var span := owner + "::";
            && TrimEnd(TrimStart(span)) == span && TrimCalls(span) == span
            && (forall c | c in span :: !IsWhitespace(c) && c != '.' && c != '/')
            && Occurs(span, "::", |owner|)
  {
    var span := owner + "::";
    assert span[0] == owner[0] && owner[0] in owner;
    assert span[|span| - 2..] == "::";
  }

  /** A span that names a path and nothing after it is a candidate whose identifier is empty, so
      its search of a file that begins with an identifier character does not stop. */
  lemma OpenPathNeverStops(owner: string, pathExtensions: set<string>, text: string)
    requires owner != "" && forall c | c in owner :: IsIdentChar(c)
    requires text != "" && IsIdentChar(text[0])
    ensures LooksLikeSymbol(owner + "::", pathExtensions) && LeafIdentifier(owner + "::") == ""
    ensures !Stops(text, LeafIdentifier(owner + "::"))
  {
    var span := owner + "::";
    IdentifierThenPath(owner);
    EmptyLeafExactly(span);
    assert span[0] in span;
  }

  /** Characters that neither end a span nor divide it. */
  predicate PlainSpan(w: string) {
    w != "" && forall c | c in w :: !IsWhitespace(c) && c !in {'.', ':', '/', '(', ')'}
  }

  lemma {:induction false} NoPathInside(w: string, end: nat)
    requires PlainSpan(w) && end <= |w|
    ensures AfterPathFrom(w, end) == w
  {
    if end >= 2 {
      assert w[end - 1] in w && w[end - 2..end][1] == w[end - 1];
      NoPathInside(w, end - 1);
    }
  }

  lemma {:induction false} NoDotInside(w: string)
    requires '.' !in w
    ensures LastDotSegment(w) == w
  {
    if w != "" {
      assert w[|w| - 1] in w;
      NoDotInside(w[..|w| - 1]);
    }
  }

  lemma TrimmedCall(w: string)
    requires PlainSpan(w)
    ensures TrimCalls(w + "()") == w
  {
    var span := w + "()";
    assert span[|span| - 2..] == "()" && span[..|span| - 2] == w;
    assert w[|w| - 1] in w;
    assert |w| < 2 || w[|w| - 2..][1] == w[|w| - 1];
  }

  lemma CalledLeaf(w: string)
    requires PlainSpan(w)
    ensures LeafIdentifier(w + "()") == w
  {
    TrimmedCall(w);
    NoPathInside(w, |w|);
    NoDotInside(w);
  }

  lemma CalledIsSymbol(w: string, pathExtensions: set<string>)
    requires PlainSpan(w)
    ensures LooksLikeSymbol(w + "()", pathExtensions)
  {
    var span := w + "()";
    assert span[0] == w[0] && w[0] in w;
    assert span[|span| - 1] == ')';
    assert span[|span| - 2..] == "()";
    assert forall c :: c in span <==> c in w || c == '(' || c == ')';
  }

  /** A split border does reach the search: the call of such a name is a candidate whose identifier
      is that name, and there is a text in which the search misses its whole-word occurrence. */
  lemma SplitBorderReachesSearch(w: string, d: nat, pathExtensions: set<string>)
    requires PlainSpan(w) && SplitBorder(w, d)
    ensures LooksLikeSymbol(w + "()", pathExtensions) && LeafIdentifier(w + "()") == w
    ensures !Search(Witness(w, d), w, 0) && Mentioned(Witness(w, d), w)
  {
    CalledIsSymbol(w, pathExtensions);
    CalledLeaf(w);
    SkipMisses(w, d);
  }

  /** Such a name: `x-x`, missed in the text `ax-x-x`. */
  lemma DashedName()
    ensures PlainSpan("x-x") && SplitBorder("x-x", 2) && Witness("x-x", 2) == "ax-x-x"
  {
    var w := "x-x";
    assert w[2..] == "x" == w[..1] && w[..2] == "x-";
    assert forall c | c in w :: c == 'x' || c == '-';
    assert ['a'] + w[..2] + w == "ax-x-x";
  }
}

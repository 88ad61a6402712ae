/** What a text is sanitised to: its alphanumeric stretches in lower case, a dash between any two. */
module SlugMeaning {
  import opened Sorting
  import opened Text
  import opened Slug

  /** A character that a slug keeps: alphanumeric, and not the dash itself. */
  predicate Kept(t: CharTable, c: char) {
    t.alnum(c) && c != '-'
  }

  /** These are the longest stretches of kept characters, in order, and nothing else is kept. */
  ghost predicate Stretches(t: CharTable, s: string, parts: seq<string>)
    decreases |parts|
  {
    if parts == [] then forall c | c in s :: !Kept(t, c)
    else exists gap: string, rest: string :: StretchFirst(t, s, gap, parts[0], rest) && Stretches(t, rest, parts[1..])
  }

  predicate StretchFirst(t: CharTable, s: string, gap: string, first: string, rest: string) {
    && s == gap + first + rest && (forall c | c in gap :: !Kept(t, c))
    && first != "" && (forall c | c in first :: Kept(t, c))
    && (rest == "" || !Kept(t, rest[0]))
  }

  /** How far the text goes without a character that is not kept. */
  function FirstLength(t: CharTable, s: string): (n: nat)
    ensures n <= |s| && (forall i | 0 <= i < n :: Kept(t, s[i])) && (n < |s| ==> !Kept(t, s[n]))
  {
    if s == "" || !Kept(t, s[0]) then 0 else 1 + FirstLength(t, s[1..])
  }

  lemma ReplacedChar(t: CharTable, s: string, i: nat)
    requires i < |s|
    ensures Replaced(t, s)[i] == if Kept(t, s[i]) then s[i] else '-'
  {
  }

  lemma ReplacedKept(t: CharTable, s: string)
    requires forall i | 0 <= i < |s| :: Kept(t, s[i])
    ensures Replaced(t, s) == s && '-' !in s
  {
    forall i | 0 <= i < |s| ensures Replaced(t, s)[i] == s[i] {
      ReplacedChar(t, s, i);
    }
  }

  lemma ReplacedConcat(t: CharTable, a: string, b: string)
    ensures Replaced(t, a + b) == Replaced(t, a) + Replaced(t, b)
  {
  }

  lemma ReplacedDash(t: CharTable, c: char)
    requires !Kept(t, c)
    ensures Replaced(t, [c]) == ['-']
  {
  }

  lemma ReplacedParts(t: CharTable, a: string, c: char, b: string)
    requires (forall i | 0 <= i < |a| :: Kept(t, a[i])) && !Kept(t, c)
    ensures Replaced(t, a + [c] + b) == a + ['-'] + Replaced(t, b)
  {
    ReplacedConcat(t, a + [c], b);
    ReplacedConcat(t, a, [c]);
    ReplacedKept(t, a);
    ReplacedDash(t, c);
  }

  lemma CutAt(s: string, n: nat)
    requires n < |s|
    ensures s[..n] + [s[n]] + s[n + 1..] == s
  {
  }

  lemma ReplacedFront(t: CharTable, s: string)
    ensures var n := FirstLength(t, s);
            && '-' !in s[..n]
            && (n == |s| ==> Replaced(t, s) == s[..n])
            && (n < |s| ==> Replaced(t, s) == s[..n] + ['-'] + Replaced(t, s[n + 1..]))
  {
    var n := FirstLength(t, s);
    ReplacedKept(t, s[..n]);
    if n < |s| {
      CutAt(s, n);
      ReplacedParts(t, s[..n], s[n], s[n + 1..]);
    } else {
      assert s == s[..n];
    }
  }

  lemma SegmentsFront(t: CharTable, s: string)
    ensures var n := FirstLength(t, s);
            var rest := if n < |s| then Segments(t, s[n + 1..]) else [];
            Segments(t, s) == if n > 0 then [s[..n]] + rest else rest
  {
    var n := FirstLength(t, s);
    var front := [s[..n]];
    ReplacedFront(t, s);
    assert front[..0] == [];
    assert Filter(front, NonEmpty) == if n > 0 then front else [];
    if n == |s| {
      SplitPlain(s[..n], '-');
    } else {
      var rest := Replaced(t, s[n + 1..]);
      SplitAtSeparator(s[..n], rest, '-');
      FilterConcat(front, Split(rest, '-'), NonEmpty);
    }
  }

  lemma StretchInFront(t: CharTable, s: string, first: string, rest: string, parts: seq<string>)
    requires StretchFirst(t, s, "", first, rest) && Stretches(t, rest, parts)
    ensures Stretches(t, s, [first] + parts)
  {
    var all := [first] + parts;
    assert all[0] == first && all[1..] == parts;
    assert StretchFirst(t, s, "", all[0], rest) && Stretches(t, rest, all[1..]);
  }

  /** The first stretch, if there is one, in front of those behind the character that ends it. */
  lemma StretchesFromFront(t: CharTable, s: string, n: nat, later: seq<string>)
    requires n == FirstLength(t, s)
    requires if n < |s| then Stretches(t, s[n + 1..], later) else later == []
    ensures Stretches(t, s, if n > 0 then [s[..n]] + later else later)
  {
    var rest := s[n..];
    if n < |s| {
      StretchesBehind(t, s[n], s[n + 1..], later);
      assert rest == [s[n]] + s[n + 1..];
    }
    assert Stretches(t, rest, later);
    if n > 0 {
      assert s == "" + s[..n] + rest;
      StretchInFront(t, s, s[..n], rest, later);
    } else {
      assert rest == s;
    }
  }

  lemma {:induction false} SegmentsAreStretches(t: CharTable, s: string)
    ensures Stretches(t, s, Segments(t, s))
    decreases |s|
  {
    var n := FirstLength(t, s);
    SegmentsFront(t, s);
    if n < |s| {
      SegmentsAreStretches(t, s[n + 1..]);
      StretchesFromFront(t, s, n, Segments(t, s[n + 1..]));
    } else {
      StretchesFromFront(t, s, n, []);
      assert [s[..n]] + [] == [s[..n]];
    }
  }

  /** One more character in front that is not kept belongs to the gap. */
  lemma StretchesBehind(t: CharTable, c: char, s: string, parts: seq<string>)
    requires !Kept(t, c) && Stretches(t, s, parts)
    ensures Stretches(t, [c] + s, parts)
  {
    if parts != [] {
      var gap: string, rest: string :| StretchFirst(t, s, gap, parts[0], rest) && Stretches(t, rest, parts[1..]);
      assert [c] + s == ([c] + gap) + parts[0] + rest;
      assert StretchFirst(t, [c] + s, [c] + gap, parts[0], rest);
    }
  }

  lemma {:induction false} LowerIsFlatMap(t: CharTable, s: string)
    ensures Lower(t, s) == FlatMap(s, t.lower)
  {
    if s != "" {
      LowerIsFlatMap(t, s[1..]);
    }
  }

  /** A slug is the stretches of the text, with dashes between them, in lower case. */
  lemma SanitizeMeans(t: CharTable, s: string) returns (parts: seq<string>)
    ensures Stretches(t, s, parts) && Sanitize(t, s) == FlatMap(Join(parts, '-'), t.lower)
  {
    parts := Segments(t, s);
    SegmentsAreStretches(t, s);
    LowerIsFlatMap(t, Join(parts, '-'));
  }
}

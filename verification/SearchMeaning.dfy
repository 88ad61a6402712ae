/** What counts as a mention, what the identifier of a code span is, and which spans are looked up at
    all, in terms of the characters alone. */
module SearchMeaning {
  import opened Text
  import opened IdentifierSearch

  predicate Ident(c: char) {
    'a' <= c <= 'z' || 'A' <= c <= 'Z' || '0' <= c <= '9' || c == '_'
  }

  /** The text holds the identifier with no identifier character on either side of it. */
  ghost predicate Holds(text: string, w: string) {
    exists before: string, after: string :: StandsBetween(text, before, w, after)
  }

  predicate StandsBetween(text: string, before: string, w: string, after: string) {
    && text == before + w + after
    && (before == "" || !Ident(before[|before| - 1]))
    && (after == "" || !Ident(after[0]))
  }

  lemma MentionedMeans(text: string, w: string)
    ensures Mentioned(text, w) <==> Holds(text, w)
  {
    if i: nat :| WholeWordAt(text, w, i) {
      var before, after := text[..i], text[i + |w|..];
      assert text == before + w + after;
      assert StandsBetween(text, before, w, after);
    }
    if before: string, after: string :| StandsBetween(text, before, w, after) {
      var i := |before|;
      assert text[i..i + |w|] == w;
      assert before != "" ==> text[i - 1] == before[i - 1];
      assert after != "" ==> text[i + |w|] == after[0];
      assert WholeWordAt(text, w, i);
    }
  }

  // ---- the identifier of a span ----

  predicate EndsWith(s: string, w: string) {
    |w| <= |s| && s[|s| - |w|..] == w
  }

  /** No double colon begins at or behind the character before `from`. */
  ghost predicate UndividedFrom(t: string, from: int) {
    forall k | 0 <= k && from - 1 <= k < |t| - 1 :: !(t[k] == ':' && t[k + 1] == ':')
  }

  /** This part of the text is all of it, or stands behind a double colon, and holds none. */
  ghost predicate BehindPath(t: string, behind: string) {
    && EndsWith(t, behind) && UndividedFrom(t, |t| - |behind|)
    && (|behind| < |t| ==> |t| - |behind| >= 2 && t[|t| - |behind| - 2] == ':' && t[|t| - |behind| - 1] == ':')
  }

  /** This part of the text is all of it, or stands behind a dot, and holds none. */
  predicate BehindDot(s: string, leaf: string) {
    EndsWith(s, leaf) && '.' !in leaf && (|leaf| < |s| ==> s[|s| - |leaf| - 1] == '.')
  }

  /** The span without the call brackets at its end. */
  ghost predicate Uncalled(span: string, t: string)
    decreases |span|
  {
    if |span| >= 2 && span[|span| - 2] == '(' && span[|span| - 1] == ')' then Uncalled(span[..|span| - 2], t)
    else t == span
  }

  /** The leaf stands behind the last dot and the last double colon of what it ends. */
  ghost predicate LeafOf(t: string, head: string, leaf: string) {
    && t == head + leaf && '.' !in leaf
    && (head == "" || head[|head| - 1] == '.' || (|head| > 1 && head[|head| - 2] == ':' && head[|head| - 1] == ':'))
    && UndividedFrom(t, |head|)
  }

  lemma LastTwo(s: string)
    requires |s| >= 2
    ensures s[|s| - 2..] == [s[|s| - 2], s[|s| - 1]]
  {
  }

  lemma {:induction false} TrimCallsMeans(span: string)
    ensures Uncalled(span, TrimCalls(span))
  {
    if |span| >= 2 {
      LastTwo(span);
      if span[|span| - 2..] == "()" {
        TrimCallsMeans(span[..|span| - 2]);
      }
    }
  }

  /** Behind the last double colon that ends at or before `end`. */
  lemma {:induction false} PathMeans(s: string, end: nat)
    requires end <= |s| && UndividedFrom(s, end)
    ensures BehindPath(s, AfterPathFrom(s, end))
  {
    if end >= 2 {
      assert s[end - 2..end] == [s[end - 2], s[end - 1]];
      if s[end - 2..end] != "::" {
        PathMeans(s, end - 1);
      }
    }
  }

  lemma {:induction false} DotMeans(s: string)
    ensures BehindDot(s, LastDotSegment(s))
  {
    if s != "" && s[|s| - 1] != '.' {
      DotMeans(s[..|s| - 1]);
    }
  }

  lemma LeafBehind(t: string, behind: string, leaf: string)
    requires BehindPath(t, behind) && BehindDot(behind, leaf)
    ensures LeafOf(t, t[..|t| - |leaf|], leaf)
  {
    assert leaf == t[|t| - |leaf|..];
    if |leaf| < |behind| {
      assert t[|t| - |leaf| - 1] == behind[|behind| - |leaf| - 1];
    }
  }

  /** The identifier of a span is its leaf once the brackets of calls are gone. */
  lemma LeafMeans(span: string) returns (t: string, head: string)
    ensures Uncalled(span, t) && LeafOf(t, head, LeafIdentifier(span))
  {
    t := TrimCalls(span);
    TrimCallsMeans(span);
    PathMeans(t, |t|);
    DotMeans(AfterLastPath(t));
    LeafBehind(t, AfterLastPath(t), LeafIdentifier(span));
    head := t[..|t| - |LeafIdentifier(span)|];
  }

  // ---- which spans are looked up ----

  predicate Blank(c: char) {
    IsWhitespace(c)
  }

  /** The span in the middle of the code, without blanks around it. */
  ghost predicate Trimmed(code: string, span: string) {
    exists lead: string, trail: string :: TrimmedBy(code, lead, span, trail)
  }

  predicate TrimmedBy(code: string, lead: string, span: string, trail: string) {
    && code == lead + span + trail
    && (forall c | c in lead :: Blank(c)) && (forall c | c in trail :: Blank(c))
    && (span == "" || (!Blank(span[0]) && !Blank(span[|span| - 1])))
  }

  /** A symbol: divided by a double colon, called, capitalised and three long, or with an underscore
      and four long; but no blank, no leading dot, no slash, no name of a file. */
  ghost predicate Nameable(span: string, pathExtensions: set<string>) {
    && span != "" && (forall c | c in span :: !Blank(c) && c != '/') && span[0] != '.'
    && (forall e | e in pathExtensions && '.' !in e :: !EndsWith(span, "." + e))
    && (|| (exists k :: 0 <= k < |span| - 1 && span[k] == ':' && span[k + 1] == ':')
        || EndsWith(span, "()")
        || ((forall c | c in span :: Ident(c) || c == '.')
            && ((|span| > 2 && 'A' <= span[0] <= 'Z') || (|span| > 3 && '_' in span))))
  }


  lemma {:induction false} TrimStartMeans(s: string) returns (lead: string)
    ensures s == lead + TrimStart(s) && (forall c | c in lead :: Blank(c))
    ensures TrimStart(s) == "" || !Blank(TrimStart(s)[0])
  {
    lead := "";
    if s != "" && IsWhitespace(s[0]) {
      var rest := TrimStartMeans(s[1..]);
      lead := [s[0]] + rest;
      assert s == [s[0]] + s[1..];
    }
  }

  lemma {:induction false} TrimEndMeans(s: string) returns (trail: string)
    ensures s == TrimEnd(s) + trail && (forall c | c in trail :: Blank(c))
    ensures TrimEnd(s) == "" || !Blank(TrimEnd(s)[|TrimEnd(s)| - 1])
  {
    trail := "";
    if s != "" && IsWhitespace(s[|s| - 1]) {
      var rest := TrimEndMeans(s[..|s| - 1]);
      trail := rest + [s[|s| - 1]];
      assert s == s[..|s| - 1] + [s[|s| - 1]];
    }
  }

  lemma TrimMeans(code: string)
    ensures Trimmed(code, TrimEnd(TrimStart(code)))
  {
    var lead := TrimStartMeans(code);
    var inner := TrimStart(code);
    var trail := TrimEndMeans(inner);
    var span := TrimEnd(inner);
    assert code == lead + span + trail;
    assert span != "" ==> span[0] == inner[0];
    assert TrimmedBy(code, lead, span, trail);
  }

  lemma ExtensionMeans(span: string, pathExtensions: set<string>)
    ensures ('.' in span && LastDotSegment(span) in pathExtensions) <==>
            exists e | e in pathExtensions && '.' !in e :: EndsWith(span, "." + e)
  {
    DotMeans(span);
    var last := LastDotSegment(span);
    if '.' in span {
      assert |last| == |span| ==> last == span;
      assert EndsWith(span, "." + last) by {
        assert span[|span| - |last| - 1..] == "." + last;
      }
    }
    forall e | '.' !in e && EndsWith(span, "." + e) ensures '.' in span && last == e {
      assert span[|span| - |e| - 1] == ("." + e)[0] == '.';
      assert e == span[|span| - |e|..];
      BehindTheDot(span, e, last);
    }
  }

  lemma BehindTheDot(s: string, a: string, b: string)
    requires '.' !in a && |a| < |s| && a == s[|s| - |a|..] && s[|s| - |a| - 1] == '.'
    requires '.' !in b && |b| <= |s| && b == s[|s| - |b|..] && (|b| < |s| ==> s[|s| - |b| - 1] == '.')
    ensures a == b
  {
    assert forall k | |s| - |a| <= k < |s| :: s[k] in a;
    assert forall k | |s| - |b| <= k < |s| :: s[k] in b;
    assert |a| == |b|;
  }

  lemma DividedMeans(span: string)
    ensures Contains(span, "::") <==> exists k :: 0 <= k < |span| - 1 && span[k] == ':' && span[k + 1] == ':'
  {
    if Contains(span, "::") {
      var k := FindFrom(span, "::", 0).value;
      assert span[k..k + 2] == "::";
      assert span[k] == ':' && span[k + 1] == ':';
    }
    if k :| 0 <= k < |span| - 1 && span[k] == ':' && span[k + 1] == ':' {
      assert span[k..k + 2] == "::";
      assert Occurs(span, "::", k);
    }
  }

  /** A piece of code is looked up exactly when it names something once blanks around it are gone. */
  lemma SymbolMeans(code: string, pathExtensions: set<string>) returns (span: string)
    ensures Trimmed(code, span)
    ensures LooksLikeSymbol(code, pathExtensions) <==> Nameable(span, pathExtensions)
  {
    span := TrimEnd(TrimStart(code));
    TrimMeans(code);
    ExtensionMeans(span, pathExtensions);
    DividedMeans(span);
    assert forall c :: Ident(c) <==> IsIdentChar(c);
  }
}

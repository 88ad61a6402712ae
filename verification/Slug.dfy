/** `sanitize_slug`, over any table of the Unicode properties it consults. */
module Slug {
  import opened Sorting
  import opened Text

  /** `char::is_alphanumeric` and the lower-case mapping of one character, which may be longer. */
  datatype CharTable = CharTable(alnum: char -> bool, lower: char -> string)
  {
    /** The table says of ASCII what ASCII says. */
    ghost predicate AsciiCorrect() {
      forall c: char | c as int < 0x80 ::
        alnum(c) == IsAsciiLetterOrDigit(c) && lower(c) == [AsciiLower(c)]
    }
  }

  predicate NonEmpty(s: string) {
    s != ""
  }

  function Replaced(t: CharTable, s: string): string {
    Map(s, (c: char) => if t.alnum(c) || c == '-' then c else '-')
  }

  function Lower(t: CharTable, s: string): string {
    if s == "" then "" else t.lower(s[0]) + Lower(t, s[1..])
  }

  /** The non-empty stretches between dashes. */
  function Segments(t: CharTable, s: string): seq<string> {
    Filter(Split(Replaced(t, s), '-'), NonEmpty)
  }

  function Sanitize(t: CharTable, s: string): string {
    Lower(t, Join(Segments(t, s), '-'))
  }

  // ---- the shape of a slug ----

  /** Lower-case alphanumerics in non-empty stretches between single dashes. */
  ghost predicate SlugForm(t: CharTable, s: string) {
    && (forall c | c in s :: c == '-' || t.alnum(c))
    && Lower(t, s) == s
    && (s == "" || forall part | part in Split(s, '-') :: part != "")
  }

  lemma {:induction false} FilterAll<T>(s: seq<T>, p: T -> bool)
    requires forall x | x in s :: p(x)
    ensures Filter(s, p) == s
  {
    if s != [] {
      var n := |s| - 1;
      assert s == s[..n] + [s[n]];
      FilterAll(s[..n], p);
    }
  }

  lemma NothingReplaced(t: CharTable, s: string)
    requires forall c | c in s :: c == '-' || t.alnum(c)
    ensures Replaced(t, s) == s
  {
    forall i | 0 <= i < |s| ensures Replaced(t, s)[i] == s[i] {
      assert s[i] in s;
    }
  }

  /** Sanitising leaves slugs alone. */
  lemma SlugFormStable(t: CharTable, s: string)
    requires SlugForm(t, s)
    ensures Sanitize(t, s) == s
  {
    NothingReplaced(t, s);
    if s == "" {
      assert Split("", '-') == [""];
      FilterMembers([""], NonEmpty);
      EmptyOrInhabited(Filter([""], NonEmpty));
    } else {
      FilterAll(Split(s, '-'), NonEmpty);
      JoinSplit(s, '-');
    }
  }

  // ---- ASCII ----

  predicate LowerSlugChar(c: char) {
    '0' <= c <= '9' || 'a' <= c <= 'z'
  }

  lemma SegmentChars(t: CharTable, s: string)
    requires t.AsciiCorrect() && IsAscii(s)
    ensures forall part | part in Segments(t, s) :: part != "" && forall c | c in part :: IsAsciiLetterOrDigit(c)
  {
    FilterMembers(Split(Replaced(t, s), '-'), NonEmpty);
    SplitParts(Replaced(t, s), '-');
    var r := Replaced(t, s);
    forall c | c in r ensures c == '-' || IsAsciiLetterOrDigit(c) {
      var i :| 0 <= i < |r| && r[i] == c;
      assert s[i] in s;
    }
  }

  lemma {:induction false} LowerConcat(t: CharTable, a: string, b: string)
    ensures Lower(t, a + b) == Lower(t, a) + Lower(t, b)
  {
    if a == "" {
      assert a + b == b;
    } else {
      assert (a + b)[1..] == a[1..] + b;
      LowerConcat(t, a[1..], b);
    }
  }

  lemma {:induction false} LowerAscii(t: CharTable, s: string)
    requires t.AsciiCorrect() && forall c | c in s :: IsAsciiLetterOrDigit(c)
    ensures |Lower(t, s)| == |s|
    ensures forall c | c in Lower(t, s) :: LowerSlugChar(c)
  {
    if s != "" {
      assert s[0] in s;
      LowerAscii(t, s[1..]);
    }
  }

  lemma {:induction false} LowerFixes(t: CharTable, s: string)
    requires t.AsciiCorrect() && forall c | c in s :: LowerSlugChar(c) || c == '-'
    ensures Lower(t, s) == s
  {
    if s != "" {
      assert s[0] in s;
      LowerFixes(t, s[1..]);
    }
  }

  /** Lower-casing goes through the dashes. */
  lemma {:induction false} LowerJoin(t: CharTable, parts: seq<string>)
    requires t.AsciiCorrect()
    ensures Lower(t, Join(parts, '-')) == Join(Map(parts, (p: string) => Lower(t, p)), '-')
  {
    if |parts| > 1 {
      LowerJoin(t, parts[1..]);
      LowerConcat(t, parts[0] + ['-'], Join(parts[1..], '-'));
      LowerConcat(t, parts[0], ['-']);
      assert Lower(t, ['-']) == ['-'] by { assert ['-'][1..] == ""; }
      var lowered := Map(parts, (p: string) => Lower(t, p));
      assert lowered[1..] == Map(parts[1..], (p: string) => Lower(t, p));
    }
  }

  lemma JoinedSlug(t: CharTable, parts: seq<string>)
    requires t.AsciiCorrect()
    requires forall p | p in parts :: p != "" && forall c | c in p :: LowerSlugChar(c)
    ensures SlugForm(t, Join(parts, '-'))
  {
    var s := Join(parts, '-');
    forall c | c in s ensures c == '-' || LowerSlugChar(c) {
      JoinChars(parts, '-', c);
    }
    LowerFixes(t, s);
    if parts != [] {
      forall p | p in parts ensures '-' !in p {
        assert forall c | c in p :: LowerSlugChar(c);
      }
      SplitJoin(parts, '-');
    }
  }

  /** What ASCII text is sanitised to has the shape of a slug. */
  lemma AsciiSlugForm(t: CharTable, s: string)
    requires t.AsciiCorrect() && IsAscii(s)
    ensures SlugForm(t, Sanitize(t, s))
  {
    var parts := Segments(t, s);
    SegmentChars(t, s);
    LowerJoin(t, parts);
    var lowered := Map(parts, (p: string) => Lower(t, p));
    forall p | p in lowered ensures p != "" && forall c | c in p :: LowerSlugChar(c) {
      var i :| 0 <= i < |lowered| && lowered[i] == p;
      assert parts[i] in parts;
      LowerAscii(t, parts[i]);
    }
    JoinedSlug(t, lowered);
  }

  /** For ASCII text sanitising twice is sanitising once. */
  lemma AsciiSanitizeIdempotent(t: CharTable, s: string)
    requires t.AsciiCorrect() && IsAscii(s)
    ensures Sanitize(t, Sanitize(t, s)) == Sanitize(t, s)
  {
    AsciiSlugForm(t, s);
    SlugFormStable(t, Sanitize(t, s));
  }

  /** A slug cannot climb out of the directory it names. */
  lemma SlugIsOneComponent(t: CharTable, s: string)
    requires t.AsciiCorrect() && IsAscii(s)
    ensures '/' !in Sanitize(t, s) && '.' !in Sanitize(t, s)
  {
    AsciiSlugForm(t, s);
    assert !t.alnum('/') && !t.alnum('.');
  }

  /** Beyond ASCII it is not: the lower-case form of U+0130 is an `i` and a combining dot, and a
      combining mark is not alphanumeric. */
  lemma DottedCapitalIsUnstable(t: CharTable)
    requires t.AsciiCorrect() && t.alnum('\U{0130}') && t.lower('\U{0130}') == ['i', '\U{0307}'] && !t.alnum('\U{0307}')
    ensures Sanitize(t, ['\U{0130}']) == ['i', '\U{0307}']
    ensures Sanitize(t, ['i', '\U{0307}']) == "i"
  {
    var big := ['\U{0130}'];
    NothingReplaced(t, big);
    SplitPlain(big, '-');
    FilterAll([big], NonEmpty);
    assert Lower(t, big) == t.lower(big[0]) + Lower(t, "");

    var small := ['i', '\U{0307}'];
    assert Replaced(t, small) == "i" + ['-'] + "";
    SplitAtSeparator("i", "", '-');
    assert Split("i" + ['-'] + "", '-') == ["i", ""];
    assert ["i", ""][..1] == ["i"] && ["i"][..0] == [];
    assert Segments(t, small) == ["i"];
    assert Lower(t, "i") == t.lower('i') + Lower(t, "");
  }
}

/** The spelling of a reference, character by character, and what each refusal says about a text. */
module UriMeaning {
  import opened Wrappers
  import opened Sorting
  import opened Text
  import opened Utf8
  import opened OhUri

  const MARKS := "-_.!~*'()"
  const UPPER_HEX := "0123456789ABCDEF"
  const LOWER_HEX := "0123456789abcdef"

  // ---- characters ----

  predicate Plain(c: char) {
    'A' <= c <= 'Z' || 'a' <= c <= 'z' || '0' <= c <= '9' || c in MARKS
  }

  /** A byte stands for itself if it is a letter, a digit or one of the marks, and else as two
      upper-case digits behind a percent sign. */
  ghost predicate SpelledAs(b: Byte, text: string) {
    if Plain(b as char) then text == [b as char]
    else text == ['%', UPPER_HEX[b / 16], UPPER_HEX[b % 16]]
  }

  lemma MarksExactly(c: char)
    ensures c in MARKS <==> c in {'-', '_', '.', '!', '~', '*', '\'', '(', ')'}
  {
    assert MARKS[0] == '-' && MARKS[1] == '_' && MARKS[2] == '.' && MARKS[3] == '!' && MARKS[4] == '~';
    assert MARKS[5] == '*' && MARKS[6] == '\'' && MARKS[7] == '(' && MARKS[8] == ')';
  }

  lemma UpperDigit(d: nat)
    requires d < 16
    ensures UpperHex(d) == UPPER_HEX[d]
  {
  }

  lemma ByteMeans(b: Byte)
    ensures SpelledAs(b, EscapeByte(b))
  {
    MarksExactly(b as char);
    UpperDigit(b / 16);
    UpperDigit(b % 16);
  }

  lemma HexMeans(b: Byte, v: nat)
    ensures HexValue(b) == Some(v) <==> v < 16 && (b as char == UPPER_HEX[v] || b as char == LOWER_HEX[v])
  {
  }

  lemma {:induction false} EscapeIsFlatMap(bytes: seq<Byte>)
    ensures EscapeBytes(bytes) == FlatMap(bytes, EscapeByte)
  {
    if bytes != [] {
      EscapeIsFlatMap(bytes[1..]);
    }
  }

  // ---- references ----

  /** The name of a kind in a reference. */
  predicate Named(kind: Kind, name: string) {
    match kind
    case Context => name == "context"
    case Endeavor => name == "endeavor"
    case Metis => name == "metis"
    case Guardrail => name == "guardrail"
    case DivePack => name == "dive_pack"
    case Log => name == "log"
  }

  lemma KindMeans(kind: Kind)
    ensures Named(kind, KindText(kind))
  {
  }

  /** A reference is the scheme, the name of its kind and, behind a slash, its id with each byte of its
      UTF-8 form spelled out. */
  lemma PrintMeans(kind: Kind, id: string) returns (name: string, spelled: Byte -> string)
    ensures Named(kind, name) && forall b: Byte :: SpelledAs(b, spelled(b))
    ensures Print(kind, id) == "oh://v1/" + name + "/" + FlatMap(Encode(id), spelled)
  {
    name := KindText(kind);
    spelled := EscapeByte;
    forall b: Byte ensures SpelledAs(b, spelled(b)) { ByteMeans(b); }
    EscapeIsFlatMap(Encode(id));
    assert PREFIX + (name + ['/'] + PercentEncoded(id)) == "oh://v1/" + name + "/" + PercentEncoded(id);
  }

  predicate Astral(c: char) {
    c as int > 0xFFFF
  }

  lemma {:induction false} UnitsMean(s: string)
    ensures Utf16Units(s) == |s| + |Filter(s, Astral)|
  {
    if s != "" {
      UnitsMean(s[1..]);
      FilterConcat([s[0]], s[1..], Astral);
      assert s == [s[0]] + s[1..] && [s[0]][..0] == [];
    }
  }

  /** An id is neither empty nor divided, and has at most 512 UTF-16 units: one for each character, two
      for those beyond U+FFFF. */
  lemma ValidMeans(id: string)
    ensures ValidId(id) <==> id != "" && '/' !in id && |id| + |Filter(id, Astral)| <= 512
  {
    UnitsMean(id);
  }

  // ---- refusals ----

  /** The part of a text behind the scheme, cut at slashes. */
  ghost predicate Behind(value: string, parts: seq<string>) {
    && parts != [] && (forall p | p in parts :: '/' !in p)
    && value == "oh://v1/" + Join(parts, '/')
  }

  ghost predicate IsKindName(name: string) {
    exists kind :: Named(kind, name)
  }

  lemma KindNameMeans(name: string)
    ensures ParseKind(name).Some? <==> IsKindName(name)
  {
    if ParseKind(name).Some? {
      assert Named(ParseKind(name).value, name);
    }
    if kind :| Named(kind, name) {
      KindRoundTrip(kind);
      assert KindText(kind) == name;
    }
  }

  lemma NotOurs(value: string)
    ensures |value| >= |PREFIX| && value[..|PREFIX|] == PREFIX <==> exists parts :: Behind(value, parts)
  {
    if |value| >= |PREFIX| && value[..|PREFIX|] == PREFIX {
      var rest := value[|PREFIX|..];
      JoinSplit(rest, '/');
      SplitParts(rest, '/');
      assert value == PREFIX + rest;
      forall p | p in Split(rest, '/') ensures '/' !in p {
      }
      assert Behind(value, Split(rest, '/'));
    }
  }

  /** What is wrong with the part behind the scheme: the first of these that applies. */
  ghost predicate WrongWith(rest: string, parts: seq<string>, error: UriError) {
    if '?' in rest || '#' in rest then error == QueryOrFragment
    else if |parts| == 0 || !IsKindName(parts[0]) then error == UnsupportedKind
    else if |parts| == 1 || parts[1] == "" then error == MissingId
    else if |parts| > 2 then error == ExtraSegment
    else
      match PercentDecoded(parts[1])
      case None => error == InvalidEscape
      case Some(id) => error == if ValidId(id) then NotCanonical else InvalidId
  }

  /** Each refusal names the first thing that is wrong, and a text that holds a question mark or a
      number sign is never accepted. */
  lemma RefusalMeans(value: string)
    requires Parse(value).Err?
    ensures Parse(value).error == UnsupportedUri <==> forall parts :: !Behind(value, parts)
    ensures Parse(value).error != UnsupportedUri ==>
              var parts := Split(value[8..], '/');
              Behind(value, parts) && WrongWith(value[8..], parts, Parse(value).error)
  {
    NotOurs(value);
    if |value| >= |PREFIX| && value[..|PREFIX|] == PREFIX {
      var rest := value[8..];
      JoinSplit(rest, '/');
      SplitParts(rest, '/');
      assert value == PREFIX + rest;
      KindNameMeans(Split(rest, '/')[0]);
    }
  }
}

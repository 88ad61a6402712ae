/** The two path normalisers: the LSP evidence one rejects as soon as `..` underflows,
    the ADR one collapses everything first and then looks for a leftover `..`. */
module RepoPath {
  import opened Wrappers
  import opened Text

  datatype PathError = EmptyOrNul | NotRelative | EscapesRoot | ResolvesToRoot

  predicate IsName(c: string) {
    c != "" && c != "." && c != ".."
  }

  predicate Names(stack: seq<string>) {
    forall c | c in stack :: IsName(c)
  }

  /** What the component stack holds after `components`, or None once `..` finds it empty. */
  function Collapse(components: seq<string>, stack: seq<string>): Option<seq<string>> {
    if components == [] then Some(stack)
    else
      var c, rest := components[0], components[1..];
      if c == "" || c == "." then Collapse(rest, stack)
      else if c == ".." then
        if stack == [] then None else Collapse(rest, stack[..|stack| - 1])
      else Collapse(rest, stack + [c])
  }

  /** A drive prefix `X:/` after one ASCII byte, which is what byte indices 1..3 can see. */
  predicate DrivePrefix(s: string) {
    |s| >= 3 && s[0] as int < 0x80 && s[1] == ':' && s[2] == '/'
  }

  function ToSlashes(s: string): (r: string)
    ensures |r| == |s|
    ensures forall i | 0 <= i < |s| :: r[i] == if s[i] == '\\' then '/' else s[i]
  {
    if s == "" then "" else [if s[0] == '\\' then '/' else s[0]] + ToSlashes(s[1..])
  }

  function Normalized(path: string): Result<string, PathError> {
    if path == "" || '\0' in path then Err(EmptyOrNul)
    else
      var p := ToSlashes(path);
      if p[0] == '/' || DrivePrefix(p) then Err(NotRelative)
      else
        match Collapse(Split(p, '/'), [])
        case None => Err(EscapesRoot)
        case Some(stack) => if stack == [] then Err(ResolvesToRoot) else Ok(Join(stack, '/'))
  }

  method NormalizeRepoRelativePath(path: string) returns (r: Result<string, PathError>)
    ensures r == Normalized(path)
  {
    if path == "" || '\0' in path {
      return Err(EmptyOrNul);
    }
    var p := ToSlashes(path);
    if p[0] == '/' || DrivePrefix(p) {
      return Err(NotRelative);
    }
    var parts := Split(p, '/');
    var components: seq<string> := [];
    var i := 0;
    while i < |parts|
      invariant 0 <= i <= |parts|
      invariant Collapse(parts[i..], components) == Collapse(parts, [])
    {
      assert parts[i..][0] == parts[i] && parts[i..][1..] == parts[i + 1..];
      var component := parts[i];
      if component == "" || component == "." {
      } else if component == ".." {
        if components == [] {
          return Err(EscapesRoot);
        }
        components := components[..|components| - 1];
      } else {
        components := components + [component];
      }
      i := i + 1;
    }
    if components == [] {
      return Err(ResolvesToRoot);
    }
    return Ok(Join(components, '/'));
  }

  // ---- acceptance by running depth ----

  function Weight(c: string): int {
    if c == "" || c == "." then 0 else if c == ".." then -1 else 1
  }

  /** Names minus `..` in a component list. */
  function Depth(components: seq<string>): int {
    if components == [] then 0 else Weight(components[0]) + Depth(components[1..])
  }

  ghost predicate NeverBelow(components: seq<string>, start: int) {
    forall k | 0 <= k <= |components| :: start + Depth(components[..k]) >= 0
  }

  lemma {:induction false} NeverBelowStep(components: seq<string>, start: int)
    requires components != [] && start >= 0
    ensures NeverBelow(components, start) <==>
            start + Weight(components[0]) >= 0 && NeverBelow(components[1..], start + Weight(components[0]))
  {
    var w, rest := Weight(components[0]), components[1..];
    forall k | 0 <= k <= |rest|
      ensures Depth(components[..k + 1]) == w + Depth(rest[..k])
    {
      assert components[..k + 1][1..] == rest[..k];
    }
    if NeverBelow(components, start) {
      assert start + Depth(components[..1]) >= 0;
      assert Depth(rest[..0]) == 0;
      forall k | 0 <= k <= |rest| ensures start + w + Depth(rest[..k]) >= 0 {
        assert start + Depth(components[..k + 1]) >= 0;
      }
    }
    if start + w >= 0 && NeverBelow(rest, start + w) {
      forall k | 0 <= k <= |components| ensures start + Depth(components[..k]) >= 0 {
        if k > 0 {
          assert start + w + Depth(rest[..k - 1]) >= 0;
        }
      }
    }
  }

  lemma {:induction false} CollapseByDepth(components: seq<string>, stack: seq<string>)
    ensures Collapse(components, stack).Some? <==> NeverBelow(components, |stack|)
    ensures Collapse(components, stack).Some? ==> |Collapse(components, stack).value| == |stack| + Depth(components)
  {
    if components == [] {
    } else {
      var c, rest := components[0], components[1..];
      NeverBelowStep(components, |stack|);
      if c == "" || c == "." {
        CollapseByDepth(rest, stack);
      } else if c == ".." {
        if stack != [] {
          CollapseByDepth(rest, stack[..|stack| - 1]);
        }
      } else {
        CollapseByDepth(rest, stack + [c]);
      }
    }
  }

  /** A component list is accepted exactly when its running depth never goes negative and
      ends positive. */
  lemma AcceptedByDepth(components: seq<string>)
    ensures (Collapse(components, []).Some? && Collapse(components, []).value != []) <==>
            (NeverBelow(components, 0) && Depth(components) > 0)
  {
    CollapseByDepth(components, []);
  }

  // ---- the ADR form ----

  /** `normalize_path`: a `..` that cannot remove a name is kept. */
  function AdrCollapse(components: seq<string>, stack: seq<string>): seq<string> {
    if components == [] then stack
    else
      var c, rest := components[0], components[1..];
      if c == "" || c == "." then AdrCollapse(rest, stack)
      else if c == ".." then
        if stack != [] && stack[|stack| - 1] != ".." then AdrCollapse(rest, stack[..|stack| - 1])
        else AdrCollapse(rest, stack + [".."])
      else AdrCollapse(rest, stack + [c])
  }

  method NormalizePath(components: seq<string>) returns (stack: seq<string>)
    ensures stack == AdrCollapse(components, [])
  {
    stack := [];
    for i := 0 to |components|
      invariant AdrCollapse(components[i..], stack) == AdrCollapse(components, [])
    {
      assert components[i..][0] == components[i] && components[i..][1..] == components[i + 1..];
      var c := components[i];
      if c == "" || c == "." {
      } else if c == ".." {
        if stack != [] && stack[|stack| - 1] != ".." {
          stack := stack[..|stack| - 1];
        } else {
          stack := stack + [c];
        }
      } else {
        stack := stack + [c];
      }
    }
  }

  /** The whole ADR normaliser on a trimmed Unix path; the components of `Path` are the
      slash-separated parts without the empty ones and the inner `.`. */
  function AdrNormalized(trimmed: string): Result<string, PathError> {
    if trimmed == "" then Err(EmptyOrNul)
    else if trimmed[0] == '/' then Err(NotRelative)
    else
      var stack := AdrCollapse(Split(trimmed, '/'), []);
      if stack == [] then Err(ResolvesToRoot)
      else if ".." in stack then Err(EscapesRoot)
      else Ok(Join(stack, '/'))
  }

  lemma {:induction false} LeftoverStays(components: seq<string>, stack: seq<string>)
    requires stack != [] && stack[0] == ".."
    ensures ".." in AdrCollapse(components, stack)
  {
    if components != [] {
      var c, rest := components[0], components[1..];
      if c == "" || c == "." {
        LeftoverStays(rest, stack);
      } else if c == ".." {
        if stack[|stack| - 1] != ".." {
          LeftoverStays(rest, stack[..|stack| - 1]);
        } else {
          LeftoverStays(rest, stack + [".."]);
        }
      } else {
        LeftoverStays(rest, stack + [c]);
      }
    }
  }

  /** Collapse-then-reject and reject-on-underflow are the same test and give the same names. */
  lemma {:induction false} FormsAgree(components: seq<string>, stack: seq<string>)
    requires Names(stack)
    ensures Collapse(components, stack) ==
            if ".." in AdrCollapse(components, stack) then None else Some(AdrCollapse(components, stack))
    ensures Collapse(components, stack).Some? ==> Names(Collapse(components, stack).value)
  {
    if components != [] {
      var c, rest := components[0], components[1..];
      if c == "" || c == "." {
        FormsAgree(rest, stack);
      } else if c == ".." {
        if stack == [] {
          assert stack + [".."] == [".."];
          LeftoverStays(rest, [".."]);
        } else {
          assert stack[|stack| - 1] in stack;
          assert Names(stack[..|stack| - 1]);
          FormsAgree(rest, stack[..|stack| - 1]);
        }
      } else {
        assert IsName(c) && Names(stack + [c]);
        FormsAgree(rest, stack + [c]);
      }
    }
  }

  lemma ToSlashesFixes(s: string)
    requires '\\' !in s
    ensures ToSlashes(s) == s
  {
    var t := ToSlashes(s);
    forall i | 0 <= i < |s| ensures t[i] == s[i] {
      assert s[i] in s;
    }
  }

  /** On every path, the LSP normaliser accepts what the ADR one accepts once backslashes are
      turned into slashes, with the same result, except that it also refuses NUL bytes and drive
      prefixes. */
  lemma NormalisersAgree(path: string)
    ensures Normalized(path).ToOption() ==
            if '\0' in path || DrivePrefix(ToSlashes(path)) then None else AdrNormalized(ToSlashes(path)).ToOption()
  {
    if path != "" {
      FormsAgree(Split(ToSlashes(path), '/'), []);
    }
  }

  // ---- normalising twice ----

  lemma {:induction false} CollapseKeeps(components: seq<string>, stack: seq<string>, bad: set<char>)
    requires Collapse(components, stack).Some?
    requires forall p, c | p in stack && c in p :: c !in bad
    requires forall p, c | p in components && c in p :: c !in bad
    ensures forall p, c | p in Collapse(components, stack).value && c in p :: c !in bad
  {
    if components != [] {
      var c, rest := components[0], components[1..];
      assert c in components;
      assert forall p | p in rest :: p in components;
      if c == "" || c == "." {
        CollapseKeeps(rest, stack, bad);
      } else if c == ".." {
        CollapseKeeps(rest, stack[..|stack| - 1], bad);
      } else {
        CollapseKeeps(rest, stack + [c], bad);
      }
    }
  }

  lemma {:induction false} CollapseNames(components: seq<string>, stack: seq<string>)
    requires Names(components)
    ensures Collapse(components, stack) == Some(stack + components)
  {
    if components == [] {
      assert stack + components == stack;
    } else {
      assert components[0] in components;
      CollapseNames(components[1..], stack + [components[0]]);
      assert stack + [components[0]] + components[1..] == stack + components;
    }
  }

  /** The shape of every normalised path. */
  lemma NormalizedShape(path: string) returns (names: seq<string>)
    requires Normalized(path).Ok?
    ensures names != [] && Names(names) && Normalized(path).value == Join(names, '/')
    ensures forall p, c | p in names && c in p :: c != '/' && c != '\\' && c != '\0'
  {
    var p := ToSlashes(path);
    var parts := Split(p, '/');
    names := Collapse(parts, []).value;
    FormsAgree(parts, []);
    SplitParts(p, '/');
    var bad := {'/', '\\', '\0'};
    forall q, c | q in parts && c in q ensures c !in bad {
      assert c in p;
      var i :| 0 <= i < |p| && p[i] == c;
      assert path[i] in path;
    }
    CollapseKeeps(parts, [], bad);
  }

  /** Normalising a normalised path returns it unchanged, unless it begins with a drive
      prefix: then it is refused. */
  lemma Renormalized(path: string)
    requires Normalized(path).Ok?
    ensures var t := Normalized(path).value;
            Normalized(t) == if DrivePrefix(t) then Err(NotRelative) else Ok(t)
  {
    var names := NormalizedShape(path);
    var t := Normalized(path).value;
    assert names[0] in names && names[0][0] in names[0];
    assert t[0] == names[0][0];
    forall c | c in t ensures c != '\\' && c != '\0' {
      JoinChars(names, '/', c);
    }
    ToSlashesFixes(t);
    SplitJoin(names, '/');
    CollapseNames(names, []);
    assert [] + names == names;
  }

  lemma DrivePathParts()
    ensures Split("./C:/x", '/') == [".", "C:", "x"]
  {
    SplitPlain("x", '/');
    SplitAtSeparator("C:", "x", '/');
    SplitAtSeparator(".", "C:/x", '/');
    assert "." + ['/'] + "C:/x" == "./C:/x" && "C:" + ['/'] + "x" == "C:/x";
    assert ["."] + (["C:"] + ["x"]) == [".", "C:", "x"];
  }

  lemma DrivePathCollapse()
    ensures Collapse([".", "C:", "x"], []) == Some(["C:", "x"]) && Join(["C:", "x"], '/') == "C:/x"
  {
    assert [".", "C:", "x"][1..] == ["C:", "x"];
    CollapseNames(["C:", "x"], []);
    assert [] + ["C:", "x"] == ["C:", "x"];
    assert ["C:", "x"][1..] == ["x"];
    assert Join(["C:", "x"], '/') == "C:" + ['/'] + "x" == "C:/x";
  }

  /** A path on which the second normalisation does fail. */
  lemma DrivePathIsNotStable()
    ensures Normalized("./C:/x") == Ok("C:/x") && Normalized("C:/x") == Err(NotRelative)
  {
    DrivePathParts();
    DrivePathCollapse();
    ToSlashesFixes("./C:/x");
    ToSlashesFixes("C:/x");
  }

  /** The path normalises to a repository-relative path that does not look like a drive. */
  predicate StablePath(path: string) {
    Normalized(path).Ok? && !DrivePrefix(Normalized(path).value)
  }

  lemma DrivePathIsDisguised()
    ensures Normalized("./C:/x").Ok? && !StablePath("./C:/x")
  {
    DrivePathIsNotStable();
    var t := "C:/x";
    assert t[0] == 'C' && t[1] == ':' && t[2] == '/';
  }

  /** `if let Ok(path) = normalize(..)`: what `canonicalize` leaves in a path field. */
  function CanonicalPath(path: string): string {
    match Normalized(path)
    case Ok(p) => p
    case Err(_) => path
  }

  /** Canonicalising a path field twice changes nothing, drive prefix or not. */
  lemma CanonicalPathIdempotent(path: string)
    ensures CanonicalPath(CanonicalPath(path)) == CanonicalPath(path)
  {
    if Normalized(path).Ok? {
      Renormalized(path);
    }
  }
}

/** What a path normalises to and why one is refused, as a walk from the root of the repository. */
module PathMeaning {
  import opened Wrappers
  import opened Text
  import opened RepoPath

  /** Where a walk along the first `n` parts ends, as the names from the root down; None once it has
      left the repository. Nothing and a dot stay, two dots go up, any other part goes down. */
  function Walk(parts: seq<string>, n: nat): Option<seq<string>>
    requires n <= |parts|
  {
    if n == 0 then Some([])
    else
      match Walk(parts, n - 1)
      case None => None
      case Some(at) =>
        match parts[n - 1]
        case "" => Some(at)
        case "." => Some(at)
        case ".." => if |at| > 0 then Some(at[..|at| - 1]) else None
        case name => Some(at + [name])
  }

  /** From where the walk has come the stack goes on. */
  lemma {:induction false} WalkIsCollapse(parts: seq<string>, n: nat)
    requires n <= |parts|
    ensures Collapse(parts, []) ==
            match Walk(parts, n)
            case None => None
            case Some(at) => Collapse(parts[n..], at)
  {
    if n == 0 {
      assert parts[0..] == parts;
    } else {
      WalkIsCollapse(parts, n - 1);
      assert parts[n - 1..][0] == parts[n - 1] && parts[n - 1..][1..] == parts[n..];
    }
  }

  lemma WholeWalk(parts: seq<string>)
    ensures Collapse(parts, []) == Walk(parts, |parts|)
  {
    WalkIsCollapse(parts, |parts|);
    assert parts[|parts|..] == [];
  }

  predicate Slash(c: char) {
    c == '/' || c == '\\'
  }

  /** The path is absolute, or begins like one on a drive. */
  predicate Rooted(path: string) {
    || (|path| > 0 && Slash(path[0]))
    || (|path| > 2 && path[0] as int <= 0x7F && path[1] == ':' && Slash(path[2]))
  }

  /** The parts between slashes of either kind. */
  ghost predicate Parts(path: string, parts: seq<string>) {
    exists p :: |p| == |path| && parts == Split(p, '/')
                && forall i | 0 <= i < |p| :: if Slash(path[i]) then p[i] == '/' else p[i] == path[i]
  }

  lemma SameSlashes(path: string, p: string)
    requires |p| == |path| && forall i | 0 <= i < |p| :: if Slash(path[i]) then p[i] == '/' else p[i] == path[i]
    ensures p == ToSlashes(path)
  {
  }

  /** What becomes of a path: refused if it is empty or holds a NUL, if it is rooted, if its walk leaves
      the repository or ends at its root; and else the names where its walk ends. */
  lemma NormalizedMeans(path: string, parts: seq<string>)
    requires Parts(path, parts)
    ensures Normalized(path) ==
            if path == "" || '\0' in path then Err(EmptyOrNul)
            else if Rooted(path) then Err(NotRelative)
            else
              match Walk(parts, |parts|)
              case None => Err(EscapesRoot)
              case Some(at) => if |at| > 0 then Ok(Join(at, '/')) else Err(ResolvesToRoot)
  {
    var p :| |p| == |path| && parts == Split(p, '/')
             && forall i | 0 <= i < |p| :: if Slash(path[i]) then p[i] == '/' else p[i] == path[i];
    SameSlashes(path, p);
    WholeWalk(parts);
  }

  /** Every path has such parts. */
  lemma PartsOf(path: string) returns (parts: seq<string>)
    ensures Parts(path, parts)
  {
    var p := ToSlashes(path);
    parts := Split(p, '/');
    assert forall i | 0 <= i < |p| :: if Slash(path[i]) then p[i] == '/' else p[i] == path[i];
  }

  /** The form in `src/adr.rs` keeps every step up that it cannot take. */
  function KeptWalk(parts: seq<string>, n: nat): seq<string>
    requires n <= |parts|
  {
    if n == 0 then []
    else
      var at := KeptWalk(parts, n - 1);
      match parts[n - 1]
      case "" => at
      case "." => at
      case ".." => if |at| > 0 && at[|at| - 1] != ".." then at[..|at| - 1] else at + [".."]
      case name => at + [name]
  }

  lemma {:induction false} KeptWalkIsCollapse(parts: seq<string>, n: nat)
    requires n <= |parts|
    ensures AdrCollapse(parts, []) == AdrCollapse(parts[n..], KeptWalk(parts, n))
  {
    if n == 0 {
      assert parts[0..] == parts;
    } else {
      KeptWalkIsCollapse(parts, n - 1);
      assert parts[n - 1..][0] == parts[n - 1] && parts[n - 1..][1..] == parts[n..];
    }
  }

  lemma AdrNormalizedMeans(trimmed: string)
    ensures var parts := Split(trimmed, '/');
            var at := KeptWalk(parts, |parts|);
            AdrNormalized(trimmed) ==
            if |trimmed| == 0 then Err(EmptyOrNul)
            else if trimmed[0] == '/' then Err(NotRelative)
            else if |at| == 0 then Err(ResolvesToRoot)
            else if exists i :: 0 <= i < |at| && at[i] == ".." then Err(EscapesRoot)
            else Ok(Join(at, '/'))
  {
    var parts := Split(trimmed, '/');
    KeptWalkIsCollapse(parts, |parts|);
    assert parts[|parts|..] == [];
  }
}

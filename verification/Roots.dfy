/** The roots of a workspace, and how the roots declared in the repository join them. */
module Roots {
  import opened Wrappers
  import opened Sorting
  import opened Text
  import opened Slug

  datatype Path = Path(absolute: bool, parts: seq<string>)

  datatype RootType = CodeProject | Notes | General | Custom

  datatype RootConfig = RootConfig(
    path: Path, rootType: RootType, gitAware: bool, excludes: seq<string>,
    slugOverride: Option<string>, lspOnly: bool)

  /** The file system, the home directory and the Unicode tables, as they answer during one call. */
  datatype Env = Env(table: CharTable, home: Option<Path>, exists_: Path -> bool, canonicalize: Path -> Option<Path>)
  {
    function ExpandTilde(path: Path): Path {
      if !path.absolute && path.parts != [] && path.parts[0] == "~" && home.Some? then
        Path(home.value.absolute, home.value.parts + path.parts[1..])
      else path
    }

    function CanonicalOr(path: Path): Path {
      match canonicalize(path)
      case Some(c) => c
      case None => path
    }

    function Resolved(root: RootConfig): Path {
      ExpandTilde(root.path)
    }

    /** `path_to_slug`: from the last component, or the whole path when there is none. */
    function PathSlug(path: Path): string {
      if path.parts != [] && path.parts[|path.parts| - 1] != ".." then Sanitize(table, path.parts[|path.parts| - 1])
      else Sanitize(table, (if path.absolute then "/" else "") + Join(path.parts, '/'))
    }

    function SlugOf(root: RootConfig): string {
      if root.slugOverride.Some? && Sanitize(table, root.slugOverride.value) != ""
      then Sanitize(table, root.slugOverride.value)
      else PathSlug(Resolved(root))
    }

    function CanonicalOf(root: RootConfig): Path {
      CanonicalOr(Resolved(root))
    }
  }

  /** `starts_with` on components, and not the same. */
  predicate StrictlyInside(path: Path, primary: Path) {
    path.absolute == primary.absolute && primary.parts < path.parts
  }

  type Declaration = (string, Path)

  // ---- what a declaration asks for ----

  function JoinOnto(base: Path, path: Path): Path {
    if path.absolute then path else Path(base.absolute, base.parts + path.parts)
  }

  /** The root a declaration would add if nothing were in its way. */
  function Wanted(env: Env, repo: Path, d: Declaration): Option<RootConfig> {
    var slug := Sanitize(env.table, d.0);
    var resolved := JoinOnto(repo, env.ExpandTilde(d.1));
    if slug == "" || !env.exists_(resolved) then None
    else
      var canonical := env.CanonicalOr(resolved);
      Some(RootConfig(canonical, CodeProject, true, [], Some(slug), StrictlyInside(canonical, env.CanonicalOr(repo))))
  }

  function PathsTaken(env: Env, existing: seq<RootConfig>, added: seq<RootConfig>): set<Path> {
    (set r | r in existing :: env.CanonicalOf(r)) + (set r | r in added :: r.path)
  }

  function SlugsTaken(env: Env, existing: seq<RootConfig>, added: seq<RootConfig>): set<string> {
    (set r | r in existing :: env.SlugOf(r)) + (set r | r in added && r.slugOverride.Some? :: r.slugOverride.value)
  }

  /** Nothing among the roots so far has its path or the slug it was declared with. */
  predicate Free(env: Env, existing: seq<RootConfig>, added: seq<RootConfig>, root: RootConfig)
    requires root.slugOverride.Some?
  {
    root.path !in PathsTaken(env, existing, added) && root.slugOverride.value !in SlugsTaken(env, existing, added)
  }

  /** The added roots after one more candidate. */
  function Extended(env: Env, existing: seq<RootConfig>, added: seq<RootConfig>, wanted: Option<RootConfig>): seq<RootConfig>
    requires wanted.Some? ==> wanted.value.slugOverride.Some?
  {
    if wanted.Some? && Free(env, existing, added, wanted.value) then added + [wanted.value] else added
  }

  /** The roots that declarations add, first come first served. */
  function Added(env: Env, repo: Path, existing: seq<RootConfig>, declared: seq<Declaration>): seq<RootConfig> {
    if declared == [] then []
    else
      var n := |declared| - 1;
      Extended(env, existing, Added(env, repo, existing, declared[..n]), Wanted(env, repo, declared[n]))
  }

  class WorkspaceConfig {
    var roots: seq<RootConfig>

    constructor (initial: seq<RootConfig>)
      ensures roots == initial
    {
      roots := initial;
    }

    /** The source also remembers which slug took a path, for a log line. */
    method WithDeclaredRoots(env: Env, repo: Path, declared: seq<Declaration>)
      modifies this
      ensures roots == old(roots) + Added(env, repo, old(roots), declared)
    {
      var canonicalPrimary := env.CanonicalOr(repo);
      var seenPaths := set r | r in roots :: env.CanonicalOf(r);
      var seenSlugs := set r | r in roots :: env.SlugOf(r);
      ghost var before := roots;
      for i := 0 to |declared|
        invariant roots == before + Added(env, repo, before, declared[..i])
        invariant seenPaths == PathsTaken(env, before, Added(env, repo, before, declared[..i]))
        invariant seenSlugs == SlugsTaken(env, before, Added(env, repo, before, declared[..i]))
      {
        AddedSnoc(env, repo, before, declared, i);
        var wanted := Examine(env, repo, canonicalPrimary, declared[i]);
        seenPaths, seenSlugs := Admit(env, wanted, before, Added(env, repo, before, declared[..i]), seenPaths, seenSlugs);
      }
      assert declared[..|declared|] == declared;
    }

    /** The checks of one candidate against the roots so far, and its registration. */
    method Admit(env: Env, wanted: Option<RootConfig>, ghost before: seq<RootConfig>, ghost added: seq<RootConfig>,
                 seenPaths: set<Path>, seenSlugs: set<string>)
      returns (paths: set<Path>, slugs: set<string>)
      requires wanted.Some? ==> wanted.value.slugOverride.Some?
      requires roots == before + added
      requires seenPaths == PathsTaken(env, before, added) && seenSlugs == SlugsTaken(env, before, added)
      modifies this
      ensures roots == before + Extended(env, before, added, wanted)
      ensures paths == PathsTaken(env, before, Extended(env, before, added, wanted))
      ensures slugs == SlugsTaken(env, before, Extended(env, before, added, wanted))
    {
      paths, slugs := seenPaths, seenSlugs;
      if wanted.None? {
        return;
      }
      var root := wanted.value;
      if root.path in seenPaths {
        return;
      }
      if root.slugOverride.value in seenSlugs {
        return;
      }
      TakenByOneMore(env, before, added, root);
      paths := seenPaths + {root.path};
      slugs := seenSlugs + {root.slugOverride.value};
      roots := roots + [root];
    }
  }

  /** The checks on one declaration that do not look at the other roots. */
  method Examine(env: Env, repo: Path, canonicalPrimary: Path, d: Declaration) returns (wanted: Option<RootConfig>)
    requires canonicalPrimary == env.CanonicalOr(repo)
    ensures wanted == Wanted(env, repo, d)
    ensures wanted.Some? ==> wanted.value.slugOverride.Some?
  {
    var slug := Sanitize(env.table, d.0);
    if slug == "" {
      return None;
    }
    var expanded := env.ExpandTilde(d.1);
    var resolved := if expanded.absolute then expanded else Path(repo.absolute, repo.parts + expanded.parts);
    if !env.exists_(resolved) {
      return None;
    }
    var canonical := env.CanonicalOr(resolved);
    var isSubdir := canonical.absolute == canonicalPrimary.absolute && canonicalPrimary.parts <= canonical.parts
                    && canonical != canonicalPrimary;
    return Some(RootConfig(canonical, CodeProject, true, [], Some(slug), isSubdir));
  }

  lemma AddedSnoc(env: Env, repo: Path, existing: seq<RootConfig>, declared: seq<Declaration>, i: nat)
    requires i < |declared|
    ensures Wanted(env, repo, declared[i]).Some? ==> Wanted(env, repo, declared[i]).value.slugOverride.Some?
    ensures Added(env, repo, existing, declared[..i + 1]) ==
            Extended(env, existing, Added(env, repo, existing, declared[..i]), Wanted(env, repo, declared[i]))
  {
    assert declared[..i + 1][..i] == declared[..i];
  }

  lemma AddedSingle(env: Env, repo: Path, existing: seq<RootConfig>, d: Declaration)
    requires Wanted(env, repo, d).Some?
    ensures Wanted(env, repo, d).value.slugOverride.Some?
    ensures Added(env, repo, existing, [d]) == Extended(env, existing, [], Wanted(env, repo, d))
  {
    AddedSnoc(env, repo, existing, [d], 0);
    assert [d][..1] == [d] && [d][..0] == [];
  }

  lemma TakenByOneMore(env: Env, existing: seq<RootConfig>, added: seq<RootConfig>, root: RootConfig)
    requires root.slugOverride.Some?
    ensures PathsTaken(env, existing, added + [root]) == PathsTaken(env, existing, added) + {root.path}
    ensures SlugsTaken(env, existing, added + [root]) == SlugsTaken(env, existing, added) + {root.slugOverride.value}
  {
    assert forall r :: r in added + [root] <==> r in added || r == root;
  }

  // ---- what joins ----

  lemma {:induction false} AddedWanted(env: Env, repo: Path, existing: seq<RootConfig>, declared: seq<Declaration>)
    ensures forall root | root in Added(env, repo, existing, declared) ::
              root.slugOverride.Some? && exists d | d in declared :: Wanted(env, repo, d) == Some(root)
  {
    if declared != [] {
      var n := |declared| - 1;
      AddedWanted(env, repo, existing, declared[..n]);
      assert declared[n] in declared && forall d | d in declared[..n] :: d in declared;
    }
  }

  predicate Apart(env: Env, existing: seq<RootConfig>, added: seq<RootConfig>) {
    && (forall i, j | 0 <= i < j < |added| :: added[i].path != added[j].path && added[i].slugOverride != added[j].slugOverride)
    && (forall a, e | a in added && e in existing :: env.CanonicalOf(e) != a.path && Some(env.SlugOf(e)) != a.slugOverride)
  }

  /** An ordinary project root under a usable slug; left to the primary root's scan exactly when it
      lies strictly inside it. */
  predicate WellJoined(env: Env, repo: Path, root: RootConfig) {
    && (root.lspOnly <==> StrictlyInside(root.path, env.CanonicalOr(repo)))
    && root.rootType == CodeProject && root.gitAware && root.excludes == []
    && root.slugOverride.Some? && root.slugOverride.value != ""
  }

  /** The paths that join, and the slugs they were declared with, are new and distinct, and each root
      is marked for language servers only exactly when it lies strictly inside the primary root. */
  lemma {:induction false} AddedApart(env: Env, repo: Path, existing: seq<RootConfig>, declared: seq<Declaration>)
    ensures Apart(env, existing, Added(env, repo, existing, declared))
    ensures forall root | root in Added(env, repo, existing, declared) :: WellJoined(env, repo, root)
  {
    if declared != [] {
      var n := |declared| - 1;
      AddedApart(env, repo, existing, declared[..n]);
      var before := Added(env, repo, existing, declared[..n]);
      forall i | 0 <= i < |before| ensures before[i] in before {}
    }
  }

  /** Sanitising the declared key a second time changes nothing. */
  predicate StableKey(table: CharTable, key: string) {
    Sanitize(table, Sanitize(table, key)) == Sanitize(table, key)
  }

  predicate SlugsDistinct(env: Env, existing: seq<RootConfig>, added: seq<RootConfig>) {
    && (forall i, j | 0 <= i < j < |added| :: env.SlugOf(added[i]) != env.SlugOf(added[j]))
    && (forall a, e | a in added && e in existing :: env.SlugOf(a) != env.SlugOf(e))
  }

  lemma AddedSlug(env: Env, repo: Path, existing: seq<RootConfig>, declared: seq<Declaration>, root: RootConfig)
    requires root in Added(env, repo, existing, declared)
    requires forall d | d in declared :: StableKey(env.table, d.0)
    ensures root.slugOverride == Some(env.SlugOf(root))
  {
    AddedWanted(env, repo, existing, declared);
    var d :| d in declared && Wanted(env, repo, d) == Some(root);
    assert StableKey(env.table, d.0);
  }

  /** With stable keys, `slug()` of what joins is new and distinct. */
  lemma AddedSlugsDistinct(env: Env, repo: Path, existing: seq<RootConfig>, declared: seq<Declaration>)
    requires forall d | d in declared :: StableKey(env.table, d.0)
    ensures SlugsDistinct(env, existing, Added(env, repo, existing, declared))
  {
    var added := Added(env, repo, existing, declared);
    AddedApart(env, repo, existing, declared);
    forall root | root in added ensures root.slugOverride == Some(env.SlugOf(root)) {
      AddedSlug(env, repo, existing, declared, root);
    }
    forall i, j | 0 <= i < j < |added| ensures env.SlugOf(added[i]) != env.SlugOf(added[j]) {
      assert added[i] in added && added[j] in added;
    }
  }

  /** ASCII keys are stable. */
  lemma AsciiKeysStable(env: Env, declared: seq<Declaration>)
    requires env.table.AsciiCorrect() && forall d | d in declared :: IsAscii(d.0)
    ensures forall d | d in declared :: StableKey(env.table, d.0)
  {
    forall d | d in declared ensures StableKey(env.table, d.0) {
      AsciiSanitizeIdempotent(env.table, d.0);
    }
  }

  /** Every path exists and is canonical. */
  function PlainEnv(table: CharTable): Env {
    Env(table, None, (_: Path) => true, (p: Path) => Some(p))
  }

  function OverriddenRoot(path: Path, slug: string): RootConfig {
    RootConfig(path, CodeProject, true, [], Some(slug), false)
  }

  lemma DashesAreNoSlug(table: CharTable)
    ensures Sanitize(table, "") == "" && Sanitize(table, "-") == ""
  {
    SlugFormStable(table, "");
    assert Replaced(table, "-") == "-";
    SplitAtSeparator("", "", '-');
    assert "" + ['-'] + "" == "-" && [""] + Split("", '-') == ["", ""];
    FilterMembers(["", ""], NonEmpty);
    EmptyOrInhabited(Filter(["", ""], NonEmpty));
  }

  lemma TakenByOne(env: Env, root: RootConfig)
    ensures PathsTaken(env, [root], []) == {env.CanonicalOf(root)} && SlugsTaken(env, [root], []) == {env.SlugOf(root)}
  {
    assert root in [root];
  }

  lemma DashComponent(table: CharTable, first: string)
    ensures PlainEnv(table).PathSlug(Path(true, [first, "-"])) == Sanitize(table, "-")
  {
    var parts := [first, "-"];
    assert |parts| == 2 && parts[|parts| - 1] == "-" && |"-"| != |".."|;
  }

  /** The declared root and the root beside it, under an unstable key. */
  lemma UnstableSlugs(table: CharTable, key: string)
    requires !StableKey(table, key) && Sanitize(table, "") == "" && Sanitize(table, "-") == ""
    ensures var env, repo, slug := PlainEnv(table), Path(true, []), Sanitize(table, key);
            var other, d := OverriddenRoot(Path(true, ["a", "-"]), slug), (key, Path(true, ["b", "-"]));
            && Wanted(env, repo, d).Some?
            && env.SlugOf(Wanted(env, repo, d).value) == env.SlugOf(other)
            && Free(env, [other], [], Wanted(env, repo, d).value)
  {
    var env, repo, slug := PlainEnv(table), Path(true, []), Sanitize(table, key);
    var other, d := OverriddenRoot(Path(true, ["a", "-"]), slug), (key, Path(true, ["b", "-"]));
    DashComponent(table, "a");
    DashComponent(table, "b");
    assert ["a", "-"][0] != ["b", "-"][0];
    assert env.SlugOf(other) == Sanitize(table, slug) != slug;
    var root := Wanted(env, repo, d).value;
    assert env.SlugOf(root) == Sanitize(table, slug);
    TakenByOne(env, other);
  }

  /** An unstable key declared beside a root that carries its sanitised form as an override: both
      end up with the slug of that form, which the check for the form itself does not see. */
  lemma UnstableKeyCollides(table: CharTable, key: string)
    requires !StableKey(table, key)
    ensures var env, repo, slug := PlainEnv(table), Path(true, []), Sanitize(table, key);
            var existing, d := [OverriddenRoot(Path(true, ["a", "-"]), slug)], (key, Path(true, ["b", "-"]));
            !SlugsDistinct(env, existing, Added(env, repo, existing, [d]))
  {
    var env, repo, slug := PlainEnv(table), Path(true, []), Sanitize(table, key);
    var existing, d := [OverriddenRoot(Path(true, ["a", "-"]), slug)], (key, Path(true, ["b", "-"]));
    DashesAreNoSlug(table);
    UnstableSlugs(table, key);
    var root := Wanted(env, repo, d).value;
    AddedSingle(env, repo, existing, d);
    assert [] + [root] == [root];
    assert root in [root] && existing[0] in existing;
  }

  /** Exactly the stable keys can be declared anywhere without doubling a slug. */
  lemma SlugsDistinctExactly(table: CharTable, key: string)
    ensures StableKey(table, key) <==>
            forall env: Env, repo, existing, path | env.table == table ::
              SlugsDistinct(env, existing, Added(env, repo, existing, [(key, path)]))
  {
    if StableKey(table, key) {
      forall env: Env, repo, existing, path | env.table == table
        ensures SlugsDistinct(env, existing, Added(env, repo, existing, [(key, path)]))
      {
        AddedSlugsDistinct(env, repo, existing, [(key, path)]);
      }
    } else {
      UnstableKeyCollides(table, key);
    }
  }

  /** A declaration fails to join only when it wants nothing or something already has its path or
      its slug. */
  lemma {:induction false} LeftOutForAReason(env: Env, repo: Path, existing: seq<RootConfig>, declared: seq<Declaration>, d: Declaration)
    requires d in declared && Wanted(env, repo, d).Some?
    ensures var root := Wanted(env, repo, d).value;
            var added := Added(env, repo, existing, declared);
            root in added || root.path in PathsTaken(env, existing, added) || root.slugOverride.value in SlugsTaken(env, existing, added)
  {
    var n := |declared| - 1;
    var before := Added(env, repo, existing, declared[..n]);
    assert declared == declared[..n] + [declared[n]];
    if declared[n] != d {
      LeftOutForAReason(env, repo, existing, declared[..n], d);
    }
    assert before <= Added(env, repo, existing, declared);
    assert forall r | r in before :: r in Added(env, repo, existing, declared);
  }
}

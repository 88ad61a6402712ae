/** Which roots the declarations add, said of the declarations and the file system alone. */
module RootsMeaning {
  import opened Wrappers
  import opened Text
  import opened Slug
  import opened Roots

  /** A leading `~` stands for the home directory, if there is one. */
  function Expanded(env: Env, path: Path): Path {
    match env.home
    case None => path
    case Some(home) =>
      if path.parts != [] && path.parts[0] == "~" && !path.absolute then Path(home.absolute, home.parts + path.parts[1..])
      else path
  }

  /** Where a declaration points: an absolute path as it stands, any other one from the repository. */
  function Target(env: Env, repo: Path, d: Declaration): Path {
    var path := Expanded(env, d.1);
    if path.absolute then path else Path(repo.absolute, repo.parts + path.parts)
  }

  /** The canonical form of a path, or the path where the file system gives none. */
  predicate CanonicalForm(env: Env, path: Path, c: Path) {
    match env.canonicalize(path)
    case Some(canonical) => c == canonical
    case None => c == path
  }

  /** `path` begins with the components of `primary` and goes on. */
  ghost predicate Below(path: Path, primary: Path) {
    path.absolute == primary.absolute && exists rest: seq<string> :: rest != [] && path.parts == primary.parts + rest
  }

  /** The root that a declaration adds: the canonical form of an existing target, as an ordinary
      project under the sanitised key, for language servers only exactly below the primary root. */
  ghost predicate Declares(env: Env, repo: Path, d: Declaration, root: RootConfig) {
    && env.exists_(Target(env, repo, d)) && CanonicalForm(env, Target(env, repo, d), root.path)
    && root.slugOverride == Some(Sanitize(env.table, d.0)) && Sanitize(env.table, d.0) != ""
    && root.rootType == CodeProject && root.gitAware && root.excludes == []
    && exists primary :: CanonicalForm(env, repo, primary) && (root.lspOnly <==> Below(root.path, primary))
  }

  lemma BelowIsInside(path: Path, primary: Path)
    ensures Below(path, primary) <==> StrictlyInside(path, primary)
  {
    if StrictlyInside(path, primary) {
      var rest := path.parts[|primary.parts|..];
      assert path.parts == primary.parts + rest;
    }
  }

  lemma WantedDeclares(env: Env, repo: Path, d: Declaration)
    ensures forall root :: Wanted(env, repo, d) == Some(root) <==> Declares(env, repo, d, root)
  {
    assert env.ExpandTilde(d.1) == Expanded(env, d.1);
    forall root ensures Wanted(env, repo, d) == Some(root) <==> Declares(env, repo, d, root) {
      var primary := env.CanonicalOr(repo);
      assert CanonicalForm(env, repo, primary);
      BelowIsInside(root.path, primary);
    }
  }

  // ---- slugs ----

  function PathSlugOf(table: CharTable, path: Path): string {
    if path.parts == [] || path.parts[|path.parts| - 1] == ".." then
      Sanitize(table, if path.absolute then "/" + Join(path.parts, '/') else Join(path.parts, '/'))
    else Sanitize(table, path.parts[|path.parts| - 1])
  }

  lemma PathSlugMeans(env: Env, path: Path)
    ensures env.PathSlug(path) == PathSlugOf(env.table, path)
  {
    assert "" + Join(path.parts, '/') == Join(path.parts, '/');
  }

  /** The slug of a root: its sanitised override; or, if that leaves nothing, its sanitised last
      component; or, where there is none, its whole sanitised path. */
  lemma SlugMeans(env: Env, root: RootConfig)
    ensures var slug := match root.slugOverride case Some(given) => Sanitize(env.table, given) case None => "";
            env.SlugOf(root) == if slug != "" then slug else PathSlugOf(env.table, Expanded(env, root.path))
  {
    PathSlugMeans(env, Expanded(env, root.path));
  }

  // ---- what joins ----

  /** A root, old or new, already has this path. */
  ghost predicate PathTaken(env: Env, existing: seq<RootConfig>, added: seq<RootConfig>, path: Path) {
    || (exists r | r in existing :: CanonicalForm(env, Expanded(env, r.path), path))
    || (exists r | r in added :: r.path == path)
  }

  /** A root, old or new, already has this slug. */
  ghost predicate SlugTaken(env: Env, existing: seq<RootConfig>, added: seq<RootConfig>, slug: string) {
    || (exists r | r in existing :: env.SlugOf(r) == slug)
    || (exists r | r in added :: r.slugOverride == Some(slug))
  }

  lemma TakenMeans(env: Env, existing: seq<RootConfig>, added: seq<RootConfig>, path: Path, slug: string)
    ensures path in PathsTaken(env, existing, added) <==> PathTaken(env, existing, added, path)
    ensures slug in SlugsTaken(env, existing, added) <==> SlugTaken(env, existing, added, slug)
  {
    forall r ensures env.CanonicalOf(r) == path <==> CanonicalForm(env, Expanded(env, r.path), path) {
    }
  }

  /** Every root that joins is the one a declaration declares. */
  lemma AddedDeclared(env: Env, repo: Path, existing: seq<RootConfig>, declared: seq<Declaration>)
    ensures forall root | root in Added(env, repo, existing, declared) ::
              exists d | d in declared :: Declares(env, repo, d, root)
  {
    AddedWanted(env, repo, existing, declared);
    forall root | root in Added(env, repo, existing, declared) ensures exists d | d in declared :: Declares(env, repo, d, root) {
      var d :| d in declared && Wanted(env, repo, d) == Some(root);
      WantedDeclares(env, repo, d);
    }
  }

  /** One declaration after another: it adds the root it declares exactly when neither its path nor
      its slug is taken by a root before it, and nothing otherwise. */
  lemma FirstComeFirstServed(env: Env, repo: Path, existing: seq<RootConfig>, declared: seq<Declaration>, i: nat)
    requires i < |declared|
    ensures var before, after := Added(env, repo, existing, declared[..i]), Added(env, repo, existing, declared[..i + 1]);
            && (forall root | Declares(env, repo, declared[i], root) ::
                  after == if PathTaken(env, existing, before, root.path)
                              || SlugTaken(env, existing, before, Sanitize(env.table, declared[i].0))
                           then before else before + [root])
            && ((forall root :: !Declares(env, repo, declared[i], root)) ==> after == before)
  {
    AddedSnoc(env, repo, existing, declared, i);
    WantedDeclares(env, repo, declared[i]);
    var before := Added(env, repo, existing, declared[..i]);
    forall root | Declares(env, repo, declared[i], root)
      ensures Wanted(env, repo, declared[i]) == Some(root)
      ensures root.path in PathsTaken(env, existing, before) <==> PathTaken(env, existing, before, root.path)
      ensures Sanitize(env.table, declared[i].0) in SlugsTaken(env, existing, before) <==>
              SlugTaken(env, existing, before, Sanitize(env.table, declared[i].0))
    {
      TakenMeans(env, existing, before, root.path, Sanitize(env.table, declared[i].0));
    }
    if Wanted(env, repo, declared[i]).Some? {
      assert Declares(env, repo, declared[i], Wanted(env, repo, declared[i]).value);
    }
  }
}

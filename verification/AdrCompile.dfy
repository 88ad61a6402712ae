/** Compiling architecture decision records into manifests, and checking that the compiled files
    are up to date: one routine in two modes. */
module AdrCompile {
  import opened Wrappers
  import opened Sorting
  import opened Text

  /** A manifest; `body` stands for everything the front matter gives besides the id. */
  datatype Manifest = Manifest(id: string, source: string, body: string)

  datatype FrontMatter = FrontMatter(id: string, body: string)

  datatype ParsedAdr = ParsedAdr(fileName: string, manifest: Manifest)

  datatype AdrError = Malformed(fileName: string) | IdMismatch(fileName: string, id: string)

  /** The formats: YAML front matter, JSON manifests, the index page, and the repository-relative
      name of a decision record. */
  datatype Formats = Formats(
    decode: string -> Option<FrontMatter>,
    renderManifest: Manifest -> string,
    renderReadme: seq<ParsedAdr> -> string,
    sourceOf: string -> string)

  const README := "README.md"

  // ---- file names ----

  /** `path.extension() == Some(extension)`: a leading dot alone does not start an extension. */
  predicate HasExtension(name: string, extension: string) {
    |name| > |extension| + 1 && name[|name| - |extension| - 1..] == ['.'] + extension
  }

  function Stem(name: string): string
    requires HasExtension(name, "md")
  {
    name[..|name| - 3]
  }

  function ManifestName(id: string): string {
    id + ".json"
  }

  lemma StemInjective(a: string, b: string)
    requires HasExtension(a, "md") && HasExtension(b, "md") && Stem(a) == Stem(b)
    ensures a == b
  {
    assert a == Stem(a) + a[|a| - 3..] && b == Stem(b) + b[|b| - 3..];
  }

  lemma ManifestNameShape(id: string)
    requires id != ""
    ensures HasExtension(ManifestName(id), "json")
    ensures ManifestName(id)[..|ManifestName(id)| - 5] == id
  {
    assert ManifestName(id)[|id|..] == ".json";
  }

  // ---- loading ----

  type Directory = map<string, string>

  predicate IsAdrName(name: string) {
    HasExtension(name, "md") && name != README
  }

  ghost function AdrNames(dir: Directory): (names: seq<string>)
    ensures forall name :: name in names <==> name in dir && IsAdrName(name)
    ensures Distinct(names)
  {
    StrLeIsOrder();
    var s := set name | name in dir && IsAdrName(name);
    AscendingIs(s, StrLe);
    AscendingDistinct(s, StrLe);
    Ascending(s, StrLe)
  }

  function ParseAdr(f: Formats, name: string, raw: string): Result<ParsedAdr, AdrError>
    requires HasExtension(name, "md")
  {
    match f.decode(raw)
    case None => Err(Malformed(name))
    case Some(front) =>
      if front.id != Stem(name) then Err(IdMismatch(name, front.id))
      else Ok(ParsedAdr(name, Manifest(front.id, f.sourceOf(name), front.body)))
  }

  /** The records in name order, or the first one that does not parse. */
  function ParseAll(f: Formats, dir: Directory, names: seq<string>): (r: Result<seq<ParsedAdr>, AdrError>)
    requires forall name | name in names :: name in dir && HasExtension(name, "md")
    ensures r.Ok? ==> |r.value| == |names|
    ensures r.Ok? ==> forall i | 0 <= i < |names| :: ParseAdr(f, names[i], dir[names[i]]) == Ok(r.value[i])
  {
    if names == [] then Ok([])
    else
      var n := |names| - 1;
      match ParseAll(f, dir, names[..n])
      case Err(e) => Err(e)
      case Ok(adrs) =>
        assert names[n] in names;
        match ParseAdr(f, names[n], dir[names[n]])
        case Err(e) => Err(e)
        case Ok(adr) => Ok(adrs + [adr])
  }

  ghost function LoadAdrs(f: Formats, dir: Directory): Result<seq<ParsedAdr>, AdrError> {
    ParseAll(f, dir, AdrNames(dir))
  }

  /** What loading guarantees: one record per file, and ids that cannot collide. */
  ghost predicate WellLoaded(adrs: seq<ParsedAdr>) {
    && (forall i | 0 <= i < |adrs| ::
          IsAdrName(adrs[i].fileName) && adrs[i].manifest.id == Stem(adrs[i].fileName) && adrs[i].manifest.id != "")
    && (forall i, j | 0 <= i < j < |adrs| :: adrs[i].manifest.id != adrs[j].manifest.id)
  }

  lemma LoadedWell(f: Formats, dir: Directory)
    requires LoadAdrs(f, dir).Ok?
    ensures WellLoaded(LoadAdrs(f, dir).value)
  {
    var names := AdrNames(dir);
    var adrs := LoadAdrs(f, dir).value;
    forall i | 0 <= i < |adrs|
      ensures IsAdrName(adrs[i].fileName) && adrs[i].manifest.id == Stem(adrs[i].fileName) && adrs[i].manifest.id != ""
      ensures adrs[i].fileName == names[i]
    {
      assert names[i] in names;
      assert ParseAdr(f, names[i], dir[names[i]]) == Ok(adrs[i]);
    }
    forall i, j | 0 <= i < j < |adrs| ensures adrs[i].manifest.id != adrs[j].manifest.id {
      if adrs[i].manifest.id == adrs[j].manifest.id {
        StemInjective(names[i], names[j]);
      }
    }
  }

  // ---- what the files should be ----

  /** The manifests of these records, by file name. */
  function Expected(f: Formats, adrs: seq<ParsedAdr>): Directory {
    if adrs == [] then map[]
    else
      var n := |adrs| - 1;
      Expected(f, adrs[..n])[ManifestName(adrs[n].manifest.id) := f.renderManifest(adrs[n].manifest)]
  }

  lemma {:induction false} ExpectedKeys(f: Formats, adrs: seq<ParsedAdr>)
    ensures forall name :: name in Expected(f, adrs) <==> exists a | a in adrs :: name == ManifestName(a.manifest.id)
  {
    if adrs != [] {
      var n := |adrs| - 1;
      ExpectedKeys(f, adrs[..n]);
      assert adrs == adrs[..n] + [adrs[n]];
    }
  }

  lemma WellLoadedPrefix(adrs: seq<ParsedAdr>, n: nat)
    requires WellLoaded(adrs) && n <= |adrs|
    ensures WellLoaded(adrs[..n])
  {
  }

  lemma NewManifestName(f: Formats, adrs: seq<ParsedAdr>, n: nat)
    requires WellLoaded(adrs) && n < |adrs|
    ensures ManifestName(adrs[n].manifest.id) !in Expected(f, adrs[..n])
  {
    ExpectedKeys(f, adrs[..n]);
    var id := adrs[n].manifest.id;
    ManifestNameShape(id);
    forall a | a in adrs[..n] ensures ManifestName(a.manifest.id) != ManifestName(id) {
      var i :| 0 <= i < n && adrs[i] == a;
      ManifestNameShape(adrs[i].manifest.id);
    }
  }

  /** Exactly one manifest per record, holding that record; each name is a JSON file's. */
  lemma {:induction false} OneManifestPerAdr(f: Formats, adrs: seq<ParsedAdr>)
    requires WellLoaded(adrs)
    ensures |Expected(f, adrs)| == |adrs|
    ensures forall name | name in Expected(f, adrs) :: HasExtension(name, "json")
    ensures forall i | 0 <= i < |adrs| ::
              && ManifestName(adrs[i].manifest.id) in Expected(f, adrs)
              && Expected(f, adrs)[ManifestName(adrs[i].manifest.id)] == f.renderManifest(adrs[i].manifest)
  {
    if adrs != [] {
      var n := |adrs| - 1;
      WellLoadedPrefix(adrs, n);
      OneManifestPerAdr(f, adrs[..n]);
      NewManifestName(f, adrs, n);
      ManifestNameShape(adrs[n].manifest.id);
      var before := Expected(f, adrs[..n]);
      assert Expected(f, adrs).Keys == before.Keys + {ManifestName(adrs[n].manifest.id)};
      assert |Expected(f, adrs).Keys| == |before.Keys| + 1;
      forall i | 0 <= i < |adrs| ensures
        && ManifestName(adrs[i].manifest.id) in Expected(f, adrs)
        && Expected(f, adrs)[ManifestName(adrs[i].manifest.id)] == f.renderManifest(adrs[i].manifest)
      {
        if i < n {
          assert adrs[..n][i] == adrs[i];
          assert ManifestName(adrs[i].manifest.id) in before;
        }
      }
    }
  }

  function Unexpected(names: set<string>, expected: set<string>): set<string> {
    set name | name in names && HasExtension(name, "json") && name !in expected
  }

  function Stale(f: Formats, adrs: seq<ParsedAdr>, manifests: Directory): set<string> {
    Unexpected(manifests.Keys, Expected(f, adrs).Keys)
  }

  // ---- write mode ----

  /** The manifest directory after a write: the expected manifests, and every file that is not one. */
  function Written(f: Formats, adrs: seq<ParsedAdr>, manifests: Directory): Directory {
    (manifests + Expected(f, adrs)) - Stale(f, adrs, manifests)
  }

  function WrittenReadme(f: Formats, adrs: seq<ParsedAdr>, adrDir: Directory): Directory {
    if README in adrDir then adrDir[README := f.renderReadme(adrs)] else adrDir
  }

  /** Writing first and sweeping afterwards removes just the files that were stale before. */
  lemma SweepIsWrite(f: Formats, adrs: seq<ParsedAdr>, manifests: Directory)
    ensures Unexpected((manifests + Expected(f, adrs)).Keys, Expected(f, adrs).Keys) == Stale(f, adrs, manifests)
  {
  }

  // ---- check mode ----

  datatype Drift = ManifestDrift(name: string) | MissingManifest(name: string) | StaleManifest(name: string) | ReadmeDrift

  function RecordDrift(f: Formats, m: Manifest, manifests: Directory): seq<Drift> {
    var name := ManifestName(m.id);
    if name !in manifests then [MissingManifest(name)]
    else if manifests[name] != f.renderManifest(m) then [ManifestDrift(name)]
    else []
  }

  function ManifestDrifts(f: Formats, adrs: seq<ParsedAdr>, manifests: Directory): seq<Drift> {
    if adrs == [] then []
    else
      var n := |adrs| - 1;
      ManifestDrifts(f, adrs[..n], manifests) + RecordDrift(f, adrs[n].manifest, manifests)
  }

  function ReadmeDrifts(f: Formats, adrs: seq<ParsedAdr>, adrDir: Directory): seq<Drift> {
    if README in adrDir && adrDir[README] != f.renderReadme(adrs) then [ReadmeDrift] else []
  }

  /** Directory listings come in no particular order. */
  predicate Lists(names: seq<string>, s: set<string>) {
    multiset(names) == multiset(s)
  }

  lemma OneMoreFile(listing: seq<string>, entries: set<string>, rest: set<string>, name: string, expected: set<string>)
    requires name in rest && rest <= entries && Lists(listing, Unexpected(entries - rest, expected))
    ensures var before, after := Unexpected(entries - rest, expected), Unexpected(entries - (rest - {name}), expected);
            if !HasExtension(name, "json") || name in expected then after == before
            else after == before + {name} && Lists(listing + [name], after)
  {
    var before, after := Unexpected(entries - rest, expected), Unexpected(entries - (rest - {name}), expected);
    if !HasExtension(name, "json") || name in expected {
      assert after == before;
    } else {
      assert after == before + {name} && name !in before;
      assert multiset(after) == multiset(before) + multiset{name};
    }
  }

  function StaleDrifts(names: seq<string>): seq<Drift> {
    Map(names, (name: string) => StaleManifest(name))
  }

  /** A possible outcome of a check. */
  ghost predicate IsDrift(f: Formats, adrs: seq<ParsedAdr>, adrDir: Directory, manifests: Directory, drift: seq<Drift>) {
    exists listing :: Lists(listing, Stale(f, adrs, manifests)) &&
      drift == ManifestDrifts(f, adrs, manifests) + StaleDrifts(listing) + ReadmeDrifts(f, adrs, adrDir)
  }

  lemma {:induction false} NoManifestDrift(f: Formats, adrs: seq<ParsedAdr>, manifests: Directory)
    ensures ManifestDrifts(f, adrs, manifests) == [] <==>
            forall i | 0 <= i < |adrs| ::
              && ManifestName(adrs[i].manifest.id) in manifests
              && manifests[ManifestName(adrs[i].manifest.id)] == f.renderManifest(adrs[i].manifest)
  {
    if adrs != [] {
      var n := |adrs| - 1;
      NoManifestDrift(f, adrs[..n], manifests);
      assert forall i | 0 <= i < n :: adrs[..n][i] == adrs[i];
    }
  }

  lemma ExpectedValues(f: Formats, adrs: seq<ParsedAdr>, manifests: Directory)
    requires WellLoaded(adrs)
    ensures ManifestDrifts(f, adrs, manifests) == [] <==>
            forall name | name in Expected(f, adrs) :: name in manifests && manifests[name] == Expected(f, adrs)[name]
  {
    NoManifestDrift(f, adrs, manifests);
    OneManifestPerAdr(f, adrs);
    ExpectedKeys(f, adrs);
    if ManifestDrifts(f, adrs, manifests) == [] {
      forall name | name in Expected(f, adrs) ensures name in manifests && manifests[name] == Expected(f, adrs)[name] {
        var a :| a in adrs && name == ManifestName(a.manifest.id);
        var i :| 0 <= i < |adrs| && adrs[i] == a;
      }
    }
  }

  lemma StaleListing(listing: seq<string>, s: set<string>)
    requires Lists(listing, s)
    ensures StaleDrifts(listing) == [] <==> s == {}
  {
    assert |listing| == |multiset(listing)| == |multiset(s)| == |s|;
  }

  /** The checker finds nothing exactly when the generator would change no file. */
  lemma CheckCleanIffFixpoint(f: Formats, adrs: seq<ParsedAdr>, adrDir: Directory, manifests: Directory, drift: seq<Drift>)
    requires WellLoaded(adrs) && IsDrift(f, adrs, adrDir, manifests, drift)
    ensures drift == [] <==> Written(f, adrs, manifests) == manifests && WrittenReadme(f, adrs, adrDir) == adrDir
  {
    var listing :| Lists(listing, Stale(f, adrs, manifests)) &&
      drift == ManifestDrifts(f, adrs, manifests) + StaleDrifts(listing) + ReadmeDrifts(f, adrs, adrDir);
    StaleListing(listing, Stale(f, adrs, manifests));
    ExpectedValues(f, adrs, manifests);
    CleanManifests(f, adrs, manifests);
    assert ReadmeDrifts(f, adrs, adrDir) == [] <==> WrittenReadme(f, adrs, adrDir) == adrDir;
  }

  lemma CleanManifests(f: Formats, adrs: seq<ParsedAdr>, manifests: Directory)
    ensures Written(f, adrs, manifests) == manifests <==>
            && Stale(f, adrs, manifests) == {}
            && forall name | name in Expected(f, adrs) :: name in manifests && manifests[name] == Expected(f, adrs)[name]
  {
    var written := Written(f, adrs, manifests);
    assert forall name | name in Expected(f, adrs) :: name in written && written[name] == Expected(f, adrs)[name];
    assert forall name | name in Stale(f, adrs, manifests) :: name in manifests && name !in written;
  }

  lemma LoadIgnoresReadme(f: Formats, adrs: seq<ParsedAdr>, adrDir: Directory)
    ensures LoadAdrs(f, WrittenReadme(f, adrs, adrDir)) == LoadAdrs(f, adrDir)
  {
    var after := WrittenReadme(f, adrs, adrDir);
    assert (set name | name in after && IsAdrName(name)) == (set name | name in adrDir && IsAdrName(name));
    assert AdrNames(after) == AdrNames(adrDir);
    ParseSameContents(f, adrDir, after, AdrNames(adrDir));
  }

  lemma {:induction false} ParseSameContents(f: Formats, a: Directory, b: Directory, names: seq<string>)
    requires forall name | name in names :: name in a && name in b && a[name] == b[name] && HasExtension(name, "md")
    ensures ParseAll(f, a, names) == ParseAll(f, b, names)
  {
    if names != [] {
      var n := |names| - 1;
      assert names[n] in names;
      ParseSameContents(f, a, b, names[..n]);
    }
  }

  /** After a write, from whatever state: the records load as before, a check finds nothing, and a
      second write would remove nothing and leave every file alone. */
  lemma WriteReachesFixpoint(f: Formats, adrDir: Directory, manifests: Directory, drift: seq<Drift>)
    requires LoadAdrs(f, adrDir).Ok?
    requires var adrs := LoadAdrs(f, adrDir).value;
             IsDrift(f, adrs, WrittenReadme(f, adrs, adrDir), Written(f, adrs, manifests), drift)
    ensures var adrs := LoadAdrs(f, adrDir).value;
            var adrDir', manifests' := WrittenReadme(f, adrs, adrDir), Written(f, adrs, manifests);
            && LoadAdrs(f, adrDir') == Ok(adrs)
            && drift == []
            && Stale(f, adrs, manifests') == {}
            && Written(f, adrs, manifests') == manifests' && WrittenReadme(f, adrs, adrDir') == adrDir'
  {
    var adrs := LoadAdrs(f, adrDir).value;
    LoadedWell(f, adrDir);
    LoadIgnoresReadme(f, adrs, adrDir);
    var adrDir', manifests' := WrittenReadme(f, adrs, adrDir), Written(f, adrs, manifests);
    assert Stale(f, adrs, manifests') == {};
    CleanManifests(f, adrs, manifests');
    CheckCleanIffFixpoint(f, adrs, adrDir', manifests', drift);
  }

  /** After a write the JSON files are exactly one per record, each holding its record, and every
      other file of the directory is what it was. */
  lemma WrittenExactly(f: Formats, adrs: seq<ParsedAdr>, manifests: Directory)
    requires WellLoaded(adrs)
    ensures var written := Written(f, adrs, manifests);
            && (set name | name in written && HasExtension(name, "json")) == Expected(f, adrs).Keys
            && |set name | name in written && HasExtension(name, "json")| == |adrs|
            && (forall i | 0 <= i < |adrs| ::
                  && ManifestName(adrs[i].manifest.id) in written
                  && written[ManifestName(adrs[i].manifest.id)] == f.renderManifest(adrs[i].manifest))
            && (forall name | !HasExtension(name, "json") ::
                  (name in written <==> name in manifests) && (name in written ==> written[name] == manifests[name]))
  {
    OneManifestPerAdr(f, adrs);
    assert |Expected(f, adrs).Keys| == |adrs|;
    assert (set name | name in Written(f, adrs, manifests) && HasExtension(name, "json")) == Expected(f, adrs).Keys;
  }

  // ---- the routine ----

  datatype CompileReport = CompileReport(
    check: bool, manifests: seq<string>, removedStale: seq<string>, readmeUpdated: bool, drift: seq<Drift>)

  function Names(adrs: seq<ParsedAdr>): seq<string> {
    Map(adrs, (a: ParsedAdr) => ManifestName(a.manifest.id))
  }

  lemma OneMoreRecord(f: Formats, adrs: seq<ParsedAdr>, i: nat, manifests: Directory)
    requires i < |adrs|
    ensures var name, rendered := ManifestName(adrs[i].manifest.id), f.renderManifest(adrs[i].manifest);
            && Names(adrs[..i + 1]) == Names(adrs[..i]) + [name]
            && manifests + Expected(f, adrs[..i + 1]) == (manifests + Expected(f, adrs[..i]))[name := rendered]
            && ManifestDrifts(f, adrs[..i + 1], manifests) ==
               ManifestDrifts(f, adrs[..i], manifests) + RecordDrift(f, adrs[i].manifest, manifests)
  {
    assert adrs[..i + 1] == adrs[..i] + [adrs[i]] && adrs[..i + 1][..i] == adrs[..i];
  }

  /** After these records, with `before` the directory at the start and `after` the directory now. */
  ghost predicate RecordsDone(f: Formats, adrs: seq<ParsedAdr>, check: bool, before: Option<Directory>,
                              after: Option<Directory>, names: seq<string>, drift: seq<Drift>) {
    && names == Names(adrs)
    && (check ==> after == before && drift == ManifestDrifts(f, adrs, Files(before)))
    && (!check ==> drift == [] && before.Some? && after.Some? && after.value == before.value + Expected(f, adrs))
  }

  lemma OneMoreDone(f: Formats, adrs: seq<ParsedAdr>, i: nat, check: bool, before: Option<Directory>,
                    now: Option<Directory>, names: seq<string>, drift: seq<Drift>)
    requires i < |adrs| && RecordsDone(f, adrs[..i], check, before, now, names, drift)
    ensures var m := adrs[i].manifest;
            var after := if check then now else Some(now.value[ManifestName(m.id) := f.renderManifest(m)]);
            RecordsDone(f, adrs[..i + 1], check, before, after, names + [ManifestName(m.id)],
                        drift + if check then RecordDrift(f, m, Files(now)) else [])
  {
    OneMoreRecord(f, adrs, i, Files(before));
  }

  /** After the walk over `seen`: the stale files are listed, and removed in write mode. */
  ghost predicate Swept(files: Directory, now: Directory, seen: set<string>, expected: set<string>, check: bool, listing: seq<string>) {
    && Lists(listing, Unexpected(seen, expected))
    && now == if check then files else files - Unexpected(seen, expected)
  }

  lemma SweptOneMore(files: Directory, now: Directory, entries: set<string>, rest: set<string>, name: string,
                     expected: set<string>, check: bool, listing: seq<string>)
    requires name in rest && rest <= entries && Swept(files, now, entries - rest, expected, check, listing)
    ensures var stale := HasExtension(name, "json") && name !in expected;
            Swept(files, if stale && !check then now - {name} else now, entries - (rest - {name}), expected, check,
                  if stale then listing + [name] else listing)
  {
    OneMoreFile(listing, entries, rest, name, expected);
  }

  function Files(manifests: Option<Directory>): Directory {
    match manifests
    case Some(files) => files
    case None => map[]
  }

  /** The directory of decision records and the directory of manifests, if there is one. Reports
      name manifests by their file names. */
  class Workspace {
    var adrDir: Directory
    var manifests: Option<Directory>

    constructor (adrDir: Directory, manifests: Option<Directory>)
      ensures this.adrDir == adrDir && this.manifests == manifests
    {
      this.adrDir := adrDir;
      this.manifests := manifests;
    }

    method LoadRecords(f: Formats) returns (r: Result<seq<ParsedAdr>, AdrError>)
      ensures r == LoadAdrs(f, adrDir)
    {
      StrLeIsOrder();
      var files := AscendingList((set name | name in adrDir && IsAdrName(name)), StrLe);
      assert files == AdrNames(adrDir);
      var adrs: seq<ParsedAdr> := [];
      for i := 0 to |files|
        invariant ParseAll(f, adrDir, files[..i]) == Ok(adrs)
      {
        assert files[i] in files;
        var parsed := ParseAdr(f, files[i], adrDir[files[i]]);
        ParseSnoc(f, adrDir, files, i);
        if parsed.Err? {
          ParseFails(f, adrDir, files, i + 1);
          return Err(parsed.error);
        }
        adrs := adrs + [parsed.value];
      }
      assert files[..|files|] == files;
      return Ok(adrs);
    }

    /** The loop over the records, in either mode. */
    method EachRecord(f: Formats, adrs: seq<ParsedAdr>, check: bool) returns (names: seq<string>, drift: seq<Drift>)
      requires !check ==> manifests.Some?
      modifies this`manifests
      ensures RecordsDone(f, adrs, check, old(manifests), manifests, names, drift)
    {
      names, drift := [], [];
      for i := 0 to |adrs|
        invariant !check ==> manifests.Some?
        invariant RecordsDone(f, adrs[..i], check, old(manifests), manifests, names, drift)
      {
        ghost var before := manifests;
        var found := OneRecord(f, adrs[i].manifest, check);
        OneMoreDone(f, adrs, i, check, old(manifests), before, names, drift);
        names := names + [ManifestName(adrs[i].manifest.id)];
        drift := drift + found;
      }
      assert adrs[..|adrs|] == adrs;
    }

    /** One record: compare with its manifest file, or write it. */
    method OneRecord(f: Formats, m: Manifest, check: bool) returns (drift: seq<Drift>)
      requires !check ==> manifests.Some?
      modifies this`manifests
      ensures check ==> manifests == old(manifests) && drift == RecordDrift(f, m, Files(manifests))
      ensures !check ==> drift == [] && manifests == Some(old(manifests).value[ManifestName(m.id) := f.renderManifest(m)])
    {
      drift := [];
      var name := ManifestName(m.id);
      var rendered := f.renderManifest(m);
      if check {
        if name !in Files(manifests) {
          drift := [MissingManifest(name)];
        } else if Files(manifests)[name] != rendered {
          drift := [ManifestDrift(name)];
        }
      } else {
        manifests := Some(manifests.value[name := rendered]);
      }
    }

    /** The walk over the manifest directory, in whatever order it lists its files. */
    method EachFile(expected: set<string>, check: bool) returns (listing: seq<string>)
      modifies this`manifests
      ensures Lists(listing, Unexpected(Files(old(manifests)).Keys, expected))
      ensures check ==> manifests == old(manifests)
      ensures !check ==> manifests.Some? == old(manifests).Some? &&
                         Files(manifests) == Files(old(manifests)) - Unexpected(Files(old(manifests)).Keys, expected)
    {
      listing := [];
      if manifests.None? {
        assert Unexpected({}, expected) == {};
        return;
      }
      ghost var files := manifests.value;
      var entries := manifests.value.Keys;
      var rest := entries;
      while rest != {}
        invariant rest <= entries && manifests.Some?
        invariant Swept(files, manifests.value, entries - rest, expected, check, listing)
        decreases |rest|
      {
        var name :| name in rest;
        ghost var before := manifests.value;
        var stale := OneFile(name, expected, check);
        SweptOneMore(files, before, entries, rest, name, expected, check, listing);
        rest := rest - {name};
        if stale {
          listing := listing + [name];
        }
      }
      assert entries - rest == entries;
    }

    /** One file of the directory: stale or not, and removed in write mode if it is. */
    method OneFile(name: string, expected: set<string>, check: bool) returns (stale: bool)
      requires manifests.Some?
      modifies this`manifests
      ensures stale <==> HasExtension(name, "json") && name !in expected
      ensures manifests == if stale && !check then Some(old(manifests).value - {name}) else old(manifests)
    {
      if !HasExtension(name, "json") || name in expected {
        return false;
      }
      if !check {
        manifests := Some(manifests.value - {name});
      }
      return true;
    }

    method Compile(f: Formats, check: bool) returns (r: Result<CompileReport, AdrError>)
      modifies this
      ensures r.Ok? <==> LoadAdrs(f, old(adrDir)).Ok?
      ensures r.Err? ==> r.error == LoadAdrs(f, old(adrDir)).error && adrDir == old(adrDir) && manifests == old(manifests)
      ensures r.Ok? ==> r.value.check == check && r.value.manifests == Names(LoadAdrs(f, old(adrDir)).value)
      ensures r.Ok? && check ==>
                && adrDir == old(adrDir) && manifests == old(manifests)
                && IsDrift(f, LoadAdrs(f, adrDir).value, adrDir, Files(manifests), r.value.drift)
                && r.value.removedStale == [] && !r.value.readmeUpdated
      ensures r.Ok? && !check ==>
                var adrs := LoadAdrs(f, old(adrDir)).value;
                && manifests.Some? && manifests.value == Written(f, adrs, Files(old(manifests)))
                && adrDir == WrittenReadme(f, adrs, old(adrDir))
                && Lists(r.value.removedStale, Stale(f, adrs, Files(old(manifests))))
                && (r.value.readmeUpdated <==> adrDir != old(adrDir))
                && r.value.drift == []
    {
      var loaded := LoadRecords(f);
      if loaded.Err? {
        return Err(loaded.error);
      }
      var adrs := loaded.value;
      LoadedWell(f, adrDir);
      if !check && manifests.None? {
        manifests := Some(map[]);
      }
      var names, drift := EachRecord(f, adrs, check);
      ExpectedKeys(f, adrs);
      NamesAreKeys(f, adrs);
      var expected := set name | name in names;
      assert expected == Expected(f, adrs).Keys;
      var listing := EachFile(expected, check);
      if !check {
        SweepIsWrite(f, adrs, Files(old(manifests)));
      }
      var readmeDrift := IndexPage(f, adrs, check);
      if check {
        drift := drift + StaleDrifts(listing) + readmeDrift;
        return Ok(CompileReport(check, names, [], false, drift));
      }
      return Ok(CompileReport(check, names, listing, readmeDrift != [], drift));
    }

    /** The index page, when there is one, in either mode. */
    method IndexPage(f: Formats, adrs: seq<ParsedAdr>, check: bool) returns (drift: seq<Drift>)
      modifies this`adrDir
      ensures drift == ReadmeDrifts(f, adrs, old(adrDir))
      ensures adrDir == if check then old(adrDir) else WrittenReadme(f, adrs, old(adrDir))
      ensures !check ==> (drift == [] <==> adrDir == old(adrDir))
    {
      drift := [];
      if README in adrDir {
        var rendered := f.renderReadme(adrs);
        if adrDir[README] != rendered {
          drift := [ReadmeDrift];
          if !check {
            adrDir := adrDir[README := rendered];
          }
        }
      }
    }
  }

  lemma NamesAreKeys(f: Formats, adrs: seq<ParsedAdr>)
    ensures (set name | name in Names(adrs)) == Expected(f, adrs).Keys
  {
    ExpectedKeys(f, adrs);
    forall name | name in Expected(f, adrs) ensures name in Names(adrs) {
      var a :| a in adrs && name == ManifestName(a.manifest.id);
      var i :| 0 <= i < |adrs| && adrs[i] == a;
      assert Names(adrs)[i] == name;
    }
    forall name | name in Names(adrs) ensures name in Expected(f, adrs) {
      var i :| 0 <= i < |adrs| && Names(adrs)[i] == name;
      assert adrs[i] in adrs;
    }
  }

  lemma ParseSnoc(f: Formats, dir: Directory, names: seq<string>, i: nat)
    requires i < |names| && forall name | name in names :: name in dir && HasExtension(name, "md")
    ensures names[i] in dir && HasExtension(names[i], "md")
    ensures ParseAll(f, dir, names[..i + 1]) ==
            match ParseAll(f, dir, names[..i])
            case Err(e) => Err(e)
            case Ok(adrs) =>
              match ParseAdr(f, names[i], dir[names[i]])
              case Err(e) => Err(e)
              case Ok(adr) => Ok(adrs + [adr])
  {
    assert names[i] in names && names[..i + 1][..i] == names[..i];
  }

  lemma {:induction false} ParseFails(f: Formats, dir: Directory, names: seq<string>, i: nat)
    requires i <= |names| && forall name | name in names :: name in dir && HasExtension(name, "md")
    requires ParseAll(f, dir, names[..i]).Err?
    ensures ParseAll(f, dir, names) == ParseAll(f, dir, names[..i])
    decreases |names| - i
  {
    if i == |names| {
      assert names[..i] == names;
    } else {
      ParseSnoc(f, dir, names, i);
      ParseFails(f, dir, names, i + 1);
    }
  }

  // ---- reading the manifests back ----

  predicate ById(a: Manifest, b: Manifest) {
    StrLe(a.id, b.id)
  }

  /** Every JSON file of the directory, in listing order; `None` when one does not decode. */
  function DecodeListed(decode: string -> Option<Manifest>, dir: Directory, listing: seq<string>): Option<seq<Manifest>>
    requires forall name | name in listing :: name in dir
  {
    if listing == [] then Some([])
    else
      var n := |listing| - 1;
      assert listing[n] in listing;
      match DecodeListed(decode, dir, listing[..n])
      case None => None
      case Some(rest) =>
        match decode(dir[listing[n]])
        case None => None
        case Some(m) => Some(rest + [m])
  }

  /** `load_manifests`: what validation works from. */
  function LoadManifests(decode: string -> Option<Manifest>, dir: Directory, listing: seq<string>): Option<seq<Manifest>>
    requires forall name | name in listing :: name in dir
  {
    match DecodeListed(decode, dir, listing)
    case None => None
    case Some(manifests) => Some(Sort(manifests, ById))
  }

  function ManifestOf(a: ParsedAdr): Manifest {
    a.manifest
  }

  ghost predicate RoundTrips(f: Formats, decode: string -> Option<Manifest>) {
    forall m :: decode(f.renderManifest(m)) == Some(m)
  }

  function ReadFrom(decode: string -> Option<Manifest>, dir: Directory): string -> Manifest {
    (name: string) => if name in dir && decode(dir[name]).Some? then decode(dir[name]).value else Manifest("", "", "")
  }

  lemma {:induction false} DecodeListedReads(decode: string -> Option<Manifest>, dir: Directory, listing: seq<string>)
    requires forall name | name in listing :: name in dir && decode(dir[name]).Some?
    ensures DecodeListed(decode, dir, listing) == Some(Map(listing, ReadFrom(decode, dir)))
  {
    if listing != [] {
      var n := |listing| - 1;
      var last := listing[n];
      DecodeListedReads(decode, dir, listing[..n]);
      MapSnoc(listing[..n], last, ReadFrom(decode, dir));
      assert last in listing && listing == listing[..n] + [last];
      assert ReadFrom(decode, dir)(last) == decode(dir[last]).value;
    }
  }

  lemma NamesDistinct(f: Formats, adrs: seq<ParsedAdr>)
    requires WellLoaded(adrs)
    ensures Distinct(Names(adrs))
  {
    OneManifestPerAdr(f, adrs);
    NamesAreKeys(f, adrs);
    assert SetOf(Names(adrs)) == Expected(f, adrs).Keys;
    SetSize(Names(adrs));
  }

  lemma ListedNames(f: Formats, adrs: seq<ParsedAdr>, listing: seq<string>)
    requires WellLoaded(adrs) && Lists(listing, Expected(f, adrs).Keys)
    ensures multiset(listing) == multiset(Names(adrs))
    ensures forall name :: name in listing <==> name in Expected(f, adrs)
  {
    NamesDistinct(f, adrs);
    NamesAreKeys(f, adrs);
    ListingPermutes(listing, Expected(f, adrs).Keys, Names(adrs));
  }

  lemma ByIdIsOrder()
    ensures TotalPreorder(ById)
  {
    forall a: Manifest, b: Manifest ensures ById(a, b) || ById(b, a) {
      StrLeTotal(a.id, b.id);
    }
    forall a: Manifest, b: Manifest, c: Manifest | ById(a, b) && ById(b, c) ensures ById(a, c) {
      StrLeTransitive(a.id, b.id, c.id);
    }
  }

  lemma IdsSeparate(adrs: seq<ParsedAdr>)
    requires WellLoaded(adrs)
    ensures TotalPreorder(ById) && Separates(Map(adrs, ManifestOf), ById)
  {
    ByIdIsOrder();
    var s := Map(adrs, ManifestOf);
    forall a, b | a in s && b in s && ById(a, b) && ById(b, a) ensures a == b {
      StrLeAntisymmetric(a.id, b.id);
      var i :| 0 <= i < |s| && s[i] == a;
      var j :| 0 <= j < |s| && s[j] == b;
      assert adrs[i].manifest.id == adrs[j].manifest.id;
    }
  }

  lemma WrittenReadsBack(f: Formats, decode: string -> Option<Manifest>, adrs: seq<ParsedAdr>, written: Directory)
    requires WellLoaded(adrs) && RoundTrips(f, decode)
    requires forall i | 0 <= i < |adrs| ::
               && ManifestName(adrs[i].manifest.id) in written
               && written[ManifestName(adrs[i].manifest.id)] == f.renderManifest(adrs[i].manifest)
    ensures Map(Names(adrs), ReadFrom(decode, written)) == Map(adrs, ManifestOf)
    ensures forall name | name in Expected(f, adrs) :: name in written && decode(written[name]).Some?
  {
    var read := ReadFrom(decode, written);
    forall i | 0 <= i < |adrs| ensures read(Names(adrs)[i]) == adrs[i].manifest {
      assert decode(f.renderManifest(adrs[i].manifest)) == Some(adrs[i].manifest);
    }
    NamesAreKeys(f, adrs);
    forall name | name in Expected(f, adrs) ensures name in written && decode(written[name]).Some? {
      assert name in Names(adrs);
      var i :| 0 <= i < |adrs| && Names(adrs)[i] == name;
      assert decode(f.renderManifest(adrs[i].manifest)) == Some(adrs[i].manifest);
    }
  }

  /** After a write, whatever was there before and however the directory is listed, validation
      loads exactly the manifests of the records, by id. */
  lemma ValidationReadsWhatWasCompiled(f: Formats, decode: string -> Option<Manifest>, adrs: seq<ParsedAdr>,
                                       manifests: Directory, listing: seq<string>)
    requires WellLoaded(adrs) && RoundTrips(f, decode)
    requires var written := Written(f, adrs, manifests);
             && Lists(listing, set name | name in written && HasExtension(name, "json"))
             && forall name | name in listing :: name in written
    ensures LoadManifests(decode, Written(f, adrs, manifests), listing) == Some(Sort(Map(adrs, ManifestOf), ById))
  {
    var written := Written(f, adrs, manifests);
    WrittenExactly(f, adrs, manifests);
    ListedNames(f, adrs, listing);
    WrittenReadsBack(f, decode, adrs, written);
    DecodeListedReads(decode, written, listing);
    var read := ReadFrom(decode, written);
    MapPermutation(listing, Names(adrs), read);
    IdsSeparate(adrs);
    SortCanonical(Map(adrs, ManifestOf), Map(listing, read), ById);
  }
}

/** What loading, compiling and checking decision records means for the files: names, contents and
    findings, spelled out. */
module AdrMeaning {
  import opened Wrappers
  import opened Sorting
  import opened Text
  import opened AdrCompile

  // ---- loading ----

  /** A file name with this extension and something in front of it. */
  ghost predicate Ends(name: string, dotted: string) {
    exists stem: string :: stem != "" && name == stem + dotted
  }

  ghost predicate IsRecordName(name: string) {
    Ends(name, ".md") && name != "README.md"
  }

  lemma EndsIsExtension(name: string, extension: string)
    ensures Ends(name, ['.'] + extension) <==> HasExtension(name, extension)
  {
    if HasExtension(name, extension) {
      var stem := name[..|name| - |extension| - 1];
      assert name == stem + (['.'] + extension);
    }
    if stem: string :| stem != "" && name == stem + (['.'] + extension) {
      assert name[|name| - |extension| - 1..] == ['.'] + extension;
    }
  }

  lemma RecordNameMeans(name: string)
    ensures IsRecordName(name) <==> IsAdrName(name)
  {
    EndsIsExtension(name, "md");
    assert ['.'] + "md" == ".md";
  }

  /** The file parses and its front matter carries its own name: the record is that. */
  predicate ReadsAs(f: Formats, dir: Directory, name: string, a: ParsedAdr) {
    && name in dir && f.decode(dir[name]).Some?
    && var front := f.decode(dir[name]).value;
       && front.id + ".md" == name
       && a == ParsedAdr(name, Manifest(front.id, f.sourceOf(name), front.body))
  }

  /** Why a file does not load. */
  predicate FailsWith(f: Formats, dir: Directory, name: string, error: AdrError) {
    && name in dir
    && match f.decode(dir[name])
       case None => error == Malformed(name)
       case Some(front) => front.id + ".md" != name && error == IdMismatch(name, front.id)
  }

  lemma ParseMeans(f: Formats, dir: Directory, name: string)
    requires name in dir && HasExtension(name, "md")
    ensures forall a :: ParseAdr(f, name, dir[name]) == Ok(a) <==> ReadsAs(f, dir, name, a)
    ensures forall e :: ParseAdr(f, name, dir[name]) == Err(e) <==> FailsWith(f, dir, name, e)
  {
    assert name == Stem(name) + ".md";
    if f.decode(dir[name]).Some? {
      var id := f.decode(dir[name]).value.id;
      assert id + ".md" == name ==> id == name[..|name| - 3];
    }
  }

  ghost predicate Reads(f: Formats, dir: Directory, name: string) {
    exists a :: ReadsAs(f, dir, name, a)
  }

  /** All files before number `i` read as the records in `adrs`. */
  ghost predicate ReadUpTo(f: Formats, dir: Directory, names: seq<string>, adrs: seq<ParsedAdr>) {
    |adrs| <= |names| && forall i | 0 <= i < |adrs| :: ReadsAs(f, dir, names[i], adrs[i])
  }

  ghost predicate FirstFailure(f: Formats, dir: Directory, names: seq<string>, i: nat, error: AdrError) {
    && i < |names| && FailsWith(f, dir, names[i], error)
    && forall j | 0 <= j < i :: Reads(f, dir, names[j])
  }

  lemma {:induction false} ParseAllMeans(f: Formats, dir: Directory, names: seq<string>)
    requires forall name | name in names :: name in dir && HasExtension(name, "md")
    ensures ParseAll(f, dir, names).Ok? ==>
              |ParseAll(f, dir, names).value| == |names| && ReadUpTo(f, dir, names, ParseAll(f, dir, names).value)
    ensures ParseAll(f, dir, names).Err? ==> exists i: nat :: FirstFailure(f, dir, names, i, ParseAll(f, dir, names).error)
  {
    if names != [] {
      var n := |names| - 1;
      assert names[n] in names;
      ParseAllMeans(f, dir, names[..n]);
      ParseMeans(f, dir, names[n]);
      match ParseAll(f, dir, names[..n])
      case Err(e) =>
        var i: nat :| FirstFailure(f, dir, names[..n], i, e);
        forall j | 0 <= j < i ensures Reads(f, dir, names[j]) {
          assert names[..n][j] == names[j];
        }
        assert FirstFailure(f, dir, names, i, e);
      case Ok(adrs) =>
        if ParseAdr(f, names[n], dir[names[n]]).Err? {
          forall j | 0 <= j < n ensures Reads(f, dir, names[j]) {
            assert names[..n][j] == names[j];
            assert ReadsAs(f, dir, names[j], adrs[j]);
          }
          assert FirstFailure(f, dir, names, n, ParseAll(f, dir, names).error);
        }
    }
  }

  /** The names of the records in the directory, in ascending order. */
  ghost predicate RecordNames(dir: Directory, names: seq<string>) {
    && (forall name :: name in names <==> name in dir && IsRecordName(name))
    && (forall i, j | 0 <= i < j < |names| :: names[i] != names[j] && StrLe(names[i], names[j]))
  }

  lemma AdrNamesAre(dir: Directory)
    ensures RecordNames(dir, AdrNames(dir))
  {
    StrLeIsOrder();
    AscendingIs((set name | name in dir && IsAdrName(name)), StrLe);
    forall name ensures IsRecordName(name) <==> IsAdrName(name) {
      RecordNameMeans(name);
    }
  }

  /** Loading gives one record for each Markdown file but the index page, in name order, with the id,
      the source and the contents of its front matter; or it fails for the first file that has no
      front matter or another id. */
  lemma LoadMeans(f: Formats, dir: Directory) returns (names: seq<string>)
    ensures RecordNames(dir, names)
    ensures match LoadAdrs(f, dir)
            case Ok(adrs) => |adrs| == |names| && ReadUpTo(f, dir, names, adrs)
            case Err(e) => exists i: nat :: FirstFailure(f, dir, names, i, e)
  {
    names := AdrNames(dir);
    AdrNamesAre(dir);
    ParseAllMeans(f, dir, names);
  }

  // ---- writing ----

  /** The record's manifest is there, under its own name. */
  ghost predicate Holds(dir: Directory, f: Formats, a: ParsedAdr) {
    a.manifest.id + ".json" in dir && dir[a.manifest.id + ".json"] == f.renderManifest(a.manifest)
  }

  lemma EachHeld(f: Formats, adrs: seq<ParsedAdr>, manifests: Directory, a: ParsedAdr)
    requires WellLoaded(adrs) && a in adrs
    ensures Holds(Written(f, adrs, manifests), f, a)
  {
    WrittenExactly(f, adrs, manifests);
    var i :| 0 <= i < |adrs| && adrs[i] == a;
    assert ManifestName(adrs[i].manifest.id) == a.manifest.id + ".json";
  }

  lemma OthersKept(f: Formats, adrs: seq<ParsedAdr>, manifests: Directory, name: string)
    requires WellLoaded(adrs) && !Ends(name, ".json")
    ensures var written := Written(f, adrs, manifests);
            (name in written <==> name in manifests) && (name in written ==> written[name] == manifests[name])
  {
    WrittenExactly(f, adrs, manifests);
    EndsIsExtension(name, "json");
    assert ['.'] + "json" == ".json";
  }

  lemma JsonIsManifest(f: Formats, adrs: seq<ParsedAdr>, manifests: Directory, name: string)
    requires WellLoaded(adrs) && name in Written(f, adrs, manifests) && Ends(name, ".json")
    ensures exists a | a in adrs :: name == a.manifest.id + ".json"
  {
    EndsIsExtension(name, "json");
    assert ['.'] + "json" == ".json";
    WrittenNames(f, adrs, manifests);
  }

  /** After a write the JSON files are the records' manifests; every other file is what it was. */
  lemma WriteMeans(f: Formats, adrs: seq<ParsedAdr>, manifests: Directory)
    requires WellLoaded(adrs)
    ensures var written := Written(f, adrs, manifests);
            && (forall a | a in adrs :: Holds(written, f, a))
            && (forall name | name in written && Ends(name, ".json") :: exists a | a in adrs :: name == a.manifest.id + ".json")
            && (forall name | !Ends(name, ".json") ::
                  (name in written <==> name in manifests) && (name in written ==> written[name] == manifests[name]))
  {
    var written := Written(f, adrs, manifests);
    forall a | a in adrs ensures Holds(written, f, a) {
      EachHeld(f, adrs, manifests, a);
    }
    forall name | name in written && Ends(name, ".json") ensures exists a | a in adrs :: name == a.manifest.id + ".json" {
      JsonIsManifest(f, adrs, manifests, name);
    }
    forall name | !Ends(name, ".json")
      ensures (name in written <==> name in manifests) && (name in written ==> written[name] == manifests[name])
    {
      OthersKept(f, adrs, manifests, name);
    }
  }

  lemma WrittenNames(f: Formats, adrs: seq<ParsedAdr>, manifests: Directory)
    requires WellLoaded(adrs)
    ensures forall name | name in Written(f, adrs, manifests) && HasExtension(name, "json") ::
              exists a | a in adrs :: name == a.manifest.id + ".json"
  {
    WrittenExactly(f, adrs, manifests);
    ExpectedKeys(f, adrs);
    var json := set name | name in Written(f, adrs, manifests) && HasExtension(name, "json");
    forall name | name in Written(f, adrs, manifests) && HasExtension(name, "json")
      ensures exists a | a in adrs :: name == a.manifest.id + ".json"
    {
      assert name in json;
      var a :| a in adrs && name == ManifestName(a.manifest.id);
    }
  }

  /** Of the record directory a write changes the contents of the index page and nothing else. */
  lemma IndexMeans(f: Formats, adrs: seq<ParsedAdr>, adrDir: Directory)
    ensures var after := WrittenReadme(f, adrs, adrDir);
            && (forall name :: name in after <==> name in adrDir)
            && (forall name | name in adrDir :: after[name] == if name == "README.md" then f.renderReadme(adrs) else adrDir[name])
  {
  }

  lemma NamesMean(adrs: seq<ParsedAdr>)
    ensures |Names(adrs)| == |adrs| && forall i | 0 <= i < |adrs| :: Names(adrs)[i] == adrs[i].manifest.id + ".json"
  {
  }

  // ---- checking ----

  lemma {:induction false} InManifestDrifts(f: Formats, adrs: seq<ParsedAdr>, manifests: Directory, d: Drift)
    ensures d in ManifestDrifts(f, adrs, manifests) <==> exists a | a in adrs :: d in RecordDrift(f, a.manifest, manifests)
  {
    if adrs != [] {
      var n := |adrs| - 1;
      InManifestDrifts(f, adrs[..n], manifests, d);
      assert adrs == adrs[..n] + [adrs[n]];
    }
  }

  /** What a finding says about the files. */
  ghost predicate Finds(f: Formats, adrs: seq<ParsedAdr>, adrDir: Directory, manifests: Directory, d: Drift) {
    match d
    case MissingManifest(name) => name !in manifests && exists a | a in adrs :: name == a.manifest.id + ".json"
    case ManifestDrift(name) =>
      name in manifests && exists a | a in adrs :: name == a.manifest.id + ".json" && manifests[name] != f.renderManifest(a.manifest)
    case StaleManifest(name) =>
      name in manifests && Ends(name, ".json") && forall a | a in adrs :: name != a.manifest.id + ".json"
    case ReadmeDrift => "README.md" in adrDir && adrDir["README.md"] != f.renderReadme(adrs)
  }

  lemma RecordFinding(f: Formats, adrs: seq<ParsedAdr>, manifests: Directory, d: Drift)
    ensures d in ManifestDrifts(f, adrs, manifests) <==>
            match d
            case MissingManifest(name) => name !in manifests && exists a | a in adrs :: name == a.manifest.id + ".json"
            case ManifestDrift(name) =>
              name in manifests && exists a | a in adrs :: name == a.manifest.id + ".json" && manifests[name] != f.renderManifest(a.manifest)
            case _ => false
  {
    InManifestDrifts(f, adrs, manifests, d);
    forall a | a in adrs ensures d in RecordDrift(f, a.manifest, manifests) <==>
      match d
      case MissingManifest(name) => name !in manifests && name == a.manifest.id + ".json"
      case ManifestDrift(name) => name in manifests && name == a.manifest.id + ".json" && manifests[name] != f.renderManifest(a.manifest)
      case _ => false
    {
    }
  }

  lemma StaleFinding(f: Formats, adrs: seq<ParsedAdr>, manifests: Directory, listing: seq<string>, d: Drift)
    requires Lists(listing, Stale(f, adrs, manifests))
    ensures d in StaleDrifts(listing) <==>
            && d.StaleManifest? && d.name in manifests && Ends(d.name, ".json")
            && forall a | a in adrs :: d.name != a.manifest.id + ".json"
  {
    ExpectedKeys(f, adrs);
    forall name ensures name in listing <==> name in Stale(f, adrs, manifests) {
      assert name in listing <==> name in multiset(listing);
      assert name in Stale(f, adrs, manifests) <==> name in multiset(Stale(f, adrs, manifests));
    }
    MapMembers(listing, (name: string) => StaleManifest(name), d);
    if d.StaleManifest? {
      EndsIsExtension(d.name, "json");
      assert ['.'] + "json" == ".json";
      assert d in StaleDrifts(listing) <==> d.name in listing;
    }
  }

  /** A check reports exactly what there is to find. */
  lemma CheckMeans(f: Formats, adrs: seq<ParsedAdr>, adrDir: Directory, manifests: Directory, drift: seq<Drift>)
    requires IsDrift(f, adrs, adrDir, manifests, drift)
    ensures forall d :: d in drift <==> Finds(f, adrs, adrDir, manifests, d)
  {
    var listing :| Lists(listing, Stale(f, adrs, manifests)) &&
      drift == ManifestDrifts(f, adrs, manifests) + StaleDrifts(listing) + ReadmeDrifts(f, adrs, adrDir);
    forall d ensures d in drift <==> Finds(f, adrs, adrDir, manifests, d) {
      RecordFinding(f, adrs, manifests, d);
      StaleFinding(f, adrs, manifests, listing, d);
    }
  }

  // ---- validation ----

  /** Validation loads the manifest of every record once, by ascending id. */
  lemma ValidationMeans(f: Formats, decode: string -> Option<Manifest>, adrs: seq<ParsedAdr>,
                        manifests: Directory, listing: seq<string>) returns (out: seq<Manifest>)
    requires WellLoaded(adrs) && RoundTrips(f, decode)
    requires var written := Written(f, adrs, manifests);
             && Lists(listing, set name | name in written && HasExtension(name, "json"))
             && forall name | name in listing :: name in written
    ensures LoadManifests(decode, Written(f, adrs, manifests), listing) == Some(out)
    ensures multiset(out) == multiset(Map(adrs, (a: ParsedAdr) => a.manifest))
    ensures forall i, j | 0 <= i < j < |out| :: StrLe(out[i].id, out[j].id)
  {
    ValidationReadsWhatWasCompiled(f, decode, adrs, manifests, listing);
    out := Sort(Map(adrs, ManifestOf), ById);
    ByIdIsOrder();
    SortSorts(Map(adrs, ManifestOf), ById);
    SortPermutes(Map(adrs, ManifestOf), ById);
    assert Map(adrs, ManifestOf) == Map(adrs, (a: ParsedAdr) => a.manifest);
  }
}

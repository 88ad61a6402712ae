/** The bounded, locked cache behind the advisory resolver. */
module ResolverCache {
  import opened Wrappers
  import opened Sorting
  import opened Text
  import opened Utf8
  import opened OhUri

  const CACHE_SCHEMA_VERSION: nat := 1
  const MAX_CACHE_BYTES: nat := 8 * 1024 * 1024
  const MAX_CACHE_ENTRIES: nat := 10_000
  const MAX_CACHE_TTL_SECONDS: nat := 24 * 60 * 60
  const OVERSIZE_REFERENCE_MARKER := "<oversize-oh-reference>"

  datatype Lifecycle = Active | RetiredLifecycle

  datatype Entry = Entry(reference: string, kind: Kind, lifecycle: Lifecycle, version: nat, checkedAt: nat)

  type Entries = map<string, Entry>

  datatype ResolverSuccess = ResolverSuccess(
    contractVersion: string, outcome: string, reference: string, kind: Kind, lifecycle: Lifecycle, version: nat)

  /** JSON, taken as given: what is written followed by a newline reads back. */
  datatype Wire = Wire(
    encode: Entries -> seq<Byte>,
    decode: seq<Byte> -> Option<(nat, Entries)>,
    decodeSuccess: seq<Byte> -> Option<ResolverSuccess>)
  {
    ghost predicate Lawful() {
      forall e :: decode(encode(e) + [0x0A]) == Some((CACHE_SCHEMA_VERSION, e))
    }
  }

  // ---- load ----

  datatype CacheError = TooLarge | Malformed | WrongSchema | TooManyEntries | InvalidEntry | Unreadable

  /** An entry sits under its own canonical reference, with that reference's kind. */
  predicate ValidEntry(key: string, e: Entry) {
    Parse(key).Ok? && e.reference == key && e.kind == Parse(key).value.kind && e.version != 0
  }

  predicate ValidEntries(entries: Entries) {
    forall key | key in entries :: ValidEntry(key, entries[key])
  }

  function Load(w: Wire, file: Option<seq<Byte>>): Result<Entries, CacheError> {
    match file
    case None => Ok(map[])
    case Some(bytes) =>
      if |bytes| > MAX_CACHE_BYTES then Err(TooLarge)
      else
        match w.decode(bytes)
        case None => Err(Malformed)
        case Some((schema, entries)) =>
          if schema != CACHE_SCHEMA_VERSION then Err(WrongSchema)
          else if |entries| > MAX_CACHE_ENTRIES then Err(TooManyEntries)
          else if !ValidEntries(entries) then Err(InvalidEntry)
          else Ok(entries)
  }

  /** `load(..).unwrap_or_default()`: the entries a file can ever serve. */
  function Loadable(w: Wire, file: Option<seq<Byte>>): (entries: Entries)
    ensures ValidEntries(entries) && |entries| <= MAX_CACHE_ENTRIES
  {
    match Load(w, file)
    case Ok(entries) => entries
    case Err(_) => map[]
  }

  // ---- prune ----

  datatype Age = Age(checkedAt: nat, key: string)

  predicate AgeLe(a: Age, b: Age) {
    a.checkedAt < b.checkedAt || (a.checkedAt == b.checkedAt && StrLe(a.key, b.key))
  }

  lemma AgeOrder()
    ensures TotalOrder(AgeLe)
  {
    forall a: Age, b: Age ensures AgeLe(a, b) || AgeLe(b, a) { StrLeTotal(a.key, b.key); }
    forall a: Age, b: Age, c: Age | AgeLe(a, b) && AgeLe(b, c) ensures AgeLe(a, c) {
      if a.checkedAt == b.checkedAt == c.checkedAt {
        StrLeTransitive(a.key, b.key, c.key);
      }
    }
    forall a: Age, b: Age | AgeLe(a, b) && AgeLe(b, a) ensures a == b { StrLeAntisymmetric(a.key, b.key); }
  }

  function AgeOf(entries: Entries, key: string): Age
    requires key in entries
  {
    Age(entries[key].checkedAt, key)
  }

  /** `kept` is `entries` without exactly its surplus oldest members. */
  ghost predicate PrunedTo(entries: Entries, kept: Entries, limit: nat) {
    && kept.Keys <= entries.Keys
    && (forall key | key in kept :: kept[key] == entries[key])
    && |kept| == (if |entries| <= limit then |entries| else limit)
    && (forall gone, key | gone in entries && gone !in kept && key in kept ::
          AgeLe(AgeOf(entries, gone), AgeOf(entries, key)) && gone != key)
  }

  lemma OutsideSameSize<T>(a: set<T>, b: set<T>)
    requires |a| == |b|
    ensures a == b || exists x :: x in a && x !in b
  {
    if a <= b {
      ContainedSameSize(a, b);
    }
  }

  lemma OlderBothWays(a: Age, b: Age)
    requires AgeLe(a, b) && AgeLe(b, a)
    ensures a == b
  {
    StrLeAntisymmetric(a.key, b.key);
  }

  /** That determines what is kept. */
  lemma PrunedUnique(entries: Entries, a: Entries, b: Entries, limit: nat)
    requires PrunedTo(entries, a, limit) && PrunedTo(entries, b, limit)
    ensures a == b
  {
    assert |a.Keys| == |a| == |b| == |b.Keys|;
    OutsideSameSize(a.Keys, b.Keys);
    OutsideSameSize(b.Keys, a.Keys);
    if x, y :| x in a.Keys && x !in b.Keys && y in b.Keys && y !in a.Keys {
      OlderBothWays(AgeOf(entries, x), AgeOf(entries, y));
    }
    assert a.Keys == b.Keys;
  }

  /** The order in which a `BTreeMap` lists its keys. */
  ghost function AscendingKeys(entries: Entries): (keys: seq<string>)
    ensures |keys| == |entries|
    ensures forall key :: key in keys <==> key in entries
  {
    StrLeIsOrder();
    AscendingIs(entries.Keys, StrLe);
    Ascending(entries.Keys, StrLe)
  }

  method KeyList(entries: Entries) returns (keys: seq<string>)
    ensures keys == AscendingKeys(entries)
  {
    StrLeIsOrder();
    keys := AscendingList(entries.Keys, StrLe);
  }

  function KeyToAge(entries: Entries): string -> Age {
    key => if key in entries then AgeOf(entries, key) else Age(0, key)
  }

  function Ages(entries: Entries, keys: seq<string>): seq<Age> {
    Map(keys, KeyToAge(entries))
  }

  /** The keys by age, oldest first. */
  ghost function ByAge(entries: Entries): (ages: seq<Age>)
    ensures |ages| == |entries|
  {
    SortPermutes(Ages(entries, AscendingKeys(entries)), AgeLe);
    Sort(Ages(entries, AscendingKeys(entries)), AgeLe)
  }

  lemma AgesAre(entries: Entries, keys: seq<string>)
    requires forall key :: key in keys <==> key in entries
    ensures forall a :: a in Ages(entries, keys) <==> a.key in entries && a == AgeOf(entries, a.key)
  {
    var ages := Ages(entries, keys);
    forall a | a in ages ensures a.key in entries && a == AgeOf(entries, a.key) {
      var i :| 0 <= i < |ages| && ages[i] == a;
      assert keys[i] in keys;
    }
    forall a: Age | a.key in entries && a == AgeOf(entries, a.key) ensures a in ages {
      assert a.key in keys;
      var i :| 0 <= i < |keys| && keys[i] == a.key;
      assert ages[i] == a;
    }
  }

  lemma SortedByAge(ages: seq<Age>)
    ensures Sorted(Sort(ages, AgeLe), AgeLe)
    ensures forall a :: a in Sort(ages, AgeLe) <==> a in ages
  {
    AgeOrder();
    SortSorts(ages, AgeLe);
    SortPermutes(ages, AgeLe);
    SameElements(ages, Sort(ages, AgeLe));
  }

  lemma ByAgeIs(entries: Entries)
    ensures Sorted(ByAge(entries), AgeLe)
    ensures forall a :: a in ByAge(entries) <==> a.key in entries && a == AgeOf(entries, a.key)
  {
    var ages := Ages(entries, AscendingKeys(entries));
    AgesAre(entries, AscendingKeys(entries));
    SortedByAge(ages);
  }

  function KeysIn(ages: seq<Age>): set<string> {
    set a | a in ages :: a.key
  }

  function Without(entries: Entries, ages: seq<Age>): Entries {
    entries - KeysIn(ages)
  }

  /** What `prune_to_limit` leaves. */
  ghost function PruneTo(entries: Entries, limit: nat): Entries {
    if |entries| <= limit then entries else Without(entries, ByAge(entries)[..|entries| - limit])
  }

  lemma WithoutSize(entries: Entries, ages: seq<Age>)
    requires KeysIn(ages) <= entries.Keys
    ensures |Without(entries, ages)| == |entries| - |KeysIn(ages)|
  {
    var kept := Without(entries, ages);
    assert kept.Keys == entries.Keys - KeysIn(ages);
    assert |kept.Keys| == |kept| && |entries.Keys| == |entries|;
  }

  lemma PrunedByRemoving(entries: Entries, front: seq<Age>, limit: nat)
    requires KeysIn(front) <= entries.Keys && |KeysIn(front)| == |entries| - limit
    requires forall gone, key | gone in KeysIn(front) && key in entries && key !in KeysIn(front) ::
               AgeLe(AgeOf(entries, gone), AgeOf(entries, key))
    ensures PrunedTo(entries, Without(entries, front), limit)
  {
    WithoutSize(entries, front);
  }

  lemma OlderInFront(entries: Entries, ages: seq<Age>, surplus: nat, gone: string, key: string)
    requires Sorted(ages, AgeLe) && surplus <= |ages|
    requires forall a :: a in ages <==> a.key in entries && a == AgeOf(entries, a.key)
    requires gone in entries && gone in KeysIn(ages[..surplus])
    requires key in entries && key !in KeysIn(ages[..surplus])
    ensures AgeLe(AgeOf(entries, gone), AgeOf(entries, key))
  {
    var g :| g in ages[..surplus] && g.key == gone;
    var i :| 0 <= i < surplus && ages[i] == g;
    assert ages[i] in ages;
    assert AgeOf(entries, key) in ages;
    var j :| 0 <= j < |ages| && ages[j] == AgeOf(entries, key);
    forall n | 0 <= n < surplus ensures ages[n].key in KeysIn(ages[..surplus]) {
      assert ages[..surplus][n] in ages[..surplus];
    }
  }

  /** Different positions hold different keys. */
  lemma KeyCount(front: seq<Age>, entries: Entries, ages: seq<Age>)
    requires front <= ages && |ages| == |entries|
    requires forall a :: a in ages <==> a.key in entries && a == AgeOf(entries, a.key)
    ensures |KeysIn(front)| == |front| && KeysIn(front) <= entries.Keys
  {
    AllKeys(entries, ages);
    assert ages == front + ages[|front|..];
    assert KeysIn(ages) == KeysIn(front) + KeysIn(ages[|front|..]);
    KeyCountAtMost(front);
    KeyCountAtMost(ages[|front|..]);
    assert |KeysIn(ages)| <= |KeysIn(front)| + |KeysIn(ages[|front|..])|;
  }

  lemma AllKeys(entries: Entries, ages: seq<Age>)
    requires forall a :: a in ages <==> a.key in entries && a == AgeOf(entries, a.key)
    ensures KeysIn(ages) == entries.Keys && |KeysIn(ages)| == |entries|
  {
    forall key | key in entries ensures key in KeysIn(ages) {
      assert AgeOf(entries, key) in ages;
    }
    assert KeysIn(ages) == entries.Keys;
    assert |entries.Keys| == |entries|;
  }

  lemma {:induction false} KeyCountAtMost(ages: seq<Age>)
    ensures |KeysIn(ages)| <= |ages|
  {
    if ages != [] {
      KeyCountAtMost(ages[1..]);
      assert ages == [ages[0]] + ages[1..];
      assert KeysIn(ages) == {ages[0].key} + KeysIn(ages[1..]);
    }
  }

  /** `ages` lists every entry, oldest first. */
  ghost predicate ListsByAge(ages: seq<Age>, entries: Entries) {
    && Sorted(ages, AgeLe) && |ages| == |entries|
    && forall a :: a in ages <==> a.key in entries && a == AgeOf(entries, a.key)
  }

  lemma FrontRemoved(entries: Entries, ages: seq<Age>, limit: nat)
    requires |entries| > limit && ListsByAge(ages, entries)
    ensures PrunedTo(entries, Without(entries, ages[..|entries| - limit]), limit)
  {
    var surplus := |entries| - limit;
    var front := ages[..surplus];
    KeyCount(front, entries, ages);
    forall gone, key | gone in KeysIn(front) && key in entries && key !in KeysIn(front)
      ensures AgeLe(AgeOf(entries, gone), AgeOf(entries, key))
    {
      OlderInFront(entries, ages, surplus, gone, key);
    }
    PrunedByRemoving(entries, front, limit);
  }

  /** Removing the first `surplus` of the keys by age prunes to the limit. */
  lemma RemovingOldestPrunes(entries: Entries, limit: nat)
    requires |entries| > limit
    ensures PrunedTo(entries, PruneTo(entries, limit), limit)
  {
    ByAgeIs(entries);
    FrontRemoved(entries, ByAge(entries), limit);
  }

  /** Pruning keeps the newest entries that fit, unchanged, and removes exactly the others. */
  lemma PrunedKeepsNewest(entries: Entries, limit: nat)
    ensures PrunedTo(entries, PruneTo(entries, limit), limit)
    ensures |PruneTo(entries, limit)| <= limit
    ensures PruneTo(PruneTo(entries, limit), limit) == PruneTo(entries, limit)
  {
    if |entries| > limit {
      RemovingOldestPrunes(entries, limit);
    }
  }

  // ---- persist ----

  /** The bytes `persist` puts in place when nothing outside the cache stops it. The bound is
      checked before the newline is added. */
  ghost function Persisted(w: Wire, entries: Entries): Option<seq<Byte>> {
    var bytes := w.encode(PruneTo(entries, MAX_CACHE_ENTRIES));
    if |bytes| > MAX_CACHE_BYTES then None else Some(bytes + [0x0A])
  }

  lemma ValidAfterPruning(entries: Entries, limit: nat)
    requires ValidEntries(entries)
    ensures ValidEntries(PruneTo(entries, limit))
  {
    PrunedKeepsNewest(entries, limit);
    var kept := PruneTo(entries, limit);
    forall key | key in kept ensures ValidEntry(key, kept[key]) {
      assert ValidEntry(key, entries[key]);
    }
  }

  /** `load` reads back what `persist` wrote exactly when the encoding is strictly below the
      limit; at the limit the newline makes the file one byte too long for its own reader. */
  lemma PersistThenLoad(w: Wire, entries: Entries)
    requires w.Lawful() && ValidEntries(entries) && Persisted(w, entries).Some?
    ensures var kept := PruneTo(entries, MAX_CACHE_ENTRIES);
            Load(w, Persisted(w, entries)) == if |w.encode(kept)| < MAX_CACHE_BYTES then Ok(kept) else Err(TooLarge)
  {
    PrunedKeepsNewest(entries, MAX_CACHE_ENTRIES);
    ValidAfterPruning(entries, MAX_CACHE_ENTRIES);
  }

  class CacheFile {
    var bytes: Option<seq<Byte>>

    constructor ()
      ensures bytes == None
    {
      bytes := None;
    }
  }

  class ResolutionCache {
    var entries: Entries

    /** `load(path).unwrap_or_default()`; `fails` is any failure to read the file. */
    constructor Loaded(w: Wire, file: CacheFile, fails: bool)
      ensures entries == if fails then map[] else Loadable(w, file.bytes)
    {
      entries := if fails then map[] else Loadable(w, file.bytes);
    }

    method RemoveKeys(ages: seq<Age>)
      modifies this
      ensures entries == Without(old(entries), ages)
    {
      for i := 0 to |ages|
        invariant entries == Without(old(entries), ages[..i])
      {
        assert KeysIn(ages[..i + 1]) == KeysIn(ages[..i]) + {ages[i].key} by {
          assert ages[..i + 1] == ages[..i] + [ages[i]];
        }
        entries := entries - {ages[i].key};
      }
      assert ages[..|ages|] == ages;
    }

    method RemoveOldest(surplus: nat)
      requires surplus <= |entries|
      modifies this
      ensures entries == Without(old(entries), ByAge(old(entries))[..surplus])
    {
      var keys := KeyList(entries);
      var oldest := Sort(Ages(entries, keys), AgeLe);
      assert oldest == ByAge(entries);
      RemoveKeys(oldest[..surplus]);
    }

    method PruneToLimit()
      modifies this
      ensures entries == PruneTo(old(entries), MAX_CACHE_ENTRIES)
    {
      if |entries| <= MAX_CACHE_ENTRIES {
        return;
      }
      RemoveOldest(|entries| - MAX_CACHE_ENTRIES);
    }

    /** The rename is the only step that touches the file, so any failure leaves it alone;
        `fails` is a failure of the directory, the temporary file or the rename. */
    method Persist(w: Wire, file: CacheFile, fails: bool) returns (ok: bool)
      modifies this, file
      ensures entries == PruneTo(old(entries), MAX_CACHE_ENTRIES)
      ensures ok <==> !fails && Persisted(w, old(entries)).Some?
      ensures file.bytes == if ok then Persisted(w, old(entries)) else old(file.bytes)
    {
      PruneToLimit();
      var bytes := w.encode(entries);
      if fails || |bytes| > MAX_CACHE_BYTES {
        return false;
      }
      file.bytes := Some(bytes + [0x0A]);
      return true;
    }
  }

  // ---- eviction ----

  /** The file after a denied identity has been removed from what was loaded: rewritten without
      it, else deleted, else left alone. An identity that was not loaded changes nothing. */
  ghost function Evicted(w: Wire, entries: Entries, file: Option<seq<Byte>>, reference: string,
                         persistFails: bool, removeFails: bool): Option<seq<Byte>> {
    if reference !in entries then file
    else if !persistFails && Persisted(w, entries - {reference}).Some? then Persisted(w, entries - {reference})
    else if removeFails then file
    else None
  }

  method EvictCachedReference(w: Wire, cache: ResolutionCache, file: CacheFile, reference: string,
                              persistFails: bool, removeFails: bool)
    modifies cache, file
    ensures file.bytes == Evicted(w, old(cache.entries), old(file.bytes), reference, persistFails, removeFails)
  {
    if reference !in cache.entries {
      return;
    }
    cache.entries := cache.entries - {reference};
    var ok := cache.Persist(w, file, persistFails);
    if !ok {
      if !removeFails {
        file.bytes := None;
      }
    }
  }
}

/** Inputs on which the advisory cache falls short: a cache that its own reader refuses, and a
    denied identity that is served again. */
module CacheWitness {
  import opened Wrappers
  import opened Text
  import opened Utf8
  import opened OhUri
  import opened ResolverCache
  import opened AdvisoryResolver
  import opened Runs
  import opened ResolverRuns
  import opened TerminatedText
  import opened CacheWire

  // ---- a denied identity is served again ----

  /** What the cache holds after one success. */
  function Only(entry: Entry): Entries {
    map[entry.reference := entry]
  }

  /** The single entry is written and can be read back. */
  ghost predicate FitsAlone(w: Wire, entry: Entry) {
    Loadable(w, Persisted(w, Only(entry))) == Only(entry) && Persisted(w, Only(entry)).Some?
  }

  lemma ServedFresh(w: Wire, call: Call, entry: Entry, s: Shared)
    requires Preflight(call).Ok? && entry.reference == call.uri && entry.checkedAt == call.now && FitsAlone(w, entry)
    requires s.file == Persisted(w, Only(entry))
    ensures Answer(w, s, Peek(call, false)).Some?
    ensures var a := Answer(w, s, Peek(call, false)).value;
            a.source == Cache && a.state == LifecycleState(entry.lifecycle) && Repeats(a, entry)
  {
    PreflightParses(call);
  }

  /** A success for this call yields this record, alone in the cache. */
  ghost predicate Yields(w: Wire, call: Call, body: seq<Byte>, entry: Entry) {
    && Preflight(call).Ok? && call.resolver.Configured()
    && ParseSuccess(w, Preflight(call).value, body, call.now).Some?
    && ParseSuccess(w, Preflight(call).value, body, call.now).value.0 == entry
    && FitsAlone(w, entry)
  }

  lemma YieldedEntry(w: Wire, call: Call, body: seq<Byte>, entry: Entry)
    requires Yields(w, call, body, entry)
    ensures entry.reference == call.uri && entry.checkedAt == call.now
  {
    PreflightParses(call);
  }

  /** The four events: load, grant, load, denial. */
  function DeniedSteps(call: Call, body: seq<Byte>, loadFails: bool, faults: Faults): seq<Event> {
    [Acquire(call, false), Finish(Reply(200, body), Faults(false, false)), Acquire(call, loadFails), Finish(Reply(401, []), faults)]
  }

  function Held(call: Call, file: Option<seq<Byte>>, entries: Entries): Shared
    requires Preflight(call).Ok?
  {
    Shared(file, Some(Holding(call, Preflight(call).value, entries)))
  }

  /** The states they lead through; `file` holds the granted record alone. */
  ghost function DeniedStates(w: Wire, call: Call, file: Option<seq<Byte>>, loadFails: bool): seq<Shared>
    requires Preflight(call).Ok?
  {
    [INITIAL, Held(call, None, map[]), Shared(file, None), Held(call, file, LoadOrEmpty(w, file, loadFails)), Shared(file, None)]
  }

  lemma Acquires(w: Wire, call: Call, file: Option<seq<Byte>>, loadFails: bool)
    requires Preflight(call).Ok?
    ensures StepOf(w)(Shared(file, None), Acquire(call, loadFails)) == Some(Held(call, file, LoadOrEmpty(w, file, loadFails)))
  {
  }

  lemma GrantStep(w: Wire, call: Call, body: seq<Byte>, entry: Entry)
    requires Yields(w, call, body, entry)
    ensures StepOf(w)(Held(call, None, map[]), Finish(Reply(200, body), Faults(false, false)))
            == Some(Shared(Persisted(w, Only(entry)), None))
  {
    PreflightParses(call);
    assert map[][call.uri := entry] == Only(entry);
  }

  lemma DenyStep(w: Wire, call: Call, body: seq<Byte>, entry: Entry, loadFails: bool, faults: Faults)
    requires Yields(w, call, body, entry) && (loadFails || (faults.persist && faults.remove))
    ensures var file := Persisted(w, Only(entry));
            var s, e := Held(call, file, LoadOrEmpty(w, file, loadFails)), Finish(Reply(401, []), faults);
            && StepOf(w)(s, e) == Some(Shared(file, None))
            && Denies(s, e, call.uri) && EvictionFails(w, s, e, call.uri)
  {
    YieldedEntry(w, call, body, entry);
    PreflightParses(call);
  }

  lemma FourSteps<S, E>(step: (S, E) -> Option<S>, run: Run<S, E>)
    requires |run.states| == 5 && |run.steps| == 4
    requires step(run.states[0], run.steps[0]) == Some(run.states[1])
    requires step(run.states[1], run.steps[1]) == Some(run.states[2])
    requires step(run.states[2], run.steps[2]) == Some(run.states[3])
    requires step(run.states[3], run.steps[3]) == Some(run.states[4])
    ensures run.Follows(step)
  {
  }

  /** The four steps, given that each is possible. */
  lemma DeniedStepsFollow(w: Wire, call: Call, body: seq<Byte>, file: Option<seq<Byte>>, loadFails: bool, faults: Faults)
    requires Preflight(call).Ok?
    requires StepOf(w)(Held(call, None, map[]), Finish(Reply(200, body), Faults(false, false))) == Some(Shared(file, None))
    requires StepOf(w)(Held(call, file, LoadOrEmpty(w, file, loadFails)), Finish(Reply(401, []), faults)) == Some(Shared(file, None))
    ensures IsRun(w, Run(DeniedStates(w, call, file, loadFails), DeniedSteps(call, body, loadFails, faults)))
  {
    Acquires(w, call, None, false);
    Acquires(w, call, file, loadFails);
    FourSteps(StepOf(w), Run(DeniedStates(w, call, file, loadFails), DeniedSteps(call, body, loadFails, faults)));
  }

  lemma DeniedRun(w: Wire, call: Call, body: seq<Byte>, entry: Entry, loadFails: bool, faults: Faults)
    requires Yields(w, call, body, entry) && (loadFails || (faults.persist && faults.remove))
    ensures IsRun(w, Run(DeniedStates(w, call, Persisted(w, Only(entry)), loadFails), DeniedSteps(call, body, loadFails, faults)))
  {
    GrantStep(w, call, body, entry);
    DenyStep(w, call, body, entry, loadFails, faults);
    DeniedStepsFollow(w, call, body, Persisted(w, Only(entry)), loadFails, faults);
  }

  lemma GrantGrants(w: Wire, call: Call, body: seq<Byte>, entry: Entry)
    requires Yields(w, call, body, entry)
    ensures Grants(w, Held(call, None, map[]), Finish(Reply(200, body), Faults(false, false)), call.uri, entry)
  {
    PreflightParses(call);
  }

  /** An identity is granted, then denied with 401 while its eviction fails, and is then served from
      the cache as if nothing had happened: either the cache could not be read when the denial came,
      or the file could be neither rewritten nor removed. */
  lemma DeniedYetServed(w: Wire, call: Call, body: seq<Byte>, entry: Entry, loadFails: bool, faults: Faults)
    returns (run: Run<Shared, Event>)
    requires w.Lawful() && Yields(w, call, body, entry) && (loadFails || (faults.persist && faults.remove))
    ensures IsRun(w, run) && |run.steps| == 4
    ensures GrantedAt(w, run, 1, call.uri, entry)
    ensures DeniedAt(run, 3, call.uri) && EvictionFailsAt(w, run, 3, call.uri)
    ensures Answer(w, run.states[4], Peek(call, false)).Some?
    ensures var a := Answer(w, run.states[4], Peek(call, false)).value;
            a.source == Cache && a.state == LifecycleState(entry.lifecycle) && Repeats(a, entry)
  {
    DeniedRun(w, call, body, entry, loadFails, faults);
    run := Run(DeniedStates(w, call, Persisted(w, Only(entry)), loadFails), DeniedSteps(call, body, loadFails, faults));
    YieldedEntry(w, call, body, entry);
    GrantGrants(w, call, body, entry);
    DenyStep(w, call, body, entry, loadFails, faults);
    ServedFresh(w, call, entry, run.states[4]);
  }

  // ---- one concrete cache ----

  /** Times are 64-bit numbers. */
  const TIME_BOUND: nat := 0x1_0000_0000_0000_0000

  lemma TimeDigits(now: nat)
    requires now < TIME_BOUND
    ensures |Decimal(now)| <= 20
  {
    assert PowerOfTen(8) == 100_000_000;
    assert PowerOfTen(16) == 10_000_000_000_000_000;
    assert PowerOfTen(20) == 100_000_000_000_000_000_000;
    DecimalDigits(now, 20);
  }

  /** A resolver that asks for the context `a`, and the body that confirms it. */
  function SampleUri(): string {
    Print(Context, "a")
  }

  function SampleCall(now: nat): Call {
    Call(Resolver(Some("e"), Some("k"), Some("c"), 1), SampleUri(), None, now)
  }

  function SampleEntry(now: nat): Entry {
    Entry(SampleUri(), Context, Active, 1, now)
  }

  function SampleBody(): seq<Byte> -> Option<ResolverSuccess> {
    (body: seq<Byte>) => Some(ResolverSuccess("v1", "resolved", SampleUri(), Context, Active, 1))
  }

  ghost function SampleWire(): Wire {
    PlainWire(SampleBody())
  }

  lemma SampleParses()
    ensures ValidId("a") && Parse(SampleUri()) == Ok(OhReference(Context, "a", SampleUri()))
    ensures |Encode(SampleUri())| <= MAX_REFERENCE_INPUT_BYTES
  {
    assert "a"[1..] == "";
    ParsePrinted(Context, "a");
    AcceptedLength(SampleUri());
  }

  lemma SampleValid(now: nat)
    ensures ValidEntries(Only(SampleEntry(now))) && |Only(SampleEntry(now))| == 1
  {
    SampleParses();
  }

  lemma OneEntrySize(e: Entry)
    ensures |Plain(Only(e))| == EntrySize(e.reference, e)
  {
    SingleSize(Only(e), e.reference);
  }

  lemma OneEntryFits(e: Entry)
    requires Parse(e.reference).Ok? && |Decimal(e.version)| <= 20 && |Decimal(e.checkedAt)| <= 20
    ensures EntrySize(e.reference, e) < MAX_CACHE_BYTES
  {
    AcceptedLength(e.reference);
    EntrySizeIs(e.reference, e);
  }

  lemma SampleFitsLimit(now: nat)
    requires now < TIME_BOUND
    ensures |SampleWire().encode(Only(SampleEntry(now)))| < MAX_CACHE_BYTES
  {
    SampleParses();
    TimeDigits(now);
    TimeDigits(1);
    OneEntrySize(SampleEntry(now));
    OneEntryFits(SampleEntry(now));
  }

  lemma SampleUnpruned(now: nat)
    ensures PruneTo(Only(SampleEntry(now)), MAX_CACHE_ENTRIES) == Only(SampleEntry(now))
  {
    SampleValid(now);
  }

  lemma SampleFits(now: nat)
    requires now < TIME_BOUND
    ensures FitsAlone(SampleWire(), SampleEntry(now))
  {
    PlainWireLawful(SampleBody());
    SampleFitsLimit(now);
    SampleValid(now);
    SampleUnpruned(now);
    PersistThenLoad(SampleWire(), Only(SampleEntry(now)));
  }

  lemma SampleAccepted(now: nat)
    ensures Preflight(SampleCall(now)) == Ok(OhReference(Context, "a", SampleUri()))
    ensures ParseSuccess(SampleWire(), OhReference(Context, "a", SampleUri()), [], now).Some?
    ensures ParseSuccess(SampleWire(), OhReference(Context, "a", SampleUri()), [], now).value.0 == SampleEntry(now)
  {
    SampleParses();
    AcceptSample(OhReference(Context, "a", SampleUri()), now);
  }

  lemma AcceptSample(requested: OhReference, now: nat)
    requires requested.kind == Context && requested.uri == SampleUri()
    ensures ParseSuccess(SampleWire(), requested, [], now).Some?
    ensures ParseSuccess(SampleWire(), requested, [], now).value.0 == SampleEntry(now)
  {
    assert SampleWire().decodeSuccess([]) == SampleBody()([]);
  }

  lemma SampleYields(now: nat)
    requires now < TIME_BOUND
    ensures Yields(SampleWire(), SampleCall(now), [], SampleEntry(now))
  {
    SampleAccepted(now);
    SampleFits(now);
  }

  /** So there is such a run, for either way an eviction can fail, and it ends in a `Confirmed`. */
  lemma DeniedYetConfirmed(now: nat, loadFails: bool, faults: Faults) returns (w: Wire, run: Run<Shared, Event>)
    requires now < TIME_BOUND && (loadFails || (faults.persist && faults.remove))
    ensures w.Lawful() && IsRun(w, run) && |run.steps| == 4
    ensures GrantedAt(w, run, 1, SampleUri(), SampleEntry(now))
    ensures DeniedAt(run, 3, SampleUri()) && EvictionFailsAt(w, run, 3, SampleUri())
    ensures Answer(w, run.states[4], Peek(SampleCall(now), false)).Some?
    ensures Answer(w, run.states[4], Peek(SampleCall(now), false)).value.state == Confirmed
  {
    w := SampleWire();
    PlainWireLawful(SampleBody());
    SampleYields(now);
    run := DeniedYetServed(w, SampleCall(now), [], SampleEntry(now), loadFails, faults);
  }

  // ---- a cache that its own reader refuses ----

  const WIDE_ENTRIES: nat := 8192

  /** As many digits as bring the record to an even length. */
  function WideVersion(now: nat): nat {
    if |Decimal(now)| % 2 == 0 then 1 else 10
  }

  function WideNameLength(now: nat): nat
    requires |Decimal(now)| <= 20
  {
    (1005 - |Decimal(WideVersion(now))| - |Decimal(now)|) / 2 - 16
  }

  function WideName(now: nat, i: nat): (name: string)
    requires |Decimal(now)| <= 20 && i < WIDE_ENTRIES
    ensures |name| == WideNameLength(now)
  {
    FourDigits(1000 + i);
    Decimal(1000 + i) + seq(WideNameLength(now) - 4, _ => 'a')
  }

  function WideEntry(now: nat, uri: string): Entry {
    Entry(uri, Context, Active, WideVersion(now), now)
  }

  lemma DecimalStep(n: nat)
    requires n >= 10
    ensures |Decimal(n)| == |Decimal(n / 10)| + 1
  {
  }

  lemma FourDigits(n: nat)
    requires 1000 <= n < 10_000
    ensures |Decimal(n)| == 4
  {
    DecimalStep(n);
    DecimalStep(n / 10);
    DecimalStep(n / 100);
  }

  lemma {:induction false} EscapeUnescaped(bytes: seq<Byte>)
    requires forall b | b in bytes :: Unescaped(b)
    ensures |EscapeBytes(bytes)| == |bytes|
  {
    if bytes != [] {
      assert bytes[0] in bytes;
      EscapeUnescaped(bytes[1..]);
    }
  }

  lemma {:induction false} AsciiUnits(s: string)
    requires IsAscii(s)
    ensures Utf16Units(s) == |s|
  {
    if s != "" {
      assert s[0] in s && forall c | c in s[1..] :: c in s;
      AsciiUnits(s[1..]);
    }
  }

  /** Letters and digits stand for themselves. */
  lemma PlainReference(name: string)
    requires 0 < |name| <= MAX_ID_UNITS && forall c | c in name :: IsAsciiLetterOrDigit(c)
    ensures ValidId(name) && |Encode(Print(Context, name))| == |name| + 16
  {
    assert IsAscii(name);
    AsciiUnits(name);
    EncodeAscii(name);
    var bytes := Encode(name);
    forall b | b in bytes ensures Unescaped(b) {
      var i :| 0 <= i < |bytes| && bytes[i] == b;
      assert name[i] in name;
    }
    EscapeUnescaped(bytes);
    PrintIsAscii(Context, name);
    EncodeAscii(Print(Context, name));
  }

  lemma WideNameIs(now: nat, i: nat)
    requires |Decimal(now)| <= 20 && i < WIDE_ENTRIES
    ensures ValidId(WideName(now, i)) && |Encode(Print(Context, WideName(now, i)))| == WideNameLength(now) + 16
    ensures WideName(now, i)[..4] == Decimal(1000 + i)
  {
    FourDigits(1000 + i);
    PlainReference(WideName(now, i));
  }

  lemma WideLength(now: nat)
    requires |Decimal(now)| <= 20
    ensures 2 * (WideNameLength(now) + 16) + |Decimal(WideVersion(now))| + |Decimal(now)| == 1005
  {
    DecimalStep(10);
  }

  lemma WideEntryIs(now: nat, name: string)
    requires |Decimal(now)| <= 20 && ValidId(name) && |Encode(Print(Context, name))| == WideNameLength(now) + 16
    ensures var uri := Print(Context, name);
            ValidEntry(uri, WideEntry(now, uri)) && EntrySize(uri, WideEntry(now, uri)) == 1024
  {
    var uri := Print(Context, name);
    ParsePrinted(Context, name);
    EntrySizeIs(uri, WideEntry(now, uri));
    WideLength(now);
  }

  function WideKey(now: nat, i: nat): string
    requires |Decimal(now)| <= 20 && i < WIDE_ENTRIES
  {
    Print(Context, WideName(now, i))
  }

  lemma WideApart(now: nat, i: nat, j: nat)
    requires |Decimal(now)| <= 20 && i < WIDE_ENTRIES && j < WIDE_ENTRIES && WideKey(now, i) == WideKey(now, j)
    ensures i == j
  {
    var a, b := WideName(now, i), WideName(now, j);
    WideNameIs(now, i);
    WideNameIs(now, j);
    PrintInjective(Context, a, Context, b);
    DecimalInjective(1000 + i, 1000 + j);
  }

  /** One entry for each of the first `n` keys. */
  function Keyed<K, V>(n: nat, key: nat -> K, value: K -> V): map<K, V> {
    if n == 0 then map[] else Keyed(n - 1, key, value)[key(n - 1) := value(key(n - 1))]
  }

  lemma {:induction false} KeyedMember<K, V>(n: nat, key: nat -> K, value: K -> V, k: K) returns (i: nat)
    requires k in Keyed(n, key, value)
    ensures Keyed(n, key, value)[k] == value(k) && i < n && k == key(i)
  {
    i := n - 1;
    if k != key(i) {
      i := KeyedMember(n - 1, key, value, k);
    }
  }

  lemma {:induction false} KeyedSize<K, V>(n: nat, key: nat -> K, value: K -> V)
    requires forall i: nat, j: nat | i < j < n :: key(i) != key(j)
    ensures |Keyed(n, key, value)| == n
  {
    if n > 0 {
      KeyedSize(n - 1, key, value);
      var fewer := Keyed(n - 1, key, value);
      if key(n - 1) in fewer {
        var i := KeyedMember(n - 1, key, value, key(n - 1));
        assert false;
      }
    }
  }

  function WideKeys(now: nat): nat -> string
    requires |Decimal(now)| <= 20
  {
    (i: nat) => if i < WIDE_ENTRIES then WideKey(now, i) else ""
  }

  function WideValue(now: nat): string -> Entry {
    uri => WideEntry(now, uri)
  }

  lemma WideCacheSize(now: nat, n: nat)
    requires |Decimal(now)| <= 20 && n <= WIDE_ENTRIES
    ensures |Keyed(n, WideKeys(now), WideValue(now))| == n
  {
    forall i: nat, j: nat | i < j < n ensures WideKeys(now)(i) != WideKeys(now)(j) {
      if WideKeys(now)(i) == WideKeys(now)(j) {
        WideApart(now, i, j);
      }
    }
    KeyedSize(n, WideKeys(now), WideValue(now));
  }

  lemma WideKeyIs(now: nat, i: nat)
    requires |Decimal(now)| <= 20 && i < WIDE_ENTRIES
    ensures var key := WideKeys(now)(i);
            ValidEntry(key, WideValue(now)(key)) && EntrySize(key, WideValue(now)(key)) == 1024
  {
    WideNameIs(now, i);
    WideEntryIs(now, WideName(now, i));
  }

  lemma WideMember(now: nat, n: nat, entries: Entries, key: string)
    requires |Decimal(now)| <= 20 && n <= WIDE_ENTRIES && entries == Keyed(n, WideKeys(now), WideValue(now)) && key in entries
    ensures ValidEntry(key, entries[key]) && EntrySize(key, entries[key]) == 1024
  {
    var i := KeyedMember(n, WideKeys(now), WideValue(now), key);
    WideKeyIs(now, i);
  }

  /** A cache of `n` records of 1024 bytes each. */
  lemma WideCache(now: nat, n: nat) returns (entries: Entries)
    requires |Decimal(now)| <= 20 && n <= WIDE_ENTRIES
    ensures ValidEntries(entries) && |entries| == n && |Plain(entries)| == n * 1024
  {
    entries := Keyed(n, WideKeys(now), WideValue(now));
    WideCacheSize(now, n);
    forall key | key in entries ensures ValidEntry(key, entries[key]) && SizeIn(entries)(key) == 1024 {
      WideMember(now, n, entries, key);
    }
    PlainSize(entries, 1024);
  }

  /** A cache of valid entries, fewer than are allowed, whose encoding is exactly at the limit: it is
      written, and its own reader refuses it as too large. */
  lemma AtTheLimitRefused(now: nat) returns (w: Wire, entries: Entries)
    requires now < TIME_BOUND
    ensures w.Lawful() && ValidEntries(entries) && |entries| == WIDE_ENTRIES < MAX_CACHE_ENTRIES
    ensures |w.encode(entries)| == MAX_CACHE_BYTES
    ensures Persisted(w, entries).Some? && ResolverCache.Load(w, Persisted(w, entries)) == Err(TooLarge)
  {
    w := SampleWire();
    PlainWireLawful(SampleBody());
    TimeDigits(now);
    entries := WideCache(now, WIDE_ENTRIES);
    PersistThenLoad(w, entries);
  }
}

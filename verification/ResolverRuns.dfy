/** Safety of the advisory cache over every interleaving of calls, failures included. */
module ResolverRuns {
  import opened Wrappers
  import opened Utf8
  import opened OhUri
  import opened ResolverCache
  import opened AdvisoryResolver
  import opened Runs

  /** A file that `persist` wrote: valid, bounded entries and a newline. */
  ghost predicate PersistedForm(w: Wire, bytes: seq<Byte>, entries: Entries) {
    && ValidEntries(entries) && |entries| <= MAX_CACHE_ENTRIES
    && |w.encode(entries)| <= MAX_CACHE_BYTES && bytes == w.encode(entries) + [0x0A]
  }

  ghost predicate SoundFile(w: Wire, file: Option<seq<Byte>>) {
    file.Some? ==> exists entries :: PersistedForm(w, file.value, entries)
  }

  /** The lock holder's view is what the file holds now, or empty after a failed load. */
  ghost predicate SoundHolder(w: Wire, file: Option<seq<Byte>>, h: Holding) {
    && Preflight(h.call) == Ok(h.reference)
    && (h.entries == Loadable(w, file) || h.entries == map[])
  }

  ghost predicate Sound(w: Wire, s: Shared) {
    SoundFile(w, s.file) && (s.holder.Some? ==> SoundHolder(w, s.file, s.holder.value))
  }

  // ---- one event ----

  /** A file from which nothing but these entries can be served. */
  ghost predicate ServesOnly(w: Wire, file: Option<seq<Byte>>, entries: Entries) {
    forall key | key in Loadable(w, file) :: key in entries && Loadable(w, file)[key] == entries[key]
  }

  lemma PersistedServesOnly(w: Wire, entries: Entries)
    requires w.Lawful() && ValidEntries(entries)
    ensures ServesOnly(w, Persisted(w, entries), entries)
  {
    PrunedKeepsNewest(entries, MAX_CACHE_ENTRIES);
    if Persisted(w, entries).Some? {
      PersistThenLoad(w, entries);
    }
  }

  lemma PersistedSound(w: Wire, entries: Entries)
    requires ValidEntries(entries)
    ensures SoundFile(w, Persisted(w, entries))
  {
    var kept := PruneTo(entries, MAX_CACHE_ENTRIES);
    PrunedKeepsNewest(entries, MAX_CACHE_ENTRIES);
    ValidAfterPruning(entries, MAX_CACHE_ENTRIES);
    if Persisted(w, entries).Some? {
      assert PersistedForm(w, Persisted(w, entries).value, kept);
    }
  }

  lemma PreflightParses(call: Call)
    requires Preflight(call).Ok?
    ensures Parse(call.uri) == Ok(Preflight(call).value) && Preflight(call).value.uri == call.uri
  {
    ParseAcceptsExactlyPrinted(call.uri);
  }

  /** A 200 that is accepted describes the identity that was asked for. */
  lemma AcceptedEntryValid(w: Wire, call: Call, body: seq<Byte>)
    requires Preflight(call).Ok?
    requires ParseSuccess(w, Preflight(call).value, body, call.now).Some?
    ensures ValidEntry(call.uri, ParseSuccess(w, Preflight(call).value, body, call.now).value.0)
  {
    PreflightParses(call);
  }

  lemma StoredSound(w: Wire, h: Holding, file: Option<seq<Byte>>, reply: Reply, faults: Faults)
    requires w.Lawful() && SoundFile(w, file) && SoundHolder(w, file, h)
    ensures SoundFile(w, Stored(w, h.call, h.reference, h.entries, file, reply, faults))
  {
    PreflightParses(h.call);
    if reply.Reply? && reply.status == 200 {
      var success := ParseSuccess(w, h.reference, reply.body, h.call.now);
      if success.Some? {
        AcceptedEntryValid(w, h.call, reply.body);
        PersistedSound(w, h.entries[h.reference.uri := success.value.0]);
      }
    } else if IsDenial(reply) {
      PersistedSound(w, h.entries - {h.reference.uri});
    }
  }

  /** Every event keeps the shared state sound. */
  lemma EventKeepsSound(w: Wire, s: Shared, e: Event)
    requires w.Lawful() && Sound(w, s) && Apply(w, s, e).Some?
    ensures Sound(w, Apply(w, s, e).value)
  {
    if e.Finish? {
      var h := s.holder.value;
      StoredSound(w, h, s.file, Heard(h.call, e.reply), e.faults);
    }
  }

  predicate GrantsTo(w: Wire, h: Holding, reply: Reply, key: string, entry: Entry) {
    && h.reference.uri == key && reply.Reply? && reply.status == 200
    && ParseSuccess(w, h.reference, reply.body, h.call.now).Some?
    && ParseSuccess(w, h.reference, reply.body, h.call.now).value.0 == entry
  }

  /** A call gets past the checks in front of the cache exactly when it names a canonical
      reference of the expected kind and has a cache to use: the size limit plays no part. */
  lemma PreflightExactly(call: Call)
    ensures Preflight(call).Ok? <==>
            && call.resolver.cachePath.Some?
            && exists kind, id ::
                 ValidId(id) && call.uri == Print(kind, id) && (call.expectedKind.None? || call.expectedKind == Some(kind))
    ensures |Encode(call.uri)| > MAX_REFERENCE_INPUT_BYTES ==> Parse(call.uri).Err?
  {
    if |Encode(call.uri)| > MAX_REFERENCE_INPUT_BYTES {
      OversizeNeverValid(call.uri);
    }
    ParseAcceptsExactlyPrinted(call.uri);
    if Parse(call.uri).Ok? {
      var r := Parse(call.uri).value;
      forall kind, id | ValidId(id) && call.uri == Print(kind, id) ensures kind == r.kind {
        PrintInjective(kind, id, r.kind, r.id);
      }
      assert ValidId(r.id) && call.uri == Print(r.kind, r.id);
    }
  }

  /** This event is an accepted success for `key`, which yields `entry`. */
  predicate Grants(w: Wire, s: Shared, e: Event, key: string, entry: Entry) {
    && e.Finish? && s.holder.Some?
    && GrantsTo(w, s.holder.value, Heard(s.holder.value.call, e.reply), key, entry)
  }

  /** This event is a 401, 403 or 404 for `key`. */
  predicate Denies(s: Shared, e: Event, key: string) {
    && e.Finish? && s.holder.Some?
    && s.holder.value.reference.uri == key
    && IsDenial(Heard(s.holder.value.call, e.reply))
  }

  /** The denied identity survives: it was on file, and either its load failed, so there was
      nothing to remove, or neither rewriting nor deleting the file went through. */
  ghost predicate EvictionFails(w: Wire, s: Shared, e: Event, key: string)
    requires Denies(s, e, key)
  {
    var entries := s.holder.value.entries;
    && key in Loadable(w, s.file)
    && (key !in entries || (e.faults.remove && (e.faults.persist || Persisted(w, entries - {key}).None?)))
  }

  /** What is left of the evicted identity. */
  lemma EvictedServes(w: Wire, entries: Entries, file: Option<seq<Byte>>, key: string, persistFails: bool, removeFails: bool)
    requires w.Lawful() && (entries == Loadable(w, file) || entries == map[])
    ensures key in Loadable(w, Evicted(w, entries, file, key, persistFails, removeFails)) <==>
            && key in Loadable(w, file)
            && (key !in entries || (removeFails && (persistFails || Persisted(w, entries - {key}).None?)))
  {
    PersistedServesOnly(w, entries - {key});
  }

  /** A denial hides the identity exactly when its eviction does not fail. */
  lemma DenialHides(w: Wire, s: Shared, e: Event, key: string)
    requires w.Lawful() && Sound(w, s) && Denies(s, e, key)
    ensures Apply(w, s, e).Some?
    ensures key in Loadable(w, Apply(w, s, e).value.file) <==> EvictionFails(w, s, e, key)
  {
    EvictedServes(w, s.holder.value.entries, s.file, key, e.faults.persist, e.faults.remove);
  }

  lemma GrantedOrigin(w: Wire, h: Holding, body: seq<Byte>, key: string)
    requires w.Lawful() && Preflight(h.call) == Ok(h.reference) && ValidEntries(h.entries)
    requires ParseSuccess(w, h.reference, body, h.call.now).Some?
    requires var updated := h.entries[h.reference.uri := ParseSuccess(w, h.reference, body, h.call.now).value.0];
             key in Loadable(w, Persisted(w, updated))
    ensures var entry := ParseSuccess(w, h.reference, body, h.call.now).value.0;
            var found := Loadable(w, Persisted(w, h.entries[h.reference.uri := entry]))[key];
            (key == h.reference.uri && found == entry) || (key in h.entries && h.entries[key] == found)
  {
    AcceptedEntryValid(w, h.call, body);
    PreflightParses(h.call);
    PersistedServesOnly(w, h.entries[h.reference.uri := ParseSuccess(w, h.reference, body, h.call.now).value.0]);
  }

  /** What can be served after a reply was granted by it or could be served before. */
  lemma StoredOrigin(w: Wire, h: Holding, file: Option<seq<Byte>>, reply: Reply, faults: Faults, key: string)
    requires w.Lawful() && SoundHolder(w, file, h)
    requires key in Loadable(w, Stored(w, h.call, h.reference, h.entries, file, reply, faults))
    ensures var entry := Loadable(w, Stored(w, h.call, h.reference, h.entries, file, reply, faults))[key];
            GrantsTo(w, h, reply, key, entry) || (key in Loadable(w, file) && Loadable(w, file)[key] == entry)
  {
    if reply.Reply? && reply.status == 200 {
      var success := ParseSuccess(w, h.reference, reply.body, h.call.now);
      if success.Some? && !faults.persist && Persisted(w, h.entries[h.reference.uri := success.value.0]).Some? {
        GrantedOrigin(w, h, reply.body, key);
      }
    } else if IsDenial(reply) {
      PersistedServesOnly(w, h.entries - {h.reference.uri});
    }
  }

  /** An identity that can be served after an event was granted by it or could be served before,
      with the same record. */
  lemma EntryOrigin(w: Wire, s: Shared, e: Event, key: string)
    requires w.Lawful() && Sound(w, s) && Apply(w, s, e).Some?
    requires key in Loadable(w, Apply(w, s, e).value.file)
    ensures var entry := Loadable(w, Apply(w, s, e).value.file)[key];
            Grants(w, s, e, key, entry) || (key in Loadable(w, s.file) && Loadable(w, s.file)[key] == entry)
  {
    if e.Finish? {
      var h := s.holder.value;
      StoredOrigin(w, h, s.file, Heard(h.call, e.reply), e.faults, key);
    }
  }

  // ---- runs ----

  lemma RunApplies(w: Wire, run: Run<Shared, Event>, n: nat)
    requires IsRun(w, run) && n < |run.steps|
    ensures Apply(w, run.states[n], run.steps[n]) == Some(run.states[n + 1])
  {
    assert StepOf(w)(run.states[n], run.steps[n]) == Some(run.states[n + 1]);
  }

  lemma {:induction false} RunsAreSound(w: Wire, run: Run<Shared, Event>, n: nat)
    requires w.Lawful() && IsRun(w, run) && n < |run.states|
    ensures Sound(w, run.states[n])
  {
    if n > 0 {
      RunsAreSound(w, run, n - 1);
      RunApplies(w, run, n - 1);
      EventKeepsSound(w, run.states[n - 1], run.steps[n - 1]);
    }
  }

  /** Whatever happened, the cache file is absent or holds at most the allowed number of entries,
      each under its own canonical reference, of that reference's kind and with a version; and
      nothing but the one-byte boundary keeps its reader from accepting it. */
  lemma CacheFileAlwaysSound(w: Wire, run: Run<Shared, Event>, n: nat)
    requires w.Lawful() && IsRun(w, run) && n < |run.states|
    ensures var file := run.states[n].file;
            && SoundFile(w, file)
            && (file.Some? ==> (ResolverCache.Load(w, file).Ok? <==> |file.value| <= MAX_CACHE_BYTES))
  {
    RunsAreSound(w, run, n);
    var file := run.states[n].file;
    if file.Some? {
      var entries :| PersistedForm(w, file.value, entries);
      assert w.decode(w.encode(entries) + [0x0A]) == Some((CACHE_SCHEMA_VERSION, entries));
    }
  }

  predicate GrantedAt(w: Wire, run: Run<Shared, Event>, i: nat, key: string, entry: Entry) {
    i < |run.steps| && i < |run.states| && Grants(w, run.states[i], run.steps[i], key, entry)
  }

  predicate DeniedAt(run: Run<Shared, Event>, i: nat, key: string) {
    i < |run.steps| && i < |run.states| && Denies(run.states[i], run.steps[i], key)
  }

  ghost predicate EvictionFailsAt(w: Wire, run: Run<Shared, Event>, i: nat, key: string)
    requires DeniedAt(run, i, key)
  {
    EvictionFails(w, run.states[i], run.steps[i], key)
  }

  /** Event `j` is no denial of `key`, or one whose eviction fails. */
  ghost predicate Spares(w: Wire, run: Run<Shared, Event>, key: string, j: nat) {
    DeniedAt(run, j, key) ==> EvictionFailsAt(w, run, j, key)
  }

  /** Before event `n`, `entry` was granted at `i`, and every denial after that failed to evict. */
  ghost predicate StandsSince(w: Wire, run: Run<Shared, Event>, i: nat, n: nat, key: string, entry: Entry) {
    && i < n && GrantedAt(w, run, i, key, entry)
    && forall j: nat | i < j < n :: Spares(w, run, key, j)
  }

  lemma RunStep(w: Wire, run: Run<Shared, Event>, n: nat)
    requires w.Lawful() && IsRun(w, run) && n < |run.steps|
    ensures Sound(w, run.states[n]) && Apply(w, run.states[n], run.steps[n]) == Some(run.states[n + 1])
  {
    RunsAreSound(w, run, n);
    RunApplies(w, run, n);
  }

  /** This record can be served for `key` before event `n`. */
  ghost predicate ServableAt(w: Wire, run: Run<Shared, Event>, key: string, entry: Entry, n: nat) {
    n < |run.states| && key in Loadable(w, run.states[n].file) && Loadable(w, run.states[n].file)[key] == entry
  }

  lemma ServableStep(w: Wire, run: Run<Shared, Event>, n: nat, key: string, entry: Entry)
    requires w.Lawful() && IsRun(w, run) && ServableAt(w, run, key, entry, n + 1)
    ensures GrantedAt(w, run, n, key, entry) || (ServableAt(w, run, key, entry, n) && Spares(w, run, key, n))
  {
    var s, e := run.states[n], run.steps[n];
    RunStep(w, run, n);
    EntryOrigin(w, s, e, key);
    if Denies(s, e, key) {
      DenialHides(w, s, e, key);
    }
  }

  lemma NothingAtFirst(w: Wire, run: Run<Shared, Event>, key: string, entry: Entry)
    requires IsRun(w, run)
    ensures !ServableAt(w, run, key, entry, 0)
  {
  }

  ghost function ServableTest(w: Wire, run: Run<Shared, Event>, key: string, entry: Entry): nat -> bool {
    (k: nat) => ServableAt(w, run, key, entry, k)
  }

  ghost function GrantedTest(w: Wire, run: Run<Shared, Event>, key: string, entry: Entry): nat -> bool {
    (k: nat) => GrantedAt(w, run, k, key, entry)
  }

  ghost function SparesTest(w: Wire, run: Run<Shared, Event>, key: string): nat -> bool {
    (k: nat) => Spares(w, run, key, k)
  }

  lemma EveryStep(w: Wire, run: Run<Shared, Event>, key: string, entry: Entry)
    requires w.Lawful() && IsRun(w, run)
    ensures !ServableTest(w, run, key, entry)(0)
    ensures forall k: nat | ServableTest(w, run, key, entry)(k + 1) ::
              GrantedTest(w, run, key, entry)(k) || (ServableTest(w, run, key, entry)(k) && SparesTest(w, run, key)(k))
  {
    NothingAtFirst(w, run, key, entry);
    forall k: nat | ServableTest(w, run, key, entry)(k + 1)
      ensures GrantedTest(w, run, key, entry)(k) || (ServableTest(w, run, key, entry)(k) && SparesTest(w, run, key)(k))
    {
      ServableStep(w, run, k, key, entry);
    }
  }

  /** Everything that can be served stems from a success that no later denial undid. */
  lemma ServableStands(w: Wire, run: Run<Shared, Event>, n: nat, key: string, entry: Entry) returns (i: nat)
    requires w.Lawful() && IsRun(w, run) && ServableAt(w, run, key, entry, n)
    ensures StandsSince(w, run, i, n, key, entry)
  {
    EveryStep(w, run, key, entry);
    i := LastCause(n, ServableTest(w, run, key, entry), GrantedTest(w, run, key, entry), SparesTest(w, run, key));
    forall j: nat | i < j < n ensures Spares(w, run, key, j) {
      assert SparesTest(w, run, key)(j);
    }
  }

  /** The answer repeats the record. */
  predicate Repeats(a: Resolution, entry: Entry) {
    && a.reference == entry.reference && a.kind == Some(entry.kind) && a.lifecycle == Some(entry.lifecycle)
    && a.version == Some(entry.version) && a.checkedAt == Some(entry.checkedAt)
  }

  /** The call an answer belongs to. */
  function Asked(s: Shared, e: Event): Option<Call> {
    match e
    case Finish(_, _) => if s.holder.Some? then Some(s.holder.value.call) else None
    case Peek(call, _) => Some(call)
    case _ => None
  }

  /** The entries that call has loaded. */
  function InView(w: Wire, s: Shared, e: Event): Entries {
    match e
    case Finish(_, _) => if s.holder.Some? then s.holder.value.entries else map[]
    case Peek(_, loadFails) => LoadOrEmpty(w, s.file, loadFails)
    case _ => map[]
  }

  lemma ConcludeFromCache(w: Wire, call: Call, reference: OhReference, entries: Entries, reply: Reply)
    requires Conclude(w, call, reference, entries, reply).source == Cache
    ensures Conclude(w, call, reference, entries, reply) == FromCache(entries, reference.uri, call)
  {
  }

  /** An answer from the cache is the projection of a record in view. */
  lemma CacheAnswerProjects(w: Wire, s: Shared, e: Event) returns (key: string)
    requires Answer(w, s, e).Some? && Answer(w, s, e).value.source == Cache
    ensures Asked(s, e).Some? && key in InView(w, s, e)
    ensures Answer(w, s, e) == CachedResolution(InView(w, s, e), key, Asked(s, e).value.now, Asked(s, e).value.resolver.CacheTtl())
  {
    match e
    case Peek(call, loadFails) =>
      key := Preflight(call).value.uri;
    case Finish(reply, faults) =>
      var h := s.holder.value;
      key := h.reference.uri;
      ConcludeFromCache(w, h.call, h.reference, h.entries, Heard(h.call, reply));
  }

  lemma InViewIsOnFile(w: Wire, s: Shared, e: Event, key: string)
    requires Sound(w, s) && key in InView(w, s, e)
    ensures key in Loadable(w, s.file) && Loadable(w, s.file)[key] == InView(w, s, e)[key]
    ensures InView(w, s, e)[key].reference == key
  {
    assert ValidEntry(key, Loadable(w, s.file)[key]);
  }

  /** An answer from the cache repeats a record that can be served at that moment. */
  lemma CacheAnswerIsOnFile(w: Wire, s: Shared, e: Event)
    requires w.Lawful() && Sound(w, s)
    requires Answer(w, s, e).Some? && Answer(w, s, e).value.source == Cache
    ensures var a := Answer(w, s, e).value;
            a.reference in Loadable(w, s.file) && Repeats(a, Loadable(w, s.file)[a.reference])
  {
    var key := CacheAnswerProjects(w, s, e);
    InViewIsOnFile(w, s, e, key);
  }

  /** The safety rule: an answer served from the cache repeats the record of an earlier success
      for that very reference, and every denial of it since then failed to evict. */
  lemma CacheAnswersStand(w: Wire, run: Run<Shared, Event>, n: nat, e: Event) returns (i: nat, entry: Entry)
    requires w.Lawful() && IsRun(w, run) && n < |run.states|
    requires Answer(w, run.states[n], e).Some? && Answer(w, run.states[n], e).value.source == Cache
    ensures var a := Answer(w, run.states[n], e).value;
            StandsSince(w, run, i, n, a.reference, entry) && Repeats(a, entry)
  {
    RunsAreSound(w, run, n);
    CacheAnswerIsOnFile(w, run.states[n], e);
    var key := Answer(w, run.states[n], e).value.reference;
    entry := Loadable(w, run.states[n].file)[key];
    i := ServableStands(w, run, n, key, entry);
  }

  /** No denial of `key` before event `n` failed to evict. */
  ghost predicate EvictionsSucceed(w: Wire, run: Run<Shared, Event>, n: nat, key: string) {
    forall j: nat | j < n && DeniedAt(run, j, key) :: !EvictionFailsAt(w, run, j, key)
  }

  /** When evictions go through, a denied identity is not served again before a new success. */
  lemma DeniedStaysHidden(w: Wire, run: Run<Shared, Event>, n: nat, e: Event) returns (i: nat, entry: Entry)
    requires w.Lawful() && IsRun(w, run) && n < |run.states|
    requires Answer(w, run.states[n], e).Some? && Answer(w, run.states[n], e).value.source == Cache
    requires EvictionsSucceed(w, run, n, Answer(w, run.states[n], e).value.reference)
    ensures var a := Answer(w, run.states[n], e).value;
            && i < n && GrantedAt(w, run, i, a.reference, entry) && Repeats(a, entry)
            && forall j: nat | i < j < n :: !DeniedAt(run, j, a.reference)
  {
    i, entry := CacheAnswersStand(w, run, n, e);
    var key := Answer(w, run.states[n], e).value.reference;
    forall j: nat | i < j < n ensures !DeniedAt(run, j, key) {
      assert Spares(w, run, key, j);
    }
  }

  lemma FreshExactly(entries: Entries, key: string, now: nat, ttl: nat)
    requires key in entries
    ensures CachedResolution(entries, key, now, ttl).Some?
    ensures var a := CachedResolution(entries, key, now, ttl).value;
            && a.checkedAt.Some?
            && (a.state == Stale || a.state == Confirmed || a.state == Retired)
            && (a.state != Stale <==> a.checkedAt.value <= now <= a.checkedAt.value + ttl)
            && (a.state == Confirmed ==> a.lifecycle == Some(Active))
            && (a.state == Retired ==> a.lifecycle == Some(RetiredLifecycle))
  {
  }

  /** A cached answer is `Confirmed` or `Retired` exactly within the requested time, and a day at
      most, of the check it repeats, and stale outside that window. */
  lemma CachedFreshness(w: Wire, s: Shared, e: Event)
    requires Answer(w, s, e).Some? && Answer(w, s, e).value.source == Cache
    ensures Asked(s, e).Some?
    ensures var a := Answer(w, s, e).value;
            var call := Asked(s, e).value;
            && a.checkedAt.Some?
            && (a.state == Stale || a.state == Confirmed || a.state == Retired)
            && (a.state != Stale <==>
                && a.checkedAt.value <= call.now
                && call.now - a.checkedAt.value <= call.resolver.requestedTtl
                && call.now - a.checkedAt.value <= 86400)
            && (a.state == Confirmed ==> a.lifecycle == Some(Active))
            && (a.state == Retired ==> a.lifecycle == Some(RetiredLifecycle))
  {
    var key := CacheAnswerProjects(w, s, e);
    FreshExactly(InView(w, s, e), key, Asked(s, e).value.now, Asked(s, e).value.resolver.CacheTtl());
  }

  /** The check that a success records is the time of the call that made it. */
  lemma GrantRecordsItsTime(w: Wire, s: Shared, e: Event, key: string, entry: Entry)
    requires Grants(w, s, e, key, entry)
    ensures Asked(s, e).Some? && entry.checkedAt == Asked(s, e).value.now
    ensures entry.reference == key && entry.version != 0
  {
  }

  /** A cached answer is fresh exactly when it is asked for within the requested time, and a day at
      most, of the call that was granted it: a success no effective denial has followed. */
  lemma CachedAnswersAreRecent(w: Wire, run: Run<Shared, Event>, n: nat, e: Event) returns (i: nat, entry: Entry, granted: Call)
    requires w.Lawful() && IsRun(w, run) && n < |run.states|
    requires Answer(w, run.states[n], e).Some? && Answer(w, run.states[n], e).value.source == Cache
    ensures var a := Answer(w, run.states[n], e).value;
            && StandsSince(w, run, i, n, a.reference, entry) && Repeats(a, entry)
            && Asked(run.states[i], run.steps[i]) == Some(granted) && Asked(run.states[n], e).Some?
            && var asking := Asked(run.states[n], e).value;
               (a.state != Stale <==>
                && granted.now <= asking.now
                && asking.now - granted.now <= asking.resolver.requestedTtl
                && asking.now - granted.now <= 86400)
  {
    i, entry := CacheAnswersStand(w, run, n, e);
    CachedFreshness(w, run.states[n], e);
    GrantRecordsItsTime(w, run.states[i], run.steps[i], Answer(w, run.states[n], e).value.reference, entry);
    granted := Asked(run.states[i], run.steps[i]).value;
  }

  /** What each state of a network answer says about what the transport delivered; a denial
      gives away nothing but the reference. */
  lemma StatesMean(w: Wire, s: Shared, e: Event)
    requires e.Finish? && s.holder.Some?
    ensures Answer(w, s, e).Some?
    ensures var a, h := Answer(w, s, e).value, s.holder.value;
            var reply := Heard(h.call, e.reply);
            && (a.state == Unauthorized <==> reply.Reply? && reply.status in {401, 403})
            && (a.state == Unresolved <==> reply.Reply? && reply.status == 404)
            && (a.state == TypeMismatch <==> reply.Reply? && reply.status == 409)
            && (IsDenial(reply) ==> a == StateOnly(h.reference.uri, a.state))
            && (a.state in {Confirmed, Retired} && a.source == Network <==> exists entry :: Grants(w, s, e, h.reference.uri, entry))
            && (a.state == Unavailable ==> h.reference.uri !in h.entries)
  {
    var h := s.holder.value;
    var reply := Heard(h.call, e.reply);
    if reply.Reply? && reply.status == 200 && ParseSuccess(w, h.reference, reply.body, h.call.now).Some? {
      assert Grants(w, s, e, h.reference.uri, ParseSuccess(w, h.reference, reply.body, h.call.now).value.0);
    }
  }

  /** A success that is written becomes the servable cache, pruned to the newest entries; when its
      encoding lands on the byte limit the whole cache becomes unreadable instead. */
  lemma GrantStores(w: Wire, s: Shared, e: Event, key: string, entry: Entry)
    requires w.Lawful() && Sound(w, s) && Grants(w, s, e, key, entry) && !e.faults.persist
    requires Persisted(w, s.holder.value.entries[key := entry]).Some?
    ensures var kept := PruneTo(s.holder.value.entries[key := entry], MAX_CACHE_ENTRIES);
            && Apply(w, s, e).Some?
            && Loadable(w, Apply(w, s, e).value.file) == if |w.encode(kept)| < MAX_CACHE_BYTES then kept else map[]
  {
    var h := s.holder.value;
    AcceptedEntryValid(w, h.call, Heard(h.call, e.reply).body);
    PreflightParses(h.call);
    PersistThenLoad(w, h.entries[key := entry]);
  }

  // ---- calls as runs ----

  /** A call that nothing interleaves with extends a run by its own events. */
  lemma RunThenCall(w: Wire, run: Run<Shared, Event>, events: seq<Event>) returns (longer: Run<Shared, Event>)
    requires IsRun(w, run) && ApplyAll(w, run.states[|run.steps|], events).Some?
    ensures IsRun(w, longer) && longer.steps == run.steps + events && run.states <= longer.states
    ensures Some(longer.states[|longer.steps|]) == ApplyAll(w, run.states[|run.steps|], events)
  {
    longer := Extend(StepOf(w), run, events);
  }
}

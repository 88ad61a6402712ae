/** `resolve_at` over a shared cache file: one call, and every interleaving of calls. */
module AdvisoryResolver {
  import opened Wrappers
  import opened Utf8
  import opened OhUri
  import opened ResolverCache
  import opened Runs

  datatype State = Confirmed | Unresolved | Retired | TypeMismatch | Stale | Unauthorized | Unavailable

  datatype Source = Network | Cache | NoSource

  datatype Resolution = Resolution(
    reference: string, state: State, source: Source,
    kind: Option<Kind>, lifecycle: Option<Lifecycle>, version: Option<nat>, checkedAt: Option<nat>)

  function StateOnly(reference: string, state: State): Resolution {
    Resolution(reference, state, NoSource, None, None, None, None)
  }

  /** `new` caps the freshness window it is given. */
  datatype Resolver = Resolver(
    endpoint: Option<string>, apiKey: Option<string>, cachePath: Option<string>, requestedTtl: nat)
  {
    function CacheTtl(): nat {
      if requestedTtl <= MAX_CACHE_TTL_SECONDS then requestedTtl else MAX_CACHE_TTL_SECONDS
    }

    predicate Configured() {
      endpoint.Some? && apiKey.Some?
    }
  }

  datatype Call = Call(resolver: Resolver, uri: string, expectedKind: Option<Kind>, now: nat)

  /** What the transport delivered. */
  datatype Reply = Failed | Reply(status: nat, body: seq<Byte>)

  /** Which file operations fail for reasons outside the cache. */
  datatype Faults = Faults(persist: bool, remove: bool)

  // ---- the pieces of one call ----

  /** Everything `resolve_at` decides before it touches the cache. */
  function Preflight(call: Call): Result<OhReference, Resolution> {
    if |Encode(call.uri)| > MAX_REFERENCE_INPUT_BYTES then Err(StateOnly(OVERSIZE_REFERENCE_MARKER, Unresolved))
    else
      match Parse(call.uri)
      case Err(_) => Err(StateOnly(call.uri, Unresolved))
      case Ok(reference) =>
        if call.expectedKind.Some? && call.expectedKind.value != reference.kind then
          Err(Resolution(reference.uri, TypeMismatch, NoSource, Some(reference.kind), None, None, None))
        else if call.resolver.cachePath.None? then Err(StateOnly(reference.uri, Unavailable))
        else Ok(reference)
  }

  function LifecycleState(lifecycle: Lifecycle): State {
    match lifecycle
    case Active => Confirmed
    case RetiredLifecycle => Retired
  }

  function CachedResolution(entries: Entries, reference: string, now: nat, ttl: nat): Option<Resolution> {
    if reference !in entries then None
    else
      var e := entries[reference];
      var age := if now >= e.checkedAt then now - e.checkedAt else 0;
      var current := e.checkedAt <= now && age <= ttl;
      Some(Resolution(
        e.reference, if current then LifecycleState(e.lifecycle) else Stale, Cache,
        Some(e.kind), Some(e.lifecycle), Some(e.version), Some(e.checkedAt)))
  }

  function FromCache(entries: Entries, reference: string, call: Call): Resolution {
    match CachedResolution(entries, reference, call.now, call.resolver.CacheTtl())
    case Some(resolution) => resolution
    case None => StateOnly(reference, Unavailable)
  }

  function ParseSuccess(w: Wire, requested: OhReference, body: seq<Byte>, now: nat): Option<(Entry, Resolution)> {
    match w.decodeSuccess(body)
    case None => None
    case Some(r) =>
      if r.contractVersion != "v1" || r.reference != requested.uri || r.kind != requested.kind || r.version == 0
      then None
      else if !(r.outcome == "resolved" && r.lifecycle.Active?) && !(r.outcome == "retired" && r.lifecycle.RetiredLifecycle?)
      then None
      else
        Some((Entry(r.reference, r.kind, r.lifecycle, r.version, now),
              Resolution(r.reference, LifecycleState(r.lifecycle), Network,
                         Some(r.kind), Some(r.lifecycle), Some(r.version), Some(now))))
  }

  predicate IsDenial(reply: Reply) {
    reply.Reply? && reply.status in {401, 403, 404}
  }

  function Conclude(w: Wire, call: Call, reference: OhReference, entries: Entries, reply: Reply): Resolution {
    match reply
    case Failed => FromCache(entries, reference.uri, call)
    case Reply(status, body) =>
      if status == 200 then
        match ParseSuccess(w, reference, body, call.now)
        case Some((_, resolution)) => resolution
        case None => FromCache(entries, reference.uri, call)
      else if status == 404 then StateOnly(reference.uri, Unresolved)
      else if status == 409 then
        Resolution(reference.uri, TypeMismatch, Network, Some(reference.kind), None, None, Some(call.now))
      else if status == 401 || status == 403 then StateOnly(reference.uri, Unauthorized)
      else FromCache(entries, reference.uri, call)
  }

  /** The file once the reply has been dealt with. */
  ghost function Stored(w: Wire, call: Call, reference: OhReference, entries: Entries, file: Option<seq<Byte>>,
                        reply: Reply, faults: Faults): Option<seq<Byte>> {
    if reply.Reply? && reply.status == 200 then
      match ParseSuccess(w, reference, reply.body, call.now)
      case None => file
      case Some((entry, _)) =>
        var updated := entries[reference.uri := entry];
        if faults.persist || Persisted(w, updated).None? then file else Persisted(w, updated)
    else if IsDenial(reply) then Evicted(w, entries, file, reference.uri, faults.persist, faults.remove)
    else file
  }

  // ---- interleavings ----

  /** A call that holds the cache lock, with the entries it loaded under it. */
  datatype Holding = Holding(call: Call, reference: OhReference, entries: Entries)

  datatype Shared = Shared(file: Option<seq<Byte>>, holder: Option<Holding>)

  /** `Acquire`: an online call gets the lock and loads. `Finish`: its reply arrives and is dealt
      with. `Abandon`: it is dropped while waiting for the transport. `Peek`: an offline call, or
      one whose wait for the lock failed, reads without the lock. */
  datatype Event =
    | Acquire(call: Call, loadFails: bool)
    | Finish(reply: Reply, faults: Faults)
    | Abandon
    | Peek(call: Call, loadFails: bool)

  function LoadOrEmpty(w: Wire, file: Option<seq<Byte>>, fails: bool): Entries {
    if fails then map[] else Loadable(w, file)
  }

  /** The transport is asked only when endpoint and key are configured. */
  function Heard(call: Call, reply: Reply): Reply {
    if call.resolver.Configured() then reply else Failed
  }

  /** One event; `None` when it cannot happen in this state. */
  ghost function Apply(w: Wire, s: Shared, e: Event): Option<Shared> {
    match e
    case Acquire(call, loadFails) =>
      if s.holder.Some? || Preflight(call).Err? then None
      else Some(s.(holder := Some(Holding(call, Preflight(call).value, LoadOrEmpty(w, s.file, loadFails)))))
    case Finish(reply, faults) =>
      if s.holder.None? then None
      else
        var h := s.holder.value;
        Some(Shared(Stored(w, h.call, h.reference, h.entries, s.file, Heard(h.call, reply), faults), None))
    case Abandon => if s.holder.None? then None else Some(s.(holder := None))
    case Peek(call, _) => if Preflight(call).Err? then None else Some(s)
  }

  /** What the call that this event ends returns. */
  function Answer(w: Wire, s: Shared, e: Event): Option<Resolution> {
    match e
    case Finish(reply, _) =>
      if s.holder.None? then None
      else
        var h := s.holder.value;
        Some(Conclude(w, h.call, h.reference, h.entries, Heard(h.call, reply)))
    case Peek(call, loadFails) =>
      if Preflight(call).Err? then None
      else Some(FromCache(LoadOrEmpty(w, s.file, loadFails), Preflight(call).value.uri, call))
    case _ => None
  }

  const INITIAL := Shared(None, None)

  ghost function StepOf(w: Wire): (Shared, Event) -> Option<Shared> {
    (s, e) => Apply(w, s, e)
  }

  /** A run from an absent cache file. */
  ghost predicate IsRun(w: Wire, run: Run<Shared, Event>) {
    run.Follows(StepOf(w)) && run.states[0] == INITIAL
  }

  // ---- one call ----

  /** What happens around a call: whether it gets the lock, can read the file, is dropped while
      waiting, and what it hears. */
  datatype World = World(locked: bool, loadFails: bool, dropped: bool, reply: Reply, faults: Faults)

  /** The events one call contributes. */
  function EventsOf(call: Call, offline: bool, world: World): seq<Event> {
    if Preflight(call).Err? then []
    else if offline || !world.locked then [Peek(call, world.loadFails)]
    else if call.resolver.Configured() && world.dropped then [Acquire(call, world.loadFails), Abandon]
    else [Acquire(call, world.loadFails), Finish(world.reply, world.faults)]
  }

  ghost function ApplyAll(w: Wire, s: Shared, events: seq<Event>): Option<Shared> {
    After(StepOf(w), s, events)
  }

  /** The answer of a call whose events are these, started in `s`. */
  ghost function AnswerOf(w: Wire, s: Shared, events: seq<Event>): Option<Resolution>
    decreases |events|
  {
    if events == [] then None
    else if |events| == 1 then Answer(w, s, events[0])
    else
      match Apply(w, s, events[0])
      case None => None
      case Some(t) => AnswerOf(w, t, events[1..])
  }

  lemma OneEvent(w: Wire, s: Shared, e: Event)
    ensures ApplyAll(w, s, [e]) == Apply(w, s, e) && AnswerOf(w, s, [e]) == Answer(w, s, e)
  {
    AfterOne(StepOf(w), s, e);
  }

  lemma TwoEvents(w: Wire, s: Shared, e: Event, t: Shared, f: Event)
    requires Apply(w, s, e) == Some(t)
    ensures ApplyAll(w, s, [e, f]) == Apply(w, t, f) && AnswerOf(w, s, [e, f]) == Answer(w, t, f)
  {
    assert [e, f][1..] == [f];
    OneEvent(w, t, f);
  }

  /** The part of the reply's handling that changes the cache. */
  method Store(w: Wire, call: Call, reference: OhReference, cache: ResolutionCache, file: CacheFile,
               reply: Reply, faults: Faults)
    modifies cache, file
    ensures file.bytes == Stored(w, call, reference, old(cache.entries), old(file.bytes), reply, faults)
  {
    if reply.Failed? {
      return;
    }
    if reply.status == 200 {
      match ParseSuccess(w, reference, reply.body, call.now) {
        case None =>
        case Some((entry, _)) =>
          cache.entries := cache.entries[reference.uri := entry];
          var _ := cache.Persist(w, file, faults.persist);
      }
    } else if reply.status == 404 || reply.status == 401 || reply.status == 403 {
      EvictCachedReference(w, cache, file, reference.uri, faults.persist, faults.remove);
    }
  }

  /** The rest of an online call, with the lock held and the cache loaded. */
  method ResolveLocked(w: Wire, call: Call, reference: OhReference, cache: ResolutionCache, world: World, file: CacheFile)
    returns (answer: Option<Resolution>)
    requires Preflight(call) == Ok(reference) && world.locked
    requires cache.entries == LoadOrEmpty(w, file.bytes, world.loadFails)
    modifies file, cache
    ensures ApplyAll(w, Shared(old(file.bytes), None), EventsOf(call, false, world)) == Some(Shared(file.bytes, None))
    ensures answer == AnswerOf(w, Shared(old(file.bytes), None), EventsOf(call, false, world))
  {
    ghost var before := Shared(file.bytes, None);
    ghost var held := Shared(file.bytes, Some(Holding(call, reference, cache.entries)));
    ghost var last := if call.resolver.Configured() && world.dropped then Abandon else Finish(world.reply, world.faults);
    TwoEvents(w, before, Acquire(call, world.loadFails), held, last);
    if !call.resolver.Configured() {
      return Some(FromCache(cache.entries, reference.uri, call));
    }
    if world.dropped {
      return None;
    }
    answer := Some(Conclude(w, call, reference, cache.entries, world.reply));
    Store(w, call, reference, cache, file, world.reply, world.faults);
  }

  /** `resolve_at`: a run of its own events, and the answer that ends them. A dropped call
      returns nothing. */
  method ResolveAt(w: Wire, call: Call, offline: bool, world: World, file: CacheFile) returns (answer: Option<Resolution>)
    modifies file
    ensures ApplyAll(w, Shared(old(file.bytes), None), EventsOf(call, offline, world)) == Some(Shared(file.bytes, None))
    ensures answer == if Preflight(call).Err? then Some(Preflight(call).error)
                      else AnswerOf(w, Shared(old(file.bytes), None), EventsOf(call, offline, world))
  {
    var preflight := Preflight(call);
    if preflight.Err? {
      return Some(preflight.error);
    }
    var reference := preflight.value;
    var cache := new ResolutionCache.Loaded(w, file, world.loadFails);
    if offline || !world.locked {
      OneEvent(w, Shared(file.bytes, None), Peek(call, world.loadFails));
      return Some(FromCache(cache.entries, reference.uri, call));
    }
    answer := ResolveLocked(w, call, reference, cache, world, file);
  }
}

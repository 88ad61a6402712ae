/** What a call to the resolver answers and leaves on file, case by case, in terms of the reference,
    the reply and the cache entry alone. */
module ResolverMeaning {
  import opened Wrappers
  import opened Text
  import opened Utf8
  import opened OhUri
  import opened ResolverCache
  import opened AdvisoryResolver
  import opened ResolverRuns

  // ---- before the cache ----

  /** Nothing is known about the reference but its state. */
  predicate OnlySays(a: Resolution, reference: string, state: State) {
    && a.reference == reference && a.state == state && a.source == NoSource
    && a.kind == None && a.lifecycle == None && a.version == None && a.checkedAt == None
  }

  /** What is decided before the cache is touched: the marker for an input beyond 8 KiB, the state of
      a text that is no canonical reference or names another kind, and the want of a cache. */
  lemma PreflightMeans(call: Call)
    ensures |Encode(call.uri)| > 8192 ==>
              Preflight(call).Err? && OnlySays(Preflight(call).error, "<oversize-oh-reference>", Unresolved)
    ensures |Encode(call.uri)| <= 8192 && (forall kind, id :: ValidId(id) ==> call.uri != Print(kind, id)) ==>
              Preflight(call).Err? && OnlySays(Preflight(call).error, call.uri, Unresolved)
    ensures forall kind, id | ValidId(id) && call.uri == Print(kind, id) ::
              && (call.expectedKind.Some? && call.expectedKind.value != kind ==>
                    Preflight(call) == Err(Resolution(call.uri, TypeMismatch, NoSource, Some(kind), None, None, None)))
              && (call.expectedKind in {None, Some(kind)} && call.resolver.cachePath.None? ==>
                    Preflight(call).Err? && OnlySays(Preflight(call).error, call.uri, Unavailable))
              && (call.expectedKind in {None, Some(kind)} && call.resolver.cachePath.Some? ==>
                    Preflight(call) == Ok(OhReference(kind, id, call.uri)))
  {
    ParseAcceptsExactlyPrinted(call.uri);
    forall kind, id | ValidId(id) && call.uri == Print(kind, id)
      ensures Parse(call.uri) == Ok(OhReference(kind, id, call.uri)) && |Encode(call.uri)| <= 8192
    {
      ParsePrinted(kind, id);
      AcceptedLength(call.uri);
    }
  }

  // ---- what the cache says ----

  /** The answer repeats this cache entry, fresh or stale. */
  predicate TellsEntry(a: Resolution, entry: Entry, call: Call) {
    && a.reference == entry.reference && a.source == Cache
    && a.kind == Some(entry.kind) && a.lifecycle == Some(entry.lifecycle)
    && a.version == Some(entry.version) && a.checkedAt == Some(entry.checkedAt)
    && a.state ==
       if entry.checkedAt > call.now || call.now - entry.checkedAt > call.resolver.requestedTtl
          || call.now - entry.checkedAt > 86400 then Stale
       else if entry.lifecycle == Active then Confirmed
       else Retired
  }

  /** The cache entry for the reference, or that there is none to be had. */
  predicate TellsCache(a: Resolution, entries: Entries, uri: string, call: Call) {
    if uri in entries then TellsEntry(a, entries[uri], call) else OnlySays(a, uri, Unavailable)
  }

  lemma FromCacheTells(entries: Entries, uri: string, call: Call)
    ensures TellsCache(FromCache(entries, uri, call), entries, uri, call)
  {
  }

  // ---- what a reply says ----

  /** The body confirms or retires the reference that was asked for. */
  predicate Confirms(w: Wire, reference: OhReference, body: seq<Byte>) {
    && w.decodeSuccess(body).Some?
    && var r := w.decodeSuccess(body).value;
       && r.contractVersion == "v1" && r.reference == reference.uri && r.kind == reference.kind && r.version > 0
       && ((r.outcome == "resolved" && r.lifecycle == Active) || (r.outcome == "retired" && r.lifecycle == RetiredLifecycle))
  }

  /** The entry such a body gives rise to. */
  function EntryFor(w: Wire, reference: OhReference, body: seq<Byte>, now: nat): Entry
    requires Confirms(w, reference, body)
  {
    var r := w.decodeSuccess(body).value;
    Entry(reference.uri, reference.kind, r.lifecycle, r.version, now)
  }

  /** The answer repeats what the resolver was just told. */
  predicate TellsSuccess(a: Resolution, entry: Entry) {
    && a.reference == entry.reference && a.source == Network
    && a.kind == Some(entry.kind) && a.lifecycle == Some(entry.lifecycle)
    && a.version == Some(entry.version) && a.checkedAt == Some(entry.checkedAt)
    && a.state == if entry.lifecycle == Active then Confirmed else Retired
  }

  lemma SuccessMeans(w: Wire, reference: OhReference, body: seq<Byte>, now: nat)
    ensures ParseSuccess(w, reference, body, now).Some? <==> Confirms(w, reference, body)
    ensures Confirms(w, reference, body) ==>
              var (entry, a) := ParseSuccess(w, reference, body, now).value;
              entry == EntryFor(w, reference, body, now) && TellsSuccess(a, entry)
  {
  }

  /** The reply a call acts on: none, unless endpoint and key are there to ask with. */
  predicate Asks(call: Call) {
    call.resolver.endpoint.Some? && call.resolver.apiKey.Some?
  }

  /** What the end of a call answers: a confirmed or retired success, a refusal, a kind that differs,
      and in every other case what the cache says. */
  lemma AnswerMeans(w: Wire, s: Shared, e: Event)
    requires e.Finish? && s.holder.Some?
    ensures Answer(w, s, e).Some?
    ensures var a, h, uri := Answer(w, s, e).value, s.holder.value, s.holder.value.reference.uri;
            if !Asks(h.call) || e.reply.Failed? then TellsCache(a, h.entries, uri, h.call)
            else if e.reply.status == 200 && Confirms(w, h.reference, e.reply.body) then
              TellsSuccess(a, EntryFor(w, h.reference, e.reply.body, h.call.now))
            else if e.reply.status == 404 then OnlySays(a, uri, Unresolved)
            else if e.reply.status in {401, 403} then OnlySays(a, uri, Unauthorized)
            else if e.reply.status == 409 then
              a == Resolution(uri, TypeMismatch, Network, Some(h.reference.kind), None, None, Some(h.call.now))
            else TellsCache(a, h.entries, uri, h.call)
  {
    var h := s.holder.value;
    FromCacheTells(h.entries, h.reference.uri, h.call);
    if e.reply.Reply? {
      SuccessMeans(w, h.reference, e.reply.body, h.call.now);
    }
  }

  /** What an offline call, or one that did not get the lock, answers. */
  lemma PeekMeans(w: Wire, s: Shared, e: Event)
    requires e.Peek? && Preflight(e.call).Ok?
    ensures Answer(w, s, e).Some?
    ensures TellsCache(Answer(w, s, e).value, if e.loadFails then map[] else Loadable(w, s.file), e.call.uri, e.call)
  {
    PreflightParses(e.call);
    FromCacheTells(if e.loadFails then map[] else Loadable(w, s.file), e.call.uri, e.call);
  }

  // ---- what is on file ----

  /** Bytes that hold these entries and that the reader accepts. */
  ghost predicate Readable(w: Wire, bytes: seq<Byte>, entries: Entries) {
    && |bytes| <= 8388608 && w.decode(bytes) == Some((1, entries)) && |entries| <= 10000
    && forall key | key in entries ::
         && entries[key].reference == key && entries[key].version > 0
         && exists id :: ValidId(id) && key == Print(entries[key].kind, id)
  }

  lemma EntryMeans(key: string, e: Entry)
    ensures ValidEntry(key, e) <==>
            e.reference == key && e.version > 0 && exists id :: ValidId(id) && key == Print(e.kind, id)
  {
    ParseAcceptsExactlyPrinted(key);
    if id :| ValidId(id) && key == Print(e.kind, id) {
      ParsePrinted(e.kind, id);
    }
  }

  /** A file is read exactly when it is at most 8 MiB long, has schema 1 and at most 10,000 entries,
      each under its own canonical reference, of that kind and with a version. */
  lemma LoadMeans(w: Wire, bytes: seq<Byte>)
    ensures forall entries :: ResolverCache.Load(w, Some(bytes)) == Ok(entries) <==> Readable(w, bytes, entries)
    ensures ResolverCache.Load(w, None) == Ok(map[])
  {
    forall key, e ensures ValidEntry(key, e) <==>
      e.reference == key && e.version > 0 && exists id :: ValidId(id) && key == Print(e.kind, id)
    {
      EntryMeans(key, e);
    }
  }

  /** Which error a file is refused with: the first that applies. */
  lemma LoadErrorMeans(w: Wire, bytes: seq<Byte>)
    requires ResolverCache.Load(w, Some(bytes)).Err?
    ensures ResolverCache.Load(w, Some(bytes)).error ==
            if |bytes| > 8388608 then TooLarge
            else
              match w.decode(bytes)
              case None => Malformed
              case Some((schema, entries)) =>
                if schema != 1 then WrongSchema else if |entries| > 10000 then TooManyEntries else InvalidEntry
  {
  }

  /** `kept` are the newest `limit` of these entries, by the time of their check and then by key. */
  ghost predicate Newest(entries: Entries, kept: Entries, limit: nat) {
    && (forall key | key in kept :: key in entries && kept[key] == entries[key])
    && |kept| == (if |entries| < limit then |entries| else limit)
    && forall gone, key | gone in entries && gone !in kept && key in kept ::
         || entries[gone].checkedAt < entries[key].checkedAt
         || (entries[gone].checkedAt == entries[key].checkedAt && gone != key && StrLe(gone, key))
  }

  /** Written are the newest 10,000 entries, unless their encoding is longer than 8 MiB. */
  lemma PersistMeans(w: Wire, entries: Entries)
    ensures var kept := PruneTo(entries, 10000);
            && Newest(entries, kept, 10000)
            && Persisted(w, entries) == if |w.encode(kept)| > 8388608 then None else Some(w.encode(kept) + [0x0A])
  {
    PrunedKeepsNewest(entries, 10000);
  }

  /** The file once a call has ended: rewritten by a success with the new entry in place, by a
      refusal without the entry, or removed when that fails; and otherwise as it was. */
  lemma FileMeans(w: Wire, s: Shared, e: Event)
    requires e.Finish? && s.holder.Some?
    ensures Apply(w, s, e).Some? && Apply(w, s, e).value.holder.None?
    ensures var h, uri, after := s.holder.value, s.holder.value.reference.uri, Apply(w, s, e).value.file;
            if !Asks(h.call) || e.reply.Failed? then after == s.file
            else if e.reply.status == 200 && Confirms(w, h.reference, e.reply.body) then
              var updated := h.entries[uri := EntryFor(w, h.reference, e.reply.body, h.call.now)];
              after == if e.faults.persist || Persisted(w, updated).None? then s.file else Persisted(w, updated)
            else if e.reply.status in {401, 403, 404} && uri in h.entries then
              after == if !e.faults.persist && Persisted(w, h.entries - {uri}).Some? then Persisted(w, h.entries - {uri})
                       else if e.faults.remove then s.file
                       else None
            else after == s.file
  {
    var h := s.holder.value;
    if e.reply.Reply? {
      SuccessMeans(w, h.reference, e.reply.body, h.call.now);
    }
  }

  /** A call gets the lock when it is free, holds what it can read, and changes nothing yet. */
  lemma AcquireMeans(w: Wire, s: Shared, call: Call, loadFails: bool)
    requires Preflight(call).Ok?
    ensures Apply(w, s, Acquire(call, loadFails)).Some? <==> s.holder.None?
    ensures s.holder.None? ==>
              var t := Apply(w, s, Acquire(call, loadFails)).value;
              && t.file == s.file && t.holder.Some? && t.holder.value.call == call
              && t.holder.value.reference == Preflight(call).value
              && t.holder.value.entries == if loadFails then map[] else Loadable(w, s.file)
  {
  }

  /** A call that is answered before the cache is touched takes no part in what happens to it. */
  lemma NotInvolved(w: Wire, s: Shared, call: Call, loadFails: bool)
    requires Preflight(call).Err?
    ensures Apply(w, s, Acquire(call, loadFails)).None? && Apply(w, s, Peek(call, loadFails)).None?
    ensures Answer(w, s, Peek(call, loadFails)).None?
  {
  }

  /** Letting go of the lock, or reading without it, changes nothing. */
  lemma NothingHappens(w: Wire, s: Shared, call: Call, loadFails: bool)
    requires Preflight(call).Ok?
    ensures Apply(w, s, Abandon) == if s.holder.Some? then Some(Shared(s.file, None)) else None
    ensures Apply(w, s, Peek(call, loadFails)) == Some(s)
  {
  }
}

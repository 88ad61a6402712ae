/** A concrete serialisation of the cache, in place of JSON: the laws asked of a `Wire` can be met. */
module CacheWire {
  import opened Wrappers
  import opened Sorting
  import opened Text
  import opened Utf8
  import opened OhUri
  import opened ResolverCache
  import opened TerminatedText

  // ---- entries as strings ----

  function LifecycleText(lifecycle: Lifecycle): string {
    if lifecycle.Active? then "active" else "retired"
  }

  function EntryFields(key: string, e: Entry): (fields: seq<string>)
    ensures |fields| == 6
  {
    [key, e.reference, KindText(e.kind), LifecycleText(e.lifecycle), Decimal(e.version), Decimal(e.checkedAt)]
  }

  lemma EntryFieldsInjective(key: string, e: Entry, key': string, e': Entry)
    requires EntryFields(key, e) == EntryFields(key', e')
    ensures key == key' && e == e'
  {
    var f, f' := EntryFields(key, e), EntryFields(key', e');
    assert f[0] == f'[0] && f[1] == f'[1] && f[2] == f'[2] && f[3] == f'[3] && f[4] == f'[4] && f[5] == f'[5];
    KindRoundTrip(e.kind);
    KindRoundTrip(e'.kind);
    assert |LifecycleText(e.lifecycle)| == |LifecycleText(e'.lifecycle)|;
    DecimalInjective(e.version, e'.version);
    DecimalInjective(e.checkedAt, e'.checkedAt);
  }

  function Fields(entries: Entries, keys: seq<string>): (fields: seq<string>)
    requires forall key | key in keys :: key in entries
  {
    if keys == [] then [] else EntryFields(keys[0], entries[keys[0]]) + Fields(entries, keys[1..])
  }

  lemma {:induction false} FieldsInjective(a: Entries, k: seq<string>, b: Entries, l: seq<string>)
    requires (forall key | key in k :: key in a) && (forall key | key in l :: key in b)
    requires Fields(a, k) == Fields(b, l)
    ensures k == l && forall key | key in k :: a[key] == b[key]
  {
    if k != [] && l != [] {
      var f, g := Fields(a, k), Fields(b, l);
      assert f[..6] == EntryFields(k[0], a[k[0]]) && g[..6] == EntryFields(l[0], b[l[0]]);
      EntryFieldsInjective(k[0], a[k[0]], l[0], b[l[0]]);
      assert f[6..] == Fields(a, k[1..]) && g[6..] == Fields(b, l[1..]);
      FieldsInjective(a, k[1..], b, l[1..]);
      assert k == [k[0]] + k[1..] && l == [l[0]] + l[1..];
    }
  }

  ghost function Plain(entries: Entries): seq<Byte> {
    Terminate(Fields(entries, AscendingKeys(entries)))
  }

  lemma PlainInjective(a: Entries, b: Entries)
    requires Plain(a) == Plain(b)
    ensures a == b
  {
    var k, l := AscendingKeys(a), AscendingKeys(b);
    TerminateInjective(Fields(a, k), Fields(b, l));
    FieldsInjective(a, k, b, l);
    assert forall key :: key in a <==> key in k;
    assert forall key :: key in b <==> key in l;
  }

  // ---- sizes ----

  function EntrySize(key: string, e: Entry): nat {
    |Terminate(EntryFields(key, e))|
  }

  lemma SixFields(fields: seq<string>)
    requires |fields| == 6
    ensures Length(fields, 6) == |Encode(fields[0])| + |Encode(fields[1])| + |Encode(fields[2])| + |Encode(fields[3])|
                                 + |Encode(fields[4])| + |Encode(fields[5])| + 6
  {
    assert Length(fields, 1) == |Encode(fields[0])| + 1;
    assert Length(fields, 2) == Length(fields, 1) + |Encode(fields[1])| + 1;
    assert Length(fields, 3) == Length(fields, 2) + |Encode(fields[2])| + 1;
    assert Length(fields, 4) == Length(fields, 3) + |Encode(fields[3])| + 1;
    assert Length(fields, 5) == Length(fields, 4) + |Encode(fields[4])| + 1;
  }

  lemma EntrySizeIs(key: string, e: Entry)
    ensures EntrySize(key, e) ==
            |Encode(key)| + |Encode(e.reference)| + |KindText(e.kind)| + |LifecycleText(e.lifecycle)|
            + |Decimal(e.version)| + |Decimal(e.checkedAt)| + 6
  {
    WholeLength(EntryFields(key, e));
    SixFields(EntryFields(key, e));
    TextsAscii(e);
  }

  lemma TextsAscii(e: Entry)
    ensures |Encode(KindText(e.kind))| == |KindText(e.kind)|
    ensures |Encode(LifecycleText(e.lifecycle))| == |LifecycleText(e.lifecycle)|
    ensures |Encode(Decimal(e.version))| == |Decimal(e.version)|
    ensures |Encode(Decimal(e.checkedAt))| == |Decimal(e.checkedAt)|
  {
    EncodeAscii(KindText(e.kind));
    EncodeAscii(LifecycleText(e.lifecycle));
    DecimalAscii(e.version);
    DecimalAscii(e.checkedAt);
  }

  lemma FirstFieldsSize(entries: Entries, keys: seq<string>)
    requires keys != [] && forall key | key in keys :: key in entries
    ensures |Terminate(Fields(entries, keys))| ==
            EntrySize(keys[0], entries[keys[0]]) + |Terminate(Fields(entries, keys[1..]))|
  {
    FlatMapConcat(EntryFields(keys[0], entries[keys[0]]), Fields(entries, keys[1..]), Terminated);
  }

  function SizeIn(entries: Entries): string -> nat {
    key => if key in entries then EntrySize(key, entries[key]) else 0
  }

  function Sum(keys: seq<string>, sizeOf: string -> nat): nat {
    if keys == [] then 0 else sizeOf(keys[0]) + Sum(keys[1..], sizeOf)
  }

  lemma {:induction false} SumOfEqual(keys: seq<string>, sizeOf: string -> nat, size: nat)
    requires forall key | key in keys :: sizeOf(key) == size
    ensures Sum(keys, sizeOf) == |keys| * size
  {
    if keys != [] {
      assert keys[0] in keys;
      SumOfEqual(keys[1..], sizeOf, size);
      assert |keys| * size == size + (|keys| - 1) * size;
    }
  }

  lemma {:induction false} FieldsSize(entries: Entries, keys: seq<string>)
    requires forall key | key in keys :: key in entries
    ensures |Terminate(Fields(entries, keys))| == Sum(keys, SizeIn(entries))
  {
    if keys != [] {
      FieldsSize(entries, keys[1..]);
      FirstFieldsSize(entries, keys);
    }
  }

  /** Entries of one size. */
  lemma PlainSize(entries: Entries, size: nat)
    requires forall key | key in entries :: SizeIn(entries)(key) == size
    ensures |Plain(entries)| == |entries| * size
  {
    var keys := AscendingKeys(entries);
    FieldsSize(entries, keys);
    SumOfEqual(keys, SizeIn(entries), size);
  }

  lemma SingleSize(entries: Entries, key: string)
    requires entries.Keys == {key}
    ensures |Plain(entries)| == SizeIn(entries)(key)
  {
    assert |entries| == |entries.Keys| == 1;
    PlainSize(entries, SizeIn(entries)(key));
  }

  // ---- the wire ----

  ghost function Versioned(read: seq<Byte> -> Option<Entries>): seq<Byte> -> Option<(nat, Entries)> {
    (bytes: seq<Byte>) =>
      match read(bytes)
      case None => None
      case Some(entries) => Some((CACHE_SCHEMA_VERSION, entries))
  }

  ghost function WireOf(encode: Entries -> seq<Byte>, success: seq<Byte> -> Option<ResolverSuccess>): Wire {
    Wire(encode, Versioned(ReadBack(encode)), success)
  }

  lemma WireLawful(encode: Entries -> seq<Byte>, success: seq<Byte> -> Option<ResolverSuccess>)
    requires Injective(encode)
    ensures WireOf(encode, success).Lawful()
  {
    forall e: Entries ensures Versioned(ReadBack(encode))(encode(e) + [0x0A]) == Some((CACHE_SCHEMA_VERSION, e)) {
      ReadsBack(encode, e);
    }
  }

  ghost function PlainWire(success: seq<Byte> -> Option<ResolverSuccess>): (w: Wire)
    ensures w.decodeSuccess == success && forall entries :: w.encode(entries) == Plain(entries)
  {
    WireOf(e => Plain(e), success)
  }

  lemma PlainWireLawful(success: seq<Byte> -> Option<ResolverSuccess>)
    ensures PlainWire(success).Lawful()
  {
    var encode: Entries -> seq<Byte> := e => Plain(e);
    forall a, b | encode(a) == encode(b) ensures a == b {
      PlainInjective(a, b);
    }
    WireLawful(encode, success);
  }
}

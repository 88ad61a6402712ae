/** The `oh://v1/<kind>/<id>` codec: percent-encoding after section 2.1 of RFC 3986 with the
    unescaped set of `encodeURIComponent` in ECMA-262. */
module OhUri {
  import opened Wrappers
  import opened Text
  import opened Utf8

  datatype Kind = Context | Endeavor | Metis | Guardrail | DivePack | Log

  const MAX_REFERENCE_INPUT_BYTES: nat := 8 * 1024
  const MAX_ID_UNITS: nat := 512

  function KindText(kind: Kind): (text: string)
    ensures 3 <= |text| <= 9
    ensures forall c | c in text :: 'a' <= c <= 'z' || c == '_'
  {
    match kind
    case Context => "context"
    case Endeavor => "endeavor"
    case Metis => "metis"
    case Guardrail => "guardrail"
    case DivePack => "dive_pack"
    case Log => "log"
  }

  function ParseKind(text: string): Option<Kind> {
    if text == "context" then Some(Context)
    else if text == "endeavor" then Some(Endeavor)
    else if text == "metis" then Some(Metis)
    else if text == "guardrail" then Some(Guardrail)
    else if text == "dive_pack" then Some(DivePack)
    else if text == "log" then Some(Log)
    else None
  }

  lemma KindRoundTrip(kind: Kind)
    ensures ParseKind(KindText(kind)) == Some(kind)
  {
    match kind
    case Context =>
    case Endeavor =>
    case Metis =>
    case Guardrail => assert KindText(kind)[0] == 'g';
    case DivePack => assert KindText(kind)[0] == 'd';
    case Log =>
  }

  // ---- percent encoding ----

  predicate Unescaped(b: Byte) {
    var c := b as char;
    IsAsciiLetterOrDigit(c) || c in {'-', '_', '.', '!', '~', '*', '\'', '(', ')'}
  }

  function UpperHex(d: nat): char
    requires d < 16
  {
    if d < 10 then (d + 48) as char else (d + 55) as char
  }

  /** Digits of either case, as a byte of the input. */
  function HexValue(b: Byte): (v: Option<nat>)
    ensures v.Some? ==> v.value < 16
  {
    if 48 <= b <= 57 then Some(b - 48)
    else if 97 <= b <= 102 then Some(b - 87)
    else if 65 <= b <= 70 then Some(b - 55)
    else None
  }

  function EscapeByte(b: Byte): string {
    if Unescaped(b) then [b as char] else ['%', UpperHex(b / 16), UpperHex(b % 16)]
  }

  function EscapeBytes(bytes: seq<Byte>): string {
    if bytes == [] then "" else EscapeByte(bytes[0]) + EscapeBytes(bytes[1..])
  }

  function UnescapeBytes(b: seq<Byte>): Option<seq<Byte>> {
    if b == [] then Some([])
    else if b[0] == 37 then
      if |b| < 3 || HexValue(b[1]).None? || HexValue(b[2]).None? then None
      else
        match UnescapeBytes(b[3..])
        case None => None
        case Some(rest) => Some([16 * HexValue(b[1]).value + HexValue(b[2]).value] + rest)
    else
      match UnescapeBytes(b[1..])
      case None => None
      case Some(rest) => Some([b[0]] + rest)
  }

  function PercentEncoded(id: string): string {
    EscapeBytes(Encode(id))
  }

  function PercentDecoded(segment: string): Option<string> {
    match UnescapeBytes(Encode(segment))
    case None => None
    case Some(bytes) => Decode(bytes)
  }

  method PercentEncode(value: string) returns (encoded: string)
    ensures encoded == PercentEncoded(value)
  {
    var bytes := Encode(value);
    encoded := "";
    for i := 0 to |bytes|
      invariant encoded + EscapeBytes(bytes[i..]) == EscapeBytes(bytes)
    {
      assert bytes[i..][0] == bytes[i] && bytes[i..][1..] == bytes[i + 1..];
      encoded := encoded + EscapeByte(bytes[i]);
    }
  }

  /** What the bytes still ahead contribute to an already decoded front. */
  function Resumed(front: seq<Byte>, ahead: Option<seq<Byte>>): Option<seq<Byte>> {
    match ahead
    case None => None
    case Some(rest) => Some(front + rest)
  }

  lemma ResumedAppend(front: seq<Byte>, x: Byte, ahead: Option<seq<Byte>>)
    ensures Resumed(front, Resumed([x], ahead)) == Resumed(front + [x], ahead)
    ensures Resumed([], ahead) == ahead
  {
    if ahead.Some? {
      assert front + ([x] + ahead.value) == front + [x] + ahead.value;
      assert [] + ahead.value == ahead.value;
    }
  }

  method PercentDecode(value: string) returns (decoded: Option<string>)
    ensures decoded == PercentDecoded(value)
  {
    var bytes := Encode(value);
    var front: seq<Byte> := [];
    var index := 0;
    ResumedAppend(front, 0, UnescapeBytes(bytes));
    assert bytes[0..] == bytes;
    while index < |bytes|
      invariant index <= |bytes|
      invariant Resumed(front, UnescapeBytes(bytes[index..])) == UnescapeBytes(bytes)
    {
      var ahead := bytes[index..];
      if bytes[index] == 37 {
        if index + 2 >= |bytes| {
          return None;
        }
        var high := HexValue(bytes[index + 1]);
        if high.None? {
          return None;
        }
        var low := HexValue(bytes[index + 2]);
        if low.None? {
          return None;
        }
        assert ahead[3..] == bytes[index + 3..];
        assert UnescapeBytes(ahead) == Resumed([16 * high.value + low.value], UnescapeBytes(bytes[index + 3..]));
        ResumedAppend(front, 16 * high.value + low.value, UnescapeBytes(bytes[index + 3..]));
        front := front + [16 * high.value + low.value];
        index := index + 3;
      } else {
        assert ahead[1..] == bytes[index + 1..];
        assert UnescapeBytes(ahead) == Resumed([bytes[index]], UnescapeBytes(bytes[index + 1..]));
        ResumedAppend(front, bytes[index], UnescapeBytes(bytes[index + 1..]));
        front := front + [bytes[index]];
        index := index + 1;
      }
    }
    assert bytes[index..] == [] && front + [] == front;
    return Decode(front);
  }

  predicate UriChar(c: char) {
    c as int < 0x80 && c != '/' && c != '?' && c != '#'
  }

  lemma EscapeByteChars(b: Byte)
    ensures 1 <= |EscapeByte(b)| <= 3
    ensures forall c | c in EscapeByte(b) :: UriChar(c)
  {
  }

  lemma {:induction false} EscapeChars(bytes: seq<Byte>)
    ensures |bytes| <= |EscapeBytes(bytes)| <= 3 * |bytes|
    ensures forall c | c in EscapeBytes(bytes) :: UriChar(c)
  {
    if bytes != [] {
      EscapeByteChars(bytes[0]);
      EscapeChars(bytes[1..]);
    }
  }

  lemma UnescapeOne(b: Byte, rest: seq<Byte>)
    ensures UnescapeBytes(Encode(EscapeByte(b)) + rest) == Resumed([b], UnescapeBytes(rest))
  {
    var e := EscapeByte(b);
    EscapeByteChars(b);
    EncodeAscii(e);
    var s := Encode(e) + rest;
    if Unescaped(b) {
      assert s[0] == b && b != 37;
      assert s[1..] == rest;
    } else {
      assert s[0] == 37 && s[1] == UpperHex(b / 16) as int && s[2] == UpperHex(b % 16) as int;
      assert HexValue(s[1]) == Some(b / 16) && HexValue(s[2]) == Some(b % 16);
      assert s[3..] == rest;
    }
  }

  lemma {:induction false} UnescapeEscape(bytes: seq<Byte>)
    ensures UnescapeBytes(Encode(EscapeBytes(bytes))) == Some(bytes)
  {
    if bytes != [] {
      UnescapeEscape(bytes[1..]);
      EncodeConcat(EscapeByte(bytes[0]), EscapeBytes(bytes[1..]));
      UnescapeOne(bytes[0], Encode(EscapeBytes(bytes[1..])));
      assert bytes == [bytes[0]] + bytes[1..];
    }
  }

  /** Decoding undoes encoding, for every string. */
  lemma PercentRoundTrip(id: string)
    ensures PercentDecoded(PercentEncoded(id)) == Some(id)
  {
    UnescapeEscape(Encode(id));
    DecodeEncode(id);
  }

  // ---- references ----

  datatype OhReference = OhReference(kind: Kind, id: string, uri: string)

  datatype UriError =
    | UnsupportedUri | QueryOrFragment | UnsupportedKind | MissingId | ExtraSegment
    | InvalidEscape | InvalidId | NotCanonical

  const PREFIX := "oh://v1/"

  predicate ValidId(id: string) {
    id != "" && '/' !in id && Utf16Units(id) <= MAX_ID_UNITS
  }

  function Print(kind: Kind, id: string): string {
    PREFIX + (KindText(kind) + ['/'] + PercentEncoded(id))
  }

  function ParseRemainder(value: string, remainder: string): Result<OhReference, UriError> {
    if '?' in remainder || '#' in remainder then Err(QueryOrFragment)
    else
      var segments := Split(remainder, '/');
      var kind := ParseKind(segments[0]);
      if kind.None? then Err(UnsupportedKind)
      else if |segments| < 2 || segments[1] == "" then Err(MissingId)
      else if |segments| > 2 then Err(ExtraSegment)
      else
        match PercentDecoded(segments[1])
        case None => Err(InvalidEscape)
        case Some(id) =>
          if !ValidId(id) then Err(InvalidId)
          else if value != Print(kind.value, id) then Err(NotCanonical)
          else Ok(OhReference(kind.value, id, value))
  }

  function Parse(value: string): Result<OhReference, UriError> {
    if |value| >= |PREFIX| && value[..|PREFIX|] == PREFIX then ParseRemainder(value, value[|PREFIX|..])
    else Err(UnsupportedUri)
  }

  lemma PrintedSegments(kind: Kind, id: string)
    ensures var remainder := KindText(kind) + ['/'] + PercentEncoded(id);
            '?' !in remainder && '#' !in remainder && Split(remainder, '/') == [KindText(kind), PercentEncoded(id)]
  {
    EscapeChars(Encode(id));
    var encoded := PercentEncoded(id);
    SplitPlain(encoded, '/');
    SplitAtSeparator(KindText(kind), encoded, '/');
    assert [KindText(kind)] + [encoded] == [KindText(kind), encoded];
  }

  lemma {:induction false} EncodeNonempty(id: string)
    requires id != ""
    ensures Encode(id) != []
  {
  }

  /** Parsing a printed reference returns the pair that was printed. */
  lemma ParsePrinted(kind: Kind, id: string)
    requires ValidId(id)
    ensures Parse(Print(kind, id)) == Ok(OhReference(kind, id, Print(kind, id)))
  {
    var value := Print(kind, id);
    var remainder := KindText(kind) + ['/'] + PercentEncoded(id);
    assert value[..|PREFIX|] == PREFIX && value[|PREFIX|..] == remainder;
    PrintedSegments(kind, id);
    KindRoundTrip(kind);
    PercentRoundTrip(id);
    EncodeNonempty(id);
    EscapeChars(Encode(id));
  }

  /** `parse` accepts exactly the printed forms, and what it returns prints as its input. */
  lemma ParseAcceptsExactlyPrinted(value: string)
    ensures Parse(value).Ok? <==> exists kind, id :: ValidId(id) && value == Print(kind, id)
    ensures Parse(value).Ok? ==>
              var r := Parse(value).value; ValidId(r.id) && r.uri == value == Print(r.kind, r.id)
  {
    if kind, id :| ValidId(id) && value == Print(kind, id) {
      ParsePrinted(kind, id);
    }
  }

  /** One reference, one spelling. */
  lemma PrintInjective(kind: Kind, id: string, kind': Kind, id': string)
    requires ValidId(id) && ValidId(id') && Print(kind, id) == Print(kind', id')
    ensures kind == kind' && id == id'
  {
    ParsePrinted(kind, id);
    ParsePrinted(kind', id');
  }

  /** Eighteen bytes before the id, at most three bytes per UTF-16 unit, at most three
      characters per byte: no accepted reference comes near the input limit. */
  lemma AcceptedLength(value: string)
    requires Parse(value).Ok?
    ensures |Encode(value)| <= 4626 < MAX_REFERENCE_INPUT_BYTES
  {
    var r := Parse(value).value;
    ParseAcceptsExactlyPrinted(value);
    BytesPerUnit(r.id);
    EscapeChars(Encode(r.id));
    assert |value| <= 18 + 3 * (3 * MAX_ID_UNITS);
    PrintIsAscii(r.kind, r.id);
    EncodeAscii(value);
  }

  lemma PrintIsAscii(kind: Kind, id: string)
    ensures IsAscii(Print(kind, id))
  {
    EscapeChars(Encode(id));
    assert IsAscii(PREFIX);
    assert IsAscii(KindText(kind));
  }

  /** The oversize gate in front of the parser never replaces a valid reference. */
  lemma OversizeNeverValid(value: string)
    requires |Encode(value)| > MAX_REFERENCE_INPUT_BYTES
    ensures Parse(value).Err?
  {
    if Parse(value).Ok? {
      AcceptedLength(value);
    }
  }
}

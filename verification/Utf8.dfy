/** UTF-8 as section 3 of RFC 3629 defines it: `str::as_bytes` and the strict
    `String::from_utf8`. */
module Utf8 {
  import opened Wrappers
  import opened Sorting
  import opened Text

  type Byte = b: int | 0 <= b < 256

  /** Position of the first `x`, or the length. */
  function IndexOf(b: seq<Byte>, x: Byte): (i: nat)
    ensures i <= |b|
    ensures i < |b| ==> b[i] == x
  {
    if b == [] || b[0] == x then 0 else 1 + IndexOf(b[1..], x)
  }

  lemma {:induction false} IndexOfAt(a: seq<Byte>, x: Byte, rest: seq<Byte>)
    requires x !in a
    ensures IndexOf(a + [x] + rest, x) == |a|
  {
    var s := a + [x] + rest;
    if a != [] {
      assert s[0] == a[0] && a[0] in a;
      assert s[1..] == a[1..] + [x] + rest;
      IndexOfAt(a[1..], x, rest);
    }
  }

  function EncodeChar(c: char): (bytes: seq<Byte>)
    ensures 1 <= |bytes| <= 4
    ensures forall b | b in bytes :: b <= 0xF4
  {
    var u := c as int;
    if u < 0x80 then [u]
    else if u < 0x800 then [0xC0 + u / 64, 0x80 + u % 64]
    else if u < 0x1_0000 then [0xE0 + u / 4096, 0x80 + u / 64 % 64, 0x80 + u % 64]
    else [0xF0 + u / 262144, 0x80 + u / 4096 % 64, 0x80 + u / 64 % 64, 0x80 + u % 64]
  }

  function Encode(s: string): seq<Byte> {
    if s == "" then [] else EncodeChar(s[0]) + Encode(s[1..])
  }

  predicate IsScalar(u: int) {
    0 <= u < 0xD800 || 0xE000 <= u < 0x11_0000
  }

  predicate Continuation(b: Byte) {
    0x80 <= b < 0xC0
  }

  /** The code point of a two-, three- or four-byte sequence. */
  function Code2(b: seq<Byte>): int
    requires |b| >= 2
  {
    64 * (b[0] as int - 0xC0) + (b[1] as int - 0x80)
  }

  function Code3(b: seq<Byte>): int
    requires |b| >= 3
  {
    4096 * (b[0] as int - 0xE0) + 64 * (b[1] as int - 0x80) + (b[2] as int - 0x80)
  }

  function Code4(b: seq<Byte>): int
    requires |b| >= 4
  {
    262144 * (b[0] as int - 0xF0) + 4096 * (b[1] as int - 0x80) + 64 * (b[2] as int - 0x80) + (b[3] as int - 0x80)
  }

  /** The first character and its length; overlong forms, surrogates and stray bytes are refused. */
  function DecodeFirst(b: seq<Byte>): (r: Option<(char, nat)>)
    ensures r.Some? ==> 1 <= r.value.1 <= |b| && r.value.1 <= 4
  {
    if b == [] then None
    else if b[0] < 0x80 then Some((b[0] as char, 1))
    else if 0xC2 <= b[0] < 0xE0 then
      if |b| >= 2 && Continuation(b[1]) then Some((Code2(b) as char, 2)) else None
    else if 0xE0 <= b[0] < 0xF0 then
      if |b| >= 3 && Continuation(b[1]) && Continuation(b[2]) && Code3(b) >= 0x800 && IsScalar(Code3(b))
      then Some((Code3(b) as char, 3)) else None
    else if 0xF0 <= b[0] < 0xF5 then
      if |b| >= 4 && Continuation(b[1]) && Continuation(b[2]) && Continuation(b[3])
         && Code4(b) >= 0x1_0000 && IsScalar(Code4(b))
      then Some((Code4(b) as char, 4)) else None
    else None
  }

  /** Decoding a whole sequence by repeatedly taking the first character off. */
  function DecodeWith(b: seq<Byte>, first: seq<Byte> -> Option<(char, nat)>): Option<string> {
    if b == [] then Some("")
    else
      match first(b)
      case None => None
      case Some((c, n)) =>
        if n == 0 || n > |b| then None
        else
          match DecodeWith(b[n..], first)
          case None => None
          case Some(rest) => Some([c] + rest)
  }

  function Decode(b: seq<Byte>): Option<string> {
    DecodeWith(b, DecodeFirst)
  }

  /** If `first` reads back what `enc` writes, decoding undoes encoding. */
  lemma {:induction false} DecodeFlatMap(s: string, enc: char -> seq<Byte>, first: seq<Byte> -> Option<(char, nat)>)
    requires forall c :: enc(c) != []
    requires forall c, rest :: first(enc(c) + rest) == Some((c, |enc(c)|))
    ensures DecodeWith(FlatMap(s, enc), first) == Some(s)
  {
    if s != "" {
      DecodeFlatMap(s[1..], enc, first);
      var b := FlatMap(s, enc);
      assert b == enc(s[0]) + FlatMap(s[1..], enc);
      assert b[|enc(s[0])|..] == FlatMap(s[1..], enc);
      assert s == [s[0]] + s[1..];
    }
  }

  /** `first` reads only what `enc` writes. */
  ghost predicate ReadsOnly(enc: char -> seq<Byte>, first: seq<Byte> -> Option<(char, nat)>) {
    forall s | first(s).Some? && 1 <= first(s).value.1 <= |s| :: enc(first(s).value.0) == s[..first(s).value.1]
  }

  lemma SplitFirst(b: seq<Byte>, enc: char -> seq<Byte>, first: seq<Byte> -> Option<(char, nat)>)
    returns (front: seq<Byte>, back: seq<Byte>, c: char, rest: string)
    requires ReadsOnly(enc, first) && b != [] && DecodeWith(b, first).Some?
    ensures b == front + back && |back| < |b| && enc(c) == front
    ensures DecodeWith(back, first) == Some(rest) && DecodeWith(b, first) == Some([c] + rest)
  {
    var n := first(b).value.1;
    c := first(b).value.0;
    front, back := b[..n], b[n..];
    rest := DecodeWith(back, first).value;
  }

  lemma FlatMapCons<T, U>(x: T, s: seq<T>, f: T -> seq<U>)
    ensures FlatMap([x] + s, f) == f(x) + FlatMap(s, f)
  {
    assert ([x] + s)[1..] == s;
  }

  /** If what `first` reads is what `enc` writes for it, encoding undoes decoding. */
  lemma {:induction false} FlatMapDecode(b: seq<Byte>, enc: char -> seq<Byte>, first: seq<Byte> -> Option<(char, nat)>)
    requires ReadsOnly(enc, first) && DecodeWith(b, first).Some?
    ensures FlatMap(DecodeWith(b, first).value, enc) == b
    decreases |b|
  {
    if b != [] {
      var front, back, c, rest := SplitFirst(b, enc, first);
      FlatMapDecode(back, enc, first);
      FlatMapCons(c, rest, enc);
    }
  }

  lemma FromDigits(u: int)
    requires 0 <= u
    ensures 262144 * (u / 262144) + 4096 * (u / 4096 % 64) + 64 * (u / 64 % 64) + u % 64 == u
  {
    assert u / 64 / 64 == u / 4096;
    assert u / 4096 / 64 == u / 262144;
  }

  lemma DecodeOneOrTwo(c: char, rest: seq<Byte>)
    requires c as int < 0x800
    ensures DecodeFirst(EncodeChar(c) + rest) == Some((c, |EncodeChar(c)|))
  {
    var u, e := c as int, EncodeChar(c);
    var b := e + rest;
    assert b[0] == e[0];
    if u >= 0x80 {
      assert b[1] == e[1];
      assert Code2(b) == u;
    }
  }

  lemma DecodeThree(c: char, rest: seq<Byte>)
    requires 0x800 <= c as int < 0x1_0000
    ensures DecodeFirst(EncodeChar(c) + rest) == Some((c, |EncodeChar(c)|))
  {
    var u, e := c as int, EncodeChar(c);
    var b := e + rest;
    assert b[0] == e[0] && b[1] == e[1] && b[2] == e[2];
    assert Code3(b) == u;
  }

  lemma DecodeFour(c: char, rest: seq<Byte>)
    requires 0x1_0000 <= c as int
    ensures DecodeFirst(EncodeChar(c) + rest) == Some((c, |EncodeChar(c)|))
  {
    var u, e := c as int, EncodeChar(c);
    var b := e + rest;
    FromDigits(u);
    assert b[0] == e[0] && b[1] == e[1] && b[2] == e[2] && b[3] == e[3];
    assert Code4(b) == u;
  }

  lemma DecodeEncodedChar(c: char, rest: seq<Byte>)
    ensures DecodeFirst(EncodeChar(c) + rest) == Some((c, |EncodeChar(c)|))
  {
    if c as int < 0x800 {
      DecodeOneOrTwo(c, rest);
    } else if c as int < 0x1_0000 {
      DecodeThree(c, rest);
    } else {
      DecodeFour(c, rest);
    }
  }

  /** The base-64 digits of a sum. */
  lemma Digits(a: int, b: int, c: int, d: int)
    requires 0 <= b < 64 && 0 <= c < 64 && 0 <= d < 64
    ensures var u := 262144 * a + 4096 * b + 64 * c + d;
            u / 262144 == a && u / 4096 % 64 == b && u / 64 % 64 == c && u % 64 == d
    ensures (4096 * b + 64 * c + d) / 4096 == b && (64 * c + d) / 64 == c
  {
    var u := 262144 * a + 4096 * b + 64 * c + d;
    assert u / 64 == 4096 * a + 64 * b + c;
    assert u / 4096 == 64 * a + b;
  }

  lemma EncodeOneOrTwo(b: seq<Byte>)
    requires b != [] && DecodeFirst(b).Some? && DecodeFirst(b).value.1 <= 2
    ensures EncodeChar(DecodeFirst(b).value.0) == b[..DecodeFirst(b).value.1]
  {
    if DecodeFirst(b).value.1 == 1 {
      assert b[..1] == [b[0]];
    } else {
      Digits(0, 0, b[0] as int - 0xC0, b[1] as int - 0x80);
      assert b[..2] == [b[0], b[1]];
    }
  }

  lemma EncodeThree(b: seq<Byte>)
    requires b != [] && DecodeFirst(b).Some? && DecodeFirst(b).value.1 == 3
    ensures EncodeChar(DecodeFirst(b).value.0) == b[..3]
  {
    Digits(0, b[0] as int - 0xE0, b[1] as int - 0x80, b[2] as int - 0x80);
    assert b[..3] == [b[0], b[1], b[2]];
  }

  lemma EncodeFour(b: seq<Byte>)
    requires b != [] && DecodeFirst(b).Some? && DecodeFirst(b).value.1 == 4
    ensures EncodeChar(DecodeFirst(b).value.0) == b[..4]
  {
    Digits(b[0] as int - 0xF0, b[1] as int - 0x80, b[2] as int - 0x80, b[3] as int - 0x80);
    assert b[..4] == [b[0], b[1], b[2], b[3]];
  }

  lemma EncodeDecodedChar(b: seq<Byte>)
    requires b != [] && DecodeFirst(b).Some?
    ensures EncodeChar(DecodeFirst(b).value.0) == b[..DecodeFirst(b).value.1]
  {
    match DecodeFirst(b).value.1
    case 3 => EncodeThree(b);
    case 4 => EncodeFour(b);
    case _ => EncodeOneOrTwo(b);
  }

  lemma {:induction false} EncodeIsFlatMap(s: string)
    ensures Encode(s) == FlatMap(s, EncodeChar)
  {
    if s != "" {
      EncodeIsFlatMap(s[1..]);
    }
  }

  lemma DecodeEncode(s: string)
    ensures Decode(Encode(s)) == Some(s)
  {
    EncodeIsFlatMap(s);
    forall c, rest ensures DecodeFirst(EncodeChar(c) + rest) == Some((c, |EncodeChar(c)|)) {
      DecodeEncodedChar(c, rest);
    }
    DecodeFlatMap(s, EncodeChar, DecodeFirst);
  }

  lemma FirstReadsOnly()
    ensures ReadsOnly(EncodeChar, DecodeFirst)
  {
    forall s | DecodeFirst(s).Some? ensures EncodeChar(DecodeFirst(s).value.0) == s[..DecodeFirst(s).value.1] {
      EncodeDecodedChar(s);
    }
  }

  lemma EncodeDecode(b: seq<Byte>)
    requires Decode(b).Some?
    ensures Encode(Decode(b).value) == b
  {
    EncodeIsFlatMap(Decode(b).value);
    FirstReadsOnly();
    FlatMapDecode(b, EncodeChar, DecodeFirst);
  }

  lemma {:induction false} EncodeBytes(s: string)
    ensures forall b | b in Encode(s) :: b <= 0xF4
  {
    if s != "" {
      EncodeBytes(s[1..]);
    }
  }

  lemma EncodeConcat(s: string, t: string)
    ensures Encode(s + t) == Encode(s) + Encode(t)
  {
    EncodeIsFlatMap(s);
    EncodeIsFlatMap(t);
    EncodeIsFlatMap(s + t);
    FlatMapConcat(s, t, EncodeChar);
  }

  lemma {:induction false} EncodeAscii(s: string)
    requires IsAscii(s)
    ensures |Encode(s)| == |s| && forall i | 0 <= i < |s| :: Encode(s)[i] == s[i] as int
  {
    if s != "" {
      assert s[0] in s && forall c | c in s[1..] :: c in s;
      EncodeAscii(s[1..]);
    }
  }

  /** UTF-16 code units: what `encode_utf16().count()` counts. */
  function Utf16Units(s: string): nat {
    if s == "" then 0 else (if s[0] as int < 0x1_0000 then 1 else 2) + Utf16Units(s[1..])
  }

  /** At most three bytes for every UTF-16 unit. */
  lemma {:induction false} BytesPerUnit(s: string)
    ensures |Encode(s)| <= 3 * Utf16Units(s)
  {
    if s != "" {
      BytesPerUnit(s[1..]);
    }
  }
}

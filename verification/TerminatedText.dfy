/** A concrete serialisation, in place of JSON: strings that end in a byte no string contains. */
module TerminatedText {
  import opened Wrappers
  import opened Sorting
  import opened Text
  import opened Utf8

  function Terminated(s: string): (b: seq<Byte>)
    ensures b != []
  {
    Encode(s) + [0xFF]
  }

  function Terminate(fields: seq<string>): seq<Byte> {
    FlatMap(fields, Terminated)
  }

  lemma FirstTerminator(x: seq<Byte>, xs: seq<Byte>, y: seq<Byte>, ys: seq<Byte>)
    requires 0xFF !in x && 0xFF !in y && x + [0xFF] + xs == y + [0xFF] + ys
    ensures x == y && xs == ys
  {
    var b := x + [0xFF] + xs;
    IndexOfAt(x, 0xFF, xs);
    IndexOfAt(y, 0xFF, ys);
    assert x == b[..|x|] && y == b[..|y|];
    assert xs == b[|x| + 1..] && ys == b[|y| + 1..];
  }

  lemma EncodeInjective(s: string, t: string)
    requires Encode(s) == Encode(t)
    ensures s == t
  {
    DecodeEncode(s);
    DecodeEncode(t);
  }

  lemma {:induction false} TerminateInjective(a: seq<string>, b: seq<string>)
    requires Terminate(a) == Terminate(b)
    ensures a == b
  {
    if a != [] && b != [] {
      EncodeBytes(a[0]);
      EncodeBytes(b[0]);
      FirstTerminator(Encode(a[0]), Terminate(a[1..]), Encode(b[0]), Terminate(b[1..]));
      EncodeInjective(a[0], b[0]);
      TerminateInjective(a[1..], b[1..]);
      assert a == [a[0]] + a[1..] && b == [b[0]] + b[1..];
    }
  }

  // ---- lengths ----

  /** The length of the first `n` fields. */
  function Length(fields: seq<string>, n: nat): nat
    requires n <= |fields|
  {
    if n == 0 then 0 else Length(fields, n - 1) + |Encode(fields[n - 1])| + 1
  }

  lemma {:induction false} TerminateLength(fields: seq<string>, n: nat)
    requires n <= |fields|
    ensures |Terminate(fields[..n])| == Length(fields, n)
  {
    if n > 0 {
      TerminateLength(fields, n - 1);
      FlatMapConcat(fields[..n - 1], [fields[n - 1]], Terminated);
      assert fields[..n] == fields[..n - 1] + [fields[n - 1]];
    }
  }

  lemma WholeLength(fields: seq<string>)
    ensures |Terminate(fields)| == Length(fields, |fields|)
  {
    TerminateLength(fields, |fields|);
    assert fields[..|fields|] == fields;
  }

  /** Fields of the same lengths make texts of the same length. */
  lemma {:induction false} SameLength(a: seq<string>, b: seq<string>)
    requires |a| == |b| && forall i | 0 <= i < |a| :: |Encode(a[i])| == |Encode(b[i])|
    ensures |Terminate(a)| == |Terminate(b)|
  {
    if a != [] {
      SameLength(a[1..], b[1..]);
    }
  }

  lemma DecimalAscii(n: nat)
    ensures |Encode(Decimal(n))| == |Decimal(n)|
  {
    EncodeAscii(Decimal(n));
  }

  function PowerOfTen(k: nat): nat {
    if k == 0 then 1 else 10 * PowerOfTen(k - 1)
  }

  lemma {:induction false} DecimalDigits(n: nat, k: nat)
    requires k > 0 && n < PowerOfTen(k)
    ensures |Decimal(n)| <= k
  {
    if n >= 10 {
      DecimalDigits(n / 10, k - 1);
    }
  }

  // ---- bytes as text ----

  /** One character for each byte: a digest without collisions. */
  function Chars(bytes: seq<Byte>): string {
    if bytes == [] then "" else [bytes[0] as char] + Chars(bytes[1..])
  }

  lemma {:induction false} CharsInjective(a: seq<Byte>, b: seq<Byte>)
    requires Chars(a) == Chars(b)
    ensures a == b
  {
    if a != [] && b != [] {
      assert Chars(a)[0] == Chars(b)[0] && Chars(a)[1..] == Chars(b)[1..];
      CharsInjective(a[1..], b[1..]);
      assert a == [a[0]] + a[1..] && b == [b[0]] + b[1..];
    }
  }

  lemma {:induction false} CharsLength(bytes: seq<Byte>)
    ensures |Encode(Chars(bytes))| <= 2 * |bytes|
  {
    if bytes != [] {
      CharsLength(bytes[1..]);
      assert Chars(bytes)[1..] == Chars(bytes[1..]);
    }
  }

  // ---- reading back ----

  ghost predicate Injective<T(!new)>(encode: T -> seq<Byte>) {
    forall a, b :: encode(a) == encode(b) ==> a == b
  }

  /** Reading a line back is looking for the value that was written. */
  ghost function ReadBack<T(!new)>(encode: T -> seq<Byte>): seq<Byte> -> Option<T> {
    (bytes: seq<Byte>) =>
      if exists x :: encode(x) + [0x0A] == bytes then
        var x :| encode(x) + [0x0A] == bytes;
        Some(x)
      else None
  }

  lemma ReadsBack<T(!new)>(encode: T -> seq<Byte>, x: T)
    requires Injective(encode)
    ensures ReadBack(encode)(encode(x) + [0x0A]) == Some(x)
  {
    var bytes := encode(x) + [0x0A];
    var found := ReadBack(encode)(bytes).value;
    assert encode(found) + [0x0A] == bytes;
    assert encode(found) == bytes[..|bytes| - 1] == encode(x);
  }
}

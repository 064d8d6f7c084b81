/** Strict UTF-8 (section 3 of RFC 3629) between code points and bytes. */
module Utf8 {
  import opened Wrappers

  type byte = b: int | 0 <= b < 256
  type Code = c: int | 0 <= c < 0x110000

  predicate Surrogate(c: Code) { 0xD800 <= c < 0xE000 }

  /** A text that can be encoded: no lone surrogates. */
  predicate Encodable(text: seq<Code>) { forall i :: 0 <= i < |text| ==> !Surrogate(text[i]) }

  function Tail(n: nat): byte { 128 + n % 64 }

  function EncodeOne(c: Code): (r: seq<byte>)
    ensures 1 <= |r| <= 4
  {
    var high := c / 64;
    var higher := high / 64;
    if c < 0x80 then [c]
    else if c < 0x800 then [0xC0 + high, Tail(c)]
    else if c < 0x10000 then [0xE0 + higher, Tail(high), Tail(c)]
    else [0xF0 + higher / 64, Tail(higher), Tail(high), Tail(c)]
  }

  function Encode(text: seq<Code>): seq<byte> {
    if text == [] then [] else EncodeOne(text[0]) + Encode(text[1..])
  }

  predicate IsTail(b: byte) { 128 <= b < 192 }

  /** The first code point of a byte string and the number of its bytes. */
  function DecodeOne(s: seq<byte>): (r: Option<(Code, nat)>)
    ensures r.Some? ==> 1 <= r.value.1 <= |s| && !Surrogate(r.value.0)
  {
    if |s| >= 1 && s[0] < 0x80 then Some((s[0], 1))
    else if |s| >= 2 && 0xC2 <= s[0] < 0xE0 && IsTail(s[1]) then Some((Horner(s[0] - 0xC0, s[1]), 2))
    else if |s| >= 3 && 0xE0 <= s[0] < 0xF0 && IsTail(s[1]) && IsTail(s[2]) then
      var c := Horner(Horner(s[0] - 0xE0, s[1]), s[2]);
      if 0x800 <= c && !Surrogate(c) then Some((c, 3)) else None
    else if |s| >= 4 && 0xF0 <= s[0] < 0xF5 && IsTail(s[1]) && IsTail(s[2]) && IsTail(s[3]) then
      var c := Horner(Horner(Horner(s[0] - 0xF0, s[1]), s[2]), s[3]);
      if 0x10000 <= c < 0x110000 then Some((c, 4)) else None
    else None
  }

  function Horner(high: int, tail: byte): int { 64 * high + (tail - 128) }

  function Decode(s: seq<byte>): Option<seq<Code>>
    decreases |s|
  {
    if s == [] then Some([])
    else
      match DecodeOne(s)
      case None => None
      case Some((c, n)) =>
        match Decode(s[n..])
        case None => None
        case Some(rest) => Some([c] + rest)
  }

  /** Taking a base-64 digit off and putting it back. */
  lemma HornerTail(n: nat)
    ensures Horner(n / 64, Tail(n)) == n && IsTail(Tail(n))
  {
  }

  lemma DecodeOneInverts(c: Code, rest: seq<byte>)
    requires !Surrogate(c)
    ensures DecodeOne(EncodeOne(c) + rest) == Some((c, |EncodeOne(c)|))
  {
    HornerTail(c);
    HornerTail(c / 64);
    HornerTail(c / 64 / 64);
    var e := EncodeOne(c);
    assert forall i :: 0 <= i < |e| ==> (e + rest)[i] == e[i];
  }

  /** Decoding recovers the text. */
  lemma {:induction false} DecodeInverts(text: seq<Code>)
    requires Encodable(text)
    ensures Decode(Encode(text)) == Some(text)
    decreases |text|
  {
    if text != [] {
      var c, rest := text[0], Encode(text[1..]);
      DecodeOneInverts(c, rest);
      DecodeInverts(text[1..]);
      assert (EncodeOne(c) + rest)[|EncodeOne(c)|..] == rest;
      assert text == [c] + text[1..];
    }
  }

  lemma EncodeInjective(a: seq<Code>, b: seq<Code>)
    requires Encodable(a) && Encodable(b) && Encode(a) == Encode(b)
    ensures a == b
  {
    DecodeInverts(a);
    DecodeInverts(b);
  }

  lemma TailHorner(high: nat, tail: byte)
    requires IsTail(tail)
    ensures Horner(high, tail) / 64 == high && Tail(Horner(high, tail)) == tail
  {
    assert Horner(high, tail) == 64 * high + (tail - 128);
  }

  lemma EncodeTwo(a: nat, b: byte)
    requires 2 <= a < 32 && IsTail(b)
    ensures EncodeOne(Horner(a, b)) == [0xC0 + a, b]
  {
    TailHorner(a, b);
  }

  lemma EncodeThree(a: nat, b: byte, c: byte)
    requires a < 16 && IsTail(b) && IsTail(c) && 0x800 <= Horner(Horner(a, b), c)
    ensures EncodeOne(Horner(Horner(a, b), c)) == [0xE0 + a, b, c]
  {
    TailHorner(a, b);
    TailHorner(Horner(a, b), c);
  }

  lemma EncodeFour(a: nat, b: byte, c: byte, d: byte)
    requires a < 5 && IsTail(b) && IsTail(c) && IsTail(d)
    requires 0x10000 <= Horner(Horner(Horner(a, b), c), d) < 0x110000
    ensures EncodeOne(Horner(Horner(Horner(a, b), c), d)) == [0xF0 + a, b, c, d]
  {
    TailHorner(a, b);
    TailHorner(Horner(a, b), c);
    TailHorner(Horner(Horner(a, b), c), d);
  }

  /** A decoded code point is encoded as the bytes it was decoded from. */
  lemma EncodeOneInverts(s: seq<byte>)
    requires DecodeOne(s).Some?
    ensures EncodeOne(DecodeOne(s).value.0) == s[..DecodeOne(s).value.1]
  {
    var n := DecodeOne(s).value.1;
    if n == 2 {
      EncodeTwo(s[0] - 0xC0, s[1]);
      assert s[..2] == [s[0], s[1]];
    } else if n == 3 {
      EncodeThree(s[0] - 0xE0, s[1], s[2]);
      assert s[..3] == [s[0], s[1], s[2]];
    } else if n == 4 {
      EncodeFour(s[0] - 0xF0, s[1], s[2], s[3]);
      assert s[..4] == [s[0], s[1], s[2], s[3]];
    }
  }

  lemma DecodeStep(s: seq<byte>) returns (c: Code, n: nat, rest: seq<Code>)
    requires s != [] && Decode(s).Some?
    ensures 1 <= n <= |s| && !Surrogate(c) && EncodeOne(c) == s[..n]
    ensures Decode(s[n..]) == Some(rest) && Decode(s).value == [c] + rest
  {
    EncodeOneInverts(s);
    c, n := DecodeOne(s).value.0, DecodeOne(s).value.1;
    rest := Decode(s[n..]).value;
  }

  lemma EncodeCons(c: Code, rest: seq<Code>)
    ensures Encode([c] + rest) == EncodeOne(c) + Encode(rest)
  {
    assert ([c] + rest)[1..] == rest;
  }

  /** Encoding recovers the bytes: only encodings are decoded. */
  lemma {:induction false} EncodeInverts(s: seq<byte>)
    requires Decode(s).Some?
    ensures Encodable(Decode(s).value) && Encode(Decode(s).value) == s
    decreases |s|
  {
    if s != [] {
      var c, n, rest := DecodeStep(s);
      EncodeInverts(s[n..]);
      EncodeCons(c, rest);
      assert s == s[..n] + s[n..];
    }
  }

  /******* Text and bytes *******/

  function Chars(codes: seq<Code>): (s: string)
    requires Encodable(codes)
    ensures |s| == |codes| && forall i :: 0 <= i < |s| ==> s[i] as int == codes[i]
  {
    seq(|codes|, i requires 0 <= i < |codes| => codes[i] as char)
  }

  function CodePoints(s: string): (codes: seq<Code>)
    ensures |codes| == |s| && Encodable(codes) && forall i :: 0 <= i < |s| ==> codes[i] == s[i] as int
  {
    seq(|s|, i requires 0 <= i < |s| => s[i] as int)
  }

  /** The text that the bytes encode, if they encode one. */
  function TextOf(bytes: seq<byte>): Option<string> {
    match Decode(bytes)
    case None => None
    case Some(codes) =>
      EncodeInverts(bytes);
      Some(Chars(codes))
  }

  function BytesOf(s: string): seq<byte> { Encode(CodePoints(s)) }

  lemma TextRoundTrip(s: string)
    ensures TextOf(BytesOf(s)) == Some(s)
  {
    DecodeInverts(CodePoints(s));
    assert Chars(CodePoints(s)) == s;
  }

  lemma BytesRoundTrip(bytes: seq<byte>)
    requires TextOf(bytes).Some?
    ensures BytesOf(TextOf(bytes).value) == bytes
  {
    EncodeInverts(bytes);
    assert CodePoints(Chars(Decode(bytes).value)) == Decode(bytes).value;
  }
}

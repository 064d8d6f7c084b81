/**
  The canonical text-byte rule (release/canonical_bytes.py), and its effect on decoded
  text: replacing CRLF and CR by LF changes no line of the text.
 */
module LineEndings {
  import opened Wrappers
  import opened Text
  import opened Utf8

  const CR: byte := 13
  const LF: byte := 10

  /** `data.replace(b"\r\n", b"\n")`. */
  function CrLfToLf(s: seq<byte>): seq<byte> {
    if s == [] then []
    else if s[0] == CR && |s| > 1 && s[1] == LF then [LF] + CrLfToLf(s[2..])
    else [s[0]] + CrLfToLf(s[1..])
  }

  /** `data.replace(b"\r", b"\n")`. */
  function CrToLf(s: seq<byte>): seq<byte> {
    if s == [] then [] else [if s[0] == CR then LF else s[0]] + CrToLf(s[1..])
  }

  /** `to_lf`. */
  function ToLf(s: seq<byte>): seq<byte> { CrToLf(CrLfToLf(s)) }

  /** The same in one pass. */
  function Normalized(s: seq<byte>): seq<byte> {
    if s == [] then []
    else if s[0] == CR then [LF] + Normalized(s[if |s| > 1 && s[1] == LF then 2 else 1..])
    else [s[0]] + Normalized(s[1..])
  }

  lemma {:induction false} TwoPassesAreOne(s: seq<byte>)
    ensures ToLf(s) == Normalized(s)
    decreases |s|
  {
    if s != [] { TwoPassesAreOne(s[if s[0] == CR && |s| > 1 && s[1] == LF then 2 else 1..]); }
  }

  lemma {:induction false} NormalizedHasNoCr(s: seq<byte>)
    ensures CR !in Normalized(s)
    decreases |s|
  {
    if s != [] { NormalizedHasNoCr(s[if s[0] == CR && |s| > 1 && s[1] == LF then 2 else 1..]); }
  }

  lemma {:induction false} NormalizedWithoutCr(s: seq<byte>)
    requires CR !in s
    ensures Normalized(s) == s
    decreases |s|
  {
    if s != [] { NormalizedWithoutCr(s[1..]); }
  }

  /** The result has no carriage return, and applying the rule again changes nothing. */
  lemma ToLfIsCanonical(s: seq<byte>)
    ensures CR !in ToLf(s) && ToLf(ToLf(s)) == ToLf(s)
    ensures CR !in s <==> ToLf(s) == s
  {
    TwoPassesAreOne(s);
    NormalizedHasNoCr(s);
    TwoPassesAreOne(ToLf(s));
    NormalizedWithoutCr(ToLf(s));
    if CR !in s { NormalizedWithoutCr(s); }
  }

  /******* Decoding with replacement *******/

  const REPLACEMENT := '\U{FFFD}'

  /** The bytes a second byte must lie in, for a lead byte of more than one byte. */
  predicate SecondFits(lead: byte, b: byte) {
    if lead == 0xE0 then 0xA0 <= b < 0xC0
    else if lead == 0xED then 0x80 <= b < 0xA0
    else if lead == 0xF0 then 0x90 <= b < 0xC0
    else if lead == 0xF4 then 0x80 <= b < 0x90
    else IsTail(b)
  }

  /** The length of the malformed start of a byte string that one replacement character stands for. */
  function Malformed(s: seq<byte>): (n: nat)
    requires s != []
    ensures 1 <= n <= |s|
  {
    if !(0xE0 <= s[0] < 0xF5) || |s| < 2 || !SecondFits(s[0], s[1]) then 1
    else if s[0] < 0xF0 || |s| < 3 || !IsTail(s[2]) then 2
    else 3
  }

  /** One step of `decode("utf-8", "replace")`: a character and the number of its bytes. */
  function DecodeStep(s: seq<byte>): (r: (char, nat))
    requires s != []
    ensures 1 <= r.1 <= |s|
  {
    match DecodeOne(s)
    case Some((c, n)) => (c as char, n)
    case None => (REPLACEMENT, Malformed(s))
  }

  function DecodeReplacing(s: seq<byte>): string
    decreases |s|
  {
    if s == [] then "" else [DecodeStep(s).0] + DecodeReplacing(s[DecodeStep(s).1..])
  }

  /** CRLF and CR to LF, in text. */
  function TextToLf(s: string): string {
    if s == "" then ""
    else if s[0] == '\r' then "\n" + TextToLf(s[if |s| > 1 && s[1] == '\n' then 2 else 1..])
    else [s[0]] + TextToLf(s[1..])
  }

  lemma AsciiStep(s: seq<byte>)
    requires s != []
    ensures s[0] < 128 ==> DecodeStep(s) == (s[0] as char, 1)
    ensures s[0] >= 128 ==> DecodeStep(s).0 != '\r' && DecodeStep(s).0 != '\n'
    ensures s[0] >= 128 ==>
              forall i :: 0 <= i < DecodeStep(s).1 ==> s[i] >= 128
  {
  }

  /** The number of bytes before the first ASCII byte. */
  function NonAscii(s: seq<byte>): (n: nat)
    ensures n <= |s| && (forall i :: 0 <= i < n ==> s[i] >= 128) && (n < |s| ==> s[n] < 128)
  {
    if s == [] || s[0] < 128 then 0 else 1 + NonAscii(s[1..])
  }

  /** A step looks at bytes beyond ASCII, and at one ASCII byte only to stop there. */
  lemma SameStep(s: seq<byte>, t: seq<byte>)
    requires s != [] && t != [] && s[0] >= 128
    requires NonAscii(s) == NonAscii(t) && s[..NonAscii(s)] == t[..NonAscii(t)]
    requires NonAscii(s) < |s| <==> NonAscii(t) < |t|
    ensures DecodeStep(s) == DecodeStep(t)
  {
    var n := NonAscii(s);
    assert forall i :: 0 <= i < n ==> s[i] == s[..n][i] == t[i];
    StepWithin(s);
    StepWithin(t);
  }

  lemma StepWithin(s: seq<byte>)
    requires s != []
    ensures s[0] >= 128 ==> DecodeStep(s).1 <= NonAscii(s)
  {
    AsciiStep(s);
  }

  /** The rule leaves what is before the first ASCII byte alone. */
  lemma {:induction false} NormalizedKeeps(s: seq<byte>, i: nat)
    requires i <= NonAscii(s)
    ensures i <= |Normalized(s)| && Normalized(s)[..i] == s[..i] && Normalized(s)[i..] == Normalized(s[i..])
    decreases i
  {
    if i > 0 {
      NormalizedKeeps(s[1..], i - 1);
      assert Normalized(s) == [s[0]] + Normalized(s[1..]);
      assert s[1..][i - 1..] == s[i..];
      assert s[..i] == [s[0]] + s[1..][..i - 1];
    }
  }

  lemma {:induction false} NormalizedNonAscii(s: seq<byte>)
    ensures NonAscii(Normalized(s)) == NonAscii(s)
    ensures NonAscii(s) < |s| <==> NonAscii(Normalized(s)) < |Normalized(s)|
    decreases |s|
  {
    if s != [] && s[0] >= 128 {
      NormalizedNonAscii(s[1..]);
      assert Normalized(s)[1..] == Normalized(s[1..]);
    }
  }

  lemma NormalizedStep(s: seq<byte>)
    requires s != [] && s[0] >= 128
    ensures Normalized(s) != [] && DecodeStep(Normalized(s)) == DecodeStep(s)
    ensures Normalized(s)[DecodeStep(s).1..] == Normalized(s[DecodeStep(s).1..])
  {
    NormalizedNonAscii(s);
    NormalizedKeeps(s, NonAscii(s));
    SameStep(s, Normalized(s));
    StepWithin(s);
    NormalizedKeeps(s, DecodeStep(s).1);
  }

  /** Decoding commutes with the rule. */
  lemma {:induction false} DecodingCommutes(s: seq<byte>)
    ensures DecodeReplacing(Normalized(s)) == TextToLf(DecodeReplacing(s))
    decreases |s|
  {
    if s != [] {
      AsciiStep(s);
      if s[0] >= 128 {
        NormalizedStep(s);
        DecodingCommutes(s[DecodeStep(s).1..]);
      } else if s[0] == CR {
        CarriageReturn(s);
      } else {
        DecodingCommutes(s[1..]);
        AsciiStep(Normalized(s));
        assert Normalized(s)[1..] == Normalized(s[1..]);
      }
    }
  }

  lemma {:induction false} CarriageReturn(s: seq<byte>)
    requires s != [] && s[0] == CR
    ensures DecodeReplacing(Normalized(s)) == TextToLf(DecodeReplacing(s))
    decreases |s|, 0
  {
    var rest := s[if |s| > 1 && s[1] == LF then 2 else 1..];
    DecodingCommutes(rest);
    DecodeAscii(CR, s[1..]);
    DecodeAscii(LF, Normalized(rest));
    assert s == [CR] + s[1..];
    if |s| > 1 {
      AsciiStep(s[1..]);
      if s[1] == LF {
        DecodeAscii(LF, s[2..]);
        assert s[1..] == [LF] + s[2..];
      }
    }
    ReturnThenText(DecodeReplacing(s[1..]));
  }

  lemma DecodeAscii(b: byte, rest: seq<byte>)
    requires b < 128
    ensures DecodeReplacing([b] + rest) == [b as char] + DecodeReplacing(rest)
  {
    AsciiStep([b] + rest);
    assert ([b] + rest)[1..] == rest;
  }

  lemma ReturnThenText(text: string)
    ensures TextToLf("\r" + text) == "\n" + TextToLf(if text != "" && text[0] == '\n' then text[1..] else text)
  {
    var s := "\r" + text;
    assert s[1..] == text;
    if text != "" { assert s[2..] == text[1..]; }
  }

  /** The first line is the same with any line ending. */
  lemma {:induction false} FirstLineToLf(s: string)
    requires s != ""
    ensures TextToLf(s) != ""
    ensures TextToLf(s)[LineLength(TextToLf(s))..] == TextToLf(s[LineLength(s)..])
    ensures Bare(TextToLf(s)[..LineLength(TextToLf(s))]) == Bare(s[..LineLength(s)])
    decreases |s|
  {
    var t, k := TextToLf(s), LineLength(s);
    if Break(s[0]) {
      assert LineLength(t) == 1;
      assert t[..1] == [t[0]];
    } else if |s| > 1 {
      FirstLineToLf(s[1..]);
      LongerFirstLine(s[0], s[1..]);
      LongerFirstLine(s[0], TextToLf(s[1..]));
      assert s == [s[0]] + s[1..];
    }
  }

  /** A character that ends no line, before the first line of a text. */
  lemma LongerFirstLine(c: char, s: string)
    requires !Break(c) && s != ""
    ensures var t, n := [c] + s, LineLength(s);
            LineLength(t) == n + 1 && t[n + 1..] == s[n..] && Bare(t[..n + 1]) == [c] + Bare(s[..n])
  {
    var t, n := [c] + s, LineLength(s);
    assert t[1..] == s && t[..n + 1] == [c] + s[..n];
    BareCons(c, s[..n]);
  }

  lemma BareCons(c: char, line: string)
    requires !Break(c) && line != ""
    ensures Bare([c] + line) == [c] + Bare(line)
  {
    var s := [c] + line;
    assert s[|s| - 1] == line[|line| - 1];
    if |line| >= 2 { assert s[|s| - 2] == line[|line| - 2]; }
  }

  lemma {:induction false} SameLines(s: string)
    ensures SplitLines(TextToLf(s)) == SplitLines(s)
    decreases |s|
  {
    if s != "" {
      FirstLineToLf(s);
      SameLines(s[LineLength(s)..]);
    }
  }

  /** A text file has the same lines before and after the rule. */
  lemma RuleKeepsLines(s: seq<byte>)
    ensures SplitLines(DecodeReplacing(ToLf(s))) == SplitLines(DecodeReplacing(s))
  {
    TwoPassesAreOne(s);
    DecodingCommutes(s);
    SameLines(DecodeReplacing(s));
  }
}

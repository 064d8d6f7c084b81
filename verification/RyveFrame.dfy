/**
  The binary frame of a Ryve claim (backend/conduit/ryve.py): a text header, a blank
  line, and exactly as many image bytes as the header says.
 */
module RyveFrame {
  import opened Wrappers
  import opened Splitting
  import opened Utf8

  const LF: byte := 10
  const VERSION := "CCC-RYVE-CLAIM/1"
  const PNG_MAGIC: seq<byte> := [0x89, 0x50, 0x4E, 0x47, 0x0D, 0x0A, 0x1A, 0x0A]

  datatype Claim = Claim(stationName: string, proxyId: string, png: seq<byte>)

  /******* Decimal numbers *******/

  predicate Digit(c: char) { '0' <= c <= '9' }

  function DigitValue(c: char): nat
    requires Digit(c)
  {
    c as int - '0' as int
  }

  /** `str(n)`. */
  function Print(n: nat): (s: string)
    ensures s != "" && forall i :: 0 <= i < |s| ==> Digit(s[i])
  {
    (if n < 10 then "" else Print(n / 10)) + ["0123456789"[n % 10]]
  }

  /** Digits, with single underscores between them. */
  predicate Numeral(s: string) {
    && s != "" && Digit(s[0]) && Digit(s[|s| - 1])
    && (forall i :: 0 <= i < |s| ==> Digit(s[i]) || s[i] == '_')
    && (forall i :: 0 < i < |s| ==> Digit(s[i - 1]) || Digit(s[i]))
  }

  function Value(s: string): nat
    requires forall i :: 0 <= i < |s| ==> Digit(s[i]) || s[i] == '_'
  {
    if s == "" then 0
    else if s[|s| - 1] == '_' then Value(s[..|s| - 1])
    else 10 * Value(s[..|s| - 1]) + DigitValue(s[|s| - 1])
  }

  /** The spaces that `int` skips around an ASCII text: not the separators U+001C to U+001F, which `strip` takes. */
  predicate AsciiSpace(c: char) { c == ' ' || '\t' <= c <= '\r' }

  function SkipLeft(s: string): (r: string)
    ensures r != "" ==> !AsciiSpace(r[0])
  {
    if s != "" && AsciiSpace(s[0]) then SkipLeft(s[1..]) else s
  }

  function SkipRight(s: string): (r: string)
    ensures r <= s && (r != "" ==> !AsciiSpace(r[|r| - 1]))
  {
    if s != "" && AsciiSpace(s[|s| - 1]) then SkipRight(s[..|s| - 1]) else s
  }

  /** The most digits that `int` reads. */
  const MAX_DIGITS := 4300

  /** The digits of a numeral, its underscores not counted. */
  function DigitCount(s: string): nat {
    if s == "" then 0 else DigitCount(s[..|s| - 1]) + if Digit(s[|s| - 1]) then 1 else 0
  }

  function SignOf(t: string): string { if t != "" && (t[0] == '+' || t[0] == '-') then t[..1] else "" }

  /** A numeral, perhaps with a sign. */
  function SignedInt(t: string): Option<int> {
    var sign := SignOf(t);
    var body := t[|sign|..];
    if !Numeral(body) || DigitCount(body) > MAX_DIGITS then None
    else Some(if sign == "-" then -(Value(body) as int) else Value(body))
  }

  /** `int(s)`, for text without digits beyond ASCII. */
  function ParseInt(s: string): Option<int> { SignedInt(SkipRight(SkipLeft(s))) }

  lemma {:induction false} ValueOfPrint(n: nat)
    ensures Value(Print(n)) == n
  {
    var last := "0123456789"[n % 10];
    assert Print(n)[..|Print(n)| - 1] == if n < 10 then "" else Print(n / 10);
    assert DigitValue(last) == n % 10;
    if n >= 10 { ValueOfPrint(n / 10); }
  }

  predicate AllDigits(s: string) { forall i :: 0 <= i < |s| ==> Digit(s[i]) }

  lemma {:induction false} DigitsAreCounted(s: string)
    requires AllDigits(s)
    ensures DigitCount(s) == |s|
    decreases |s|
  {
    if s != "" { DigitsAreCounted(s[..|s| - 1]); }
  }

  lemma DigitsAreNumeral(s: string)
    requires s != "" && AllDigits(s)
    ensures Numeral(s) && SkipRight(SkipLeft(s)) == s && s[0] != '+' && s[0] != '-'
  {
    assert Digit(s[0]) && Digit(s[|s| - 1]);
  }

  lemma DigitsAreParsed(s: string)
    requires s != "" && AllDigits(s)
    ensures ParseInt(s) == if |s| <= MAX_DIGITS then Some(Value(s)) else None
  {
    DigitsAreNumeral(s);
    DigitsAreCounted(s);
  }

  function Pow10(k: nat): nat { if k == 0 then 1 else 10 * Pow10(k - 1) }

  /** A number has at most `k` digits exactly if it is below the `k`-th power of ten. */
  lemma {:induction false} PrintLength(n: nat, k: nat)
    requires k > 0
    ensures |Print(n)| <= k <==> n < Pow10(k)
    decreases k
  {
    if k == 1 {
      assert Pow10(1) == 10 * Pow10(0);
    } else if n >= 10 {
      PrintLength(n / 10, k - 1);
    } else {
      PowIsPositive(k - 1);
    }
  }

  lemma {:induction false} PowIsPositive(k: nat)
    ensures Pow10(k) > 0
  {
    if k > 0 { PowIsPositive(k - 1); }
  }

  /** A printed length is read again exactly as far as `int` reads digits. */
  lemma PrintIsParsed(n: nat)
    ensures ParseInt(Print(n)) == if n < Pow10(MAX_DIGITS) then Some(n) else None
  {
    DigitsAreParsed(Print(n));
    ValueOfPrint(n);
    PrintLength(n, MAX_DIGITS);
  }

  predicate Spaces(s: string) { forall i :: 0 <= i < |s| ==> AsciiSpace(s[i]) }

  lemma {:induction false} SkipsLeft(lead: string, rest: string)
    requires Spaces(lead) && (rest != "" ==> !AsciiSpace(rest[0]))
    ensures SkipLeft(lead + rest) == rest
    decreases |lead|
  {
    if lead == "" {
      assert lead + rest == rest;
    } else {
      SkipsLeft(lead[1..], rest);
      assert (lead + rest)[1..] == lead[1..] + rest;
    }
  }

  lemma {:induction false} SkipsRight(rest: string, trail: string)
    requires Spaces(trail) && (rest != "" ==> !AsciiSpace(rest[|rest| - 1]))
    ensures SkipRight(rest + trail) == rest
    decreases |trail|
  {
    if trail == "" {
      assert rest + trail == rest;
    } else {
      SkipsRight(rest, trail[..|trail| - 1]);
      assert (rest + trail)[..|rest + trail| - 1] == rest + trail[..|trail| - 1];
    }
  }

  predicate Sign(sign: string) { sign == "" || sign == "+" || sign == "-" }

  lemma Trimmed(lead: string, t: string, trail: string)
    requires Spaces(lead) && Spaces(trail) && t != "" && !AsciiSpace(t[0]) && !AsciiSpace(t[|t| - 1])
    ensures SkipRight(SkipLeft(lead + (t + trail))) == t
  {
    SkipsLeft(lead, t + trail);
    SkipsRight(t, trail);
  }

  lemma SignedIs(sign: string, body: string)
    requires Sign(sign) && Numeral(body)
    ensures var t := sign + body;
            && SignOf(t) == sign && t[|sign|..] == body
            && t != "" && !AsciiSpace(t[0]) && !AsciiSpace(t[|t| - 1])
  {
    var t := sign + body;
    assert t[0] == (if sign == "" then body[0] else sign[0]) && t[|t| - 1] == body[|body| - 1];
  }

  /** A numeral is read, with a sign and spaces around it or not, as the number it writes, unless it is too long. */
  lemma NumeralIsRead(lead: string, sign: string, body: string, trail: string)
    requires Spaces(lead) && Sign(sign) && Numeral(body) && Spaces(trail)
    ensures ParseInt(lead + ((sign + body) + trail))
         == if DigitCount(body) > MAX_DIGITS then None
            else Some(if sign == "-" then -(Value(body) as int) else Value(body))
  {
    var t := sign + body;
    SignedIs(sign, body);
    SignedIntIs(sign, body);
    Trimmed(lead, t, trail);
    assert ParseInt(lead + (t + trail)) == SignedInt(t);
  }

  lemma SignedIntIs(sign: string, body: string)
    requires Sign(sign) && Numeral(body)
    ensures SignedInt(sign + body)
         == if DigitCount(body) > MAX_DIGITS then None
            else Some(if sign == "-" then -(Value(body) as int) else Value(body))
  {
    SignedIs(sign, body);
  }

  /** And nothing else is read. */
  lemma ReadIsNumeral(s: string) returns (lead: string, sign: string, body: string, trail: string)
    requires ParseInt(s).Some?
    ensures Spaces(lead) && Sign(sign) && Numeral(body) && Spaces(trail) && s == lead + ((sign + body) + trail)
  {
    var u := SkipLeft(s);
    var t := SkipRight(u);
    lead := SkippedLeft(s);
    trail := SkippedRight(u);
    sign, body := SignOf(t), t[|SignOf(t)|..];
    SignAndBody(t);
  }

  lemma SignAndBody(t: string)
    ensures Sign(SignOf(t)) && |SignOf(t)| <= |t| && SignOf(t) + t[|SignOf(t)|..] == t
  {
  }

  lemma {:induction false} SkippedLeft(s: string) returns (lead: string)
    ensures Spaces(lead) && s == lead + SkipLeft(s)
    decreases |s|
  {
    lead := "";
    if s != "" && AsciiSpace(s[0]) {
      var more := SkippedLeft(s[1..]);
      lead := [s[0]] + more;
    }
  }

  lemma {:induction false} SkippedRight(s: string) returns (trail: string)
    ensures Spaces(trail) && s == SkipRight(s) + trail
    decreases |s|
  {
    trail := "";
    if s != "" && AsciiSpace(s[|s| - 1]) {
      var more := SkippedRight(s[..|s| - 1]);
      trail := more + [s[|s| - 1]];
    }
  }

  /** A separator that `strip` would take keeps a length from being read. */
  lemma SeparatorsAreNotSkipped(s: string, c: char)
    requires '\U{1C}' <= c <= '\U{1F}'
    ensures ParseInt([c] + s).None?
  {
    var t := [c] + s;
    assert SkipLeft(t) == t;
    var u := SkipRight(t);
    assert u != "" ==> u[0] == c;
  }

  /******* Bytes and header text *******/

  /** Decoding as ASCII; a byte that is not ASCII becomes the replacement character. */
  function FromAscii(bytes: seq<byte>): (s: string)
    ensures |s| == |bytes| && forall i :: 0 <= i < |s| ==>
              s[i] == if bytes[i] < 128 then bytes[i] as char else '\U{FFFD}'
  {
    seq(|bytes|, i requires 0 <= i < |bytes| => if bytes[i] < 128 then bytes[i] as char else '\U{FFFD}')
  }

  predicate IsAscii(s: string) { forall i :: 0 <= i < |s| ==> s[i] as int < 128 }

  function ToAscii(s: string): (bytes: seq<byte>)
    requires IsAscii(s)
    ensures |bytes| == |s| && forall i :: 0 <= i < |s| ==> bytes[i] == s[i] as int
  {
    seq(|s|, i requires 0 <= i < |s| => s[i] as int)
  }

  predicate BlankAt(s: seq<byte>, i: nat) { i + 1 < |s| && s[i] == LF && s[i + 1] == LF }

  /** Where the first blank line begins, if there is one. */
  function FindBlank(s: seq<byte>): (r: Option<nat>)
    ensures r.Some? ==> BlankAt(s, r.value) && forall i :: 0 <= i < r.value ==> !BlankAt(s, i)
    ensures r.None? ==> forall i :: 0 <= i < |s| ==> !BlankAt(s, i)
  {
    if |s| < 2 then None
    else if BlankAt(s, 0) then Some(0)
    else
      assert forall i :: 0 < i < |s| ==> (BlankAt(s, i) <==> BlankAt(s[1..], i - 1));
      match FindBlank(s[1..])
      case None => None
      case Some(i) => Some(i + 1)
  }

  predicate ColonAt(s: string, i: nat) { i + 1 < |s| && s[i] == ':' && s[i + 1] == ' ' }

  /** The position of the first ": ", or the length. */
  function FindColon(s: string): (i: nat)
    ensures i <= |s|
    ensures i < |s| ==> ColonAt(s, i)
    ensures forall k :: 0 <= k < i ==> !ColonAt(s, k)
  {
    if |s| < 2 then |s|
    else if ColonAt(s, 0) then 0
    else
      assert forall k :: 0 < k ==> (ColonAt(s, k) <==> ColonAt(s[1..], k - 1));
      1 + FindColon(s[1..])
  }

  /** A header line: the field it sets, if it sets one. */
  function WithLine(fields: map<string, string>, line: string): map<string, string> {
    var i := FindColon(line);
    if i < |line| then fields[line[..i] := line[i + 2..]] else fields
  }

  function Fields(lines: seq<string>): map<string, string> {
    if lines == [] then map[] else WithLine(Fields(lines[..|lines| - 1]), lines[|lines| - 1])
  }

  function Get(fields: map<string, string>, key: string): string {
    if key in fields then fields[key] else ""
  }

  /** `_parse_frame`. */
  function Parse(frame: seq<byte>): Option<Claim> {
    var blank := FindBlank(frame);
    if blank.None? then None
    else
      var lines := Split(FromAscii(frame[..blank.value]), '\n');
      if lines[0] != VERSION then None
      else Finish(Fields(lines[1..]), frame[blank.value + 2..])
  }

  /** The checks on the image. */
  function Finish(fields: map<string, string>, body: seq<byte>): Option<Claim> {
    if "png_len" !in fields then None
    else
      var n := ParseInt(fields["png_len"]);
      if n.None? || n.value < 0 || |body| != n.value || !(PNG_MAGIC <= body) then None
      else Some(Claim(Get(fields, "station_name"), Get(fields, "proxy_id"), body))
  }

  method ParseFrame(frame: seq<byte>) returns (claim: Option<Claim>)
    ensures claim == Parse(frame)
  {
    var blank := FindBlank(frame);
    if blank.None? { return None; }
    var lines := Split(FromAscii(frame[..blank.value]), '\n');
    if lines[0] != VERSION { return None; }
    var rest := lines[1..];
    var fields: map<string, string> := map[];
    for i := 0 to |rest|
      invariant fields == Fields(rest[..i])
    {
      assert rest[..i + 1][..i] == rest[..i];
      var k := FindColon(rest[i]);
      if k < |rest[i]| { fields := fields[rest[i][..k] := rest[i][k + 2..]]; }
    }
    assert rest[..|rest|] == rest;
    return Finish(fields, frame[blank.value + 2..]);
  }

  /******* The documented frame *******/

  predicate PlainName(s: string) { IsAscii(s) && '\n' !in s }

  function HeaderLines(name: string, proxy: string, n: nat): seq<string> {
    [VERSION, "station_name: " + name, "proxy_id: " + proxy, "png_len: " + Print(n)]
  }

  /** The frame that the helper emits. */
  function Build(claim: Claim): seq<byte>
    requires PlainName(claim.stationName) && PlainName(claim.proxyId)
  {
    HeaderIsPlain(claim.stationName, claim.proxyId, |claim.png|);
    ToAscii(Join(HeaderLines(claim.stationName, claim.proxyId, |claim.png|), '\n')) + [LF, LF] + claim.png
  }

  lemma {:induction false} JoinAscii(lines: seq<string>)
    requires lines != [] && forall i :: 0 <= i < |lines| ==> IsAscii(lines[i])
    ensures IsAscii(Join(lines, '\n'))
    decreases |lines|
  {
    if |lines| > 1 { JoinAscii(lines[1..]); }
  }

  lemma PlainLine(key: string, value: string)
    requires PlainName(key) && key != "" && PlainName(value)
    ensures PlainName(key + value) && key + value != ""
  {
  }

  lemma HeaderIsPlain(name: string, proxy: string, n: nat)
    requires PlainName(name) && PlainName(proxy)
    ensures var lines := HeaderLines(name, proxy, n);
            && IsAscii(Join(lines, '\n'))
            && forall i :: 0 <= i < |lines| ==> '\n' !in lines[i] && lines[i] != "" && IsAscii(lines[i])
  {
    PlainLine("station_name: ", name);
    PlainLine("proxy_id: ", proxy);
    PlainLine("png_len: ", Print(n));
    JoinAscii(HeaderLines(name, proxy, n));
  }

  /** Joined lines that are not empty contain no blank line, and do not end in a line feed. */
  lemma {:induction false} NoBlankInside(lines: seq<string>)
    requires lines != [] && forall i :: 0 <= i < |lines| ==> '\n' !in lines[i] && lines[i] != ""
    ensures var s := Join(lines, '\n');
            && s != "" && s[0] != '\n' && s[|s| - 1] != '\n'
            && forall i :: 0 <= i < |s| - 1 ==> s[i] != '\n' || s[i + 1] != '\n'
    decreases |lines|
  {
    if |lines| > 1 {
      NoBlankInside(lines[1..]);
      var s, rest := Join(lines, '\n'), Join(lines[1..], '\n');
      assert s == lines[0] + ['\n'] + rest;
    }
  }

  lemma BlankAfterHeader(header: seq<byte>, body: seq<byte>)
    requires header != [] && header[|header| - 1] != LF && forall i :: 0 <= i < |header| ==> !BlankAt(header, i)
    ensures FindBlank(header + [LF, LF] + body) == Some(|header|)
  {
    var s := header + [LF, LF] + body;
    assert BlankAt(s, |header|);
    forall i | 0 <= i < |header| ensures !BlankAt(s, i) {
      if i + 1 < |header| { assert !BlankAt(header, i); assert s[i] == header[i] && s[i + 1] == header[i + 1]; }
    }
  }

  lemma {:induction false} ColonAfter(key: string, value: string)
    requires forall i :: 0 <= i < |key| ==> key[i] != ':'
    ensures FindColon(key + ": " + value) == |key|
    decreases |key|
  {
    var s := key + ": " + value;
    if key == "" {
      assert s[0] == ':' && s[1] == ' ';
    } else {
      ColonAfter(key[1..], value);
      assert s[1..] == key[1..] + ": " + value;
    }
  }

  lemma LineSets(fields: map<string, string>, key: string, value: string)
    requires forall i :: 0 <= i < |key| ==> key[i] != ':'
    ensures WithLine(fields, key + ": " + value) == fields[key := value]
  {
    var s := key + ": " + value;
    ColonAfter(key, value);
    assert s[..|key|] == key && s[|key| + 2..] == value;
  }

  function DocumentedFields(name: string, proxy: string, len: string): map<string, string> {
    map["station_name" := name]["proxy_id" := proxy]["png_len" := len]
  }

  lemma HeaderFields(name: string, proxy: string, n: nat)
    ensures Fields(HeaderLines(name, proxy, n)[1..]) == DocumentedFields(name, proxy, Print(n))
  {
    var a, b, c := "station_name" + ": " + name, "proxy_id" + ": " + proxy, "png_len" + ": " + Print(n);
    LineSets(map[], "station_name", name);
    LineSets(map["station_name" := name], "proxy_id", proxy);
    LineSets(map["station_name" := name]["proxy_id" := proxy], "png_len", Print(n));
    assert a == "station_name: " + name && b == "proxy_id: " + proxy && c == "png_len: " + Print(n);
    assert HeaderLines(name, proxy, n)[1..] == [a, b, c];
    assert [a, b, c][..2] == [a, b] && [a, b][..1] == [a] && [a][..0] == [];
    assert Fields([a]) == WithLine(Fields([]), a);
    assert Fields([a, b]) == WithLine(Fields([a]), b);
  }

  lemma AsciiRoundTrip(s: string)
    requires IsAscii(s)
    ensures FromAscii(ToAscii(s)) == s
  {
  }

  lemma HeaderIsRead(lines: seq<string>, body: seq<byte>)
    requires lines != [] && lines[0] == VERSION
    requires forall i :: 0 <= i < |lines| ==> '\n' !in lines[i] && lines[i] != ""
    requires IsAscii(Join(lines, '\n'))
    ensures Parse(ToAscii(Join(lines, '\n')) + [LF, LF] + body) == Finish(Fields(lines[1..]), body)
  {
    var text := Join(lines, '\n');
    NoBlankInside(lines);
    BlankAfterText(text, body);
    SplitOfJoin(lines, '\n');
    AsciiRoundTrip(text);
    Parts(ToAscii(text), body);
  }

  lemma BlankAfterText(text: string, body: seq<byte>)
    requires IsAscii(text) && text != "" && text[|text| - 1] != '\n'
    requires forall i :: 0 <= i < |text| - 1 ==> text[i] != '\n' || text[i + 1] != '\n'
    ensures FindBlank(ToAscii(text) + [LF, LF] + body) == Some(|text|)
  {
    BlankAfterHeader(ToAscii(text), body);
  }

  lemma Parts(header: seq<byte>, body: seq<byte>)
    ensures var frame := header + [LF, LF] + body; frame[..|header|] == header && frame[|header| + 2..] == body
  {
  }

  lemma DocumentedLookups(name: string, proxy: string, len: string)
    ensures var fields := DocumentedFields(name, proxy, len);
            && "png_len" in fields && fields["png_len"] == len
            && Get(fields, "station_name") == name && Get(fields, "proxy_id") == proxy
  {
    assert |"station_name"| == 12 && |"proxy_id"| == 8 && |"png_len"| == 7;
  }

  lemma FinishAccepts(fields: map<string, string>, png: seq<byte>)
    requires "png_len" in fields && fields["png_len"] == Print(|png|) && PNG_MAGIC <= png
    ensures Finish(fields, png)
         == if |png| < Pow10(MAX_DIGITS) then Some(Claim(Get(fields, "station_name"), Get(fields, "proxy_id"), png))
            else None
  {
    PrintIsParsed(|png|);
  }

  /**
    A documented frame is parsed to its claim exactly if `int` reads the length, whatever bytes the image is made of.
   */
  lemma FrameRoundTrip(claim: Claim)
    requires PlainName(claim.stationName) && PlainName(claim.proxyId) && PNG_MAGIC <= claim.png
    ensures Parse(Build(claim)) == if |claim.png| < Pow10(MAX_DIGITS) then Some(claim) else None
  {
    HeaderIsPlain(claim.stationName, claim.proxyId, |claim.png|);
    HeaderIsRead(HeaderLines(claim.stationName, claim.proxyId, |claim.png|), claim.png);
    HeaderFields(claim.stationName, claim.proxyId, |claim.png|);
    DocumentedLookups(claim.stationName, claim.proxyId, Print(|claim.png|));
    FinishAccepts(DocumentedFields(claim.stationName, claim.proxyId, Print(|claim.png|)), claim.png);
  }

  /** The line sets the field: its text before the first ": " is the key. */
  predicate Sets(line: string, key: string, value: string) {
    ColonAt(line, |key|) && line == key + ": " + value && forall k :: 0 <= k < |key| ==> !ColonAt(line, k)
  }

  lemma LineSetsIff(fields: map<string, string>, line: string, key: string, value: string)
    ensures Sets(line, key, value) ==> WithLine(fields, line) == fields[key := value]
    ensures (forall v :: !Sets(line, key, v)) ==>
              (key in WithLine(fields, line) <==> key in fields)
              && (key in fields ==> WithLine(fields, line)[key] == fields[key])
  {
    var i := FindColon(line);
    if Sets(line, key, value) {
      assert i == |key| && line[..i] == key && line[i + 2..] == value;
    }
    if i < |line| {
      var k, v := line[..i], line[i + 2..];
      assert line == k + ": " + v;
      assert Sets(line, k, v);
    }
  }

  /** The last line that sets a field gives its value. */
  ghost predicate LastSet(lines: seq<string>, key: string, value: string, i: nat) {
    && i < |lines| && Sets(lines[i], key, value)
    && forall j, v :: i < j < |lines| ==> !Sets(lines[j], key, v)
  }

  lemma {:induction false} FieldsExact(lines: seq<string>, key: string) returns (i: nat)
    ensures key in Fields(lines) ==> LastSet(lines, key, Fields(lines)[key], i)
    ensures key !in Fields(lines) ==> forall j, v :: 0 <= j < |lines| ==> !Sets(lines[j], key, v)
    decreases |lines|
  {
    i := 0;
    if lines != [] {
      var front, last := lines[..|lines| - 1], lines[|lines| - 1];
      i := FieldsExact(front, key);
      assert forall j :: 0 <= j < |front| ==> lines[j] == front[j];
      if v :| Sets(last, key, v) {
        i := |lines| - 1;
        LineSetsIff(Fields(front), last, key, v);
      } else {
        LineSetsIff(Fields(front), last, key, "");
      }
    }
  }

  /** The frame is this header, a blank line, the first one, and this body. */
  predicate CutAtBlank(frame: seq<byte>, header: seq<byte>, body: seq<byte>) {
    && frame == header + [LF, LF] + body
    && forall i :: 0 <= i < |header| ==> !BlankAt(frame, i)
  }

  /**
    A frame is accepted exactly if its header, up to the first blank line, begins with the version and announces the
    very length of the body, and the body has the PNG signature; the claim is the two names and the whole body.
   */
  lemma AcceptedFrame(frame: seq<byte>, header: seq<byte>, claim: Claim)
    requires CutAtBlank(frame, header, claim.png)
    ensures Parse(frame) == Some(claim) <==>
              var lines := Split(FromAscii(header), '\n');
              var fields := Fields(lines[1..]);
              && lines[0] == VERSION && PNG_MAGIC <= claim.png
              && "png_len" in fields && ParseInt(fields["png_len"]) == Some(|claim.png|)
              && claim.stationName == Get(fields, "station_name") && claim.proxyId == Get(fields, "proxy_id")
  {
    FirstBlank(frame, header, claim.png);
    Parts(header, claim.png);
  }

  lemma FirstBlank(frame: seq<byte>, header: seq<byte>, body: seq<byte>)
    requires CutAtBlank(frame, header, body)
    ensures FindBlank(frame) == Some(|header|)
  {
    assert BlankAt(frame, |header|);
  }

  /** Every accepted frame is cut that way. */
  lemma AcceptedIsCut(frame: seq<byte>)
    requires Parse(frame).Some?
    ensures CutAtBlank(frame, frame[..FindBlank(frame).value], Parse(frame).value.png)
  {
    var i := FindBlank(frame).value;
    AroundBlank(frame, i);
  }

  lemma AroundBlank(frame: seq<byte>, i: nat)
    requires BlankAt(frame, i)
    ensures frame == frame[..i] + [LF, LF] + frame[i + 2..]
  {
  }

  lemma BlankIsStable(frame: seq<byte>, extra: seq<byte>)
    requires FindBlank(frame).Some?
    ensures FindBlank(frame + extra) == FindBlank(frame)
  {
    var i, s := FindBlank(frame).value, frame + extra;
    assert BlankAt(s, i);
    forall k | 0 <= k < i ensures !BlankAt(s, k) { assert !BlankAt(frame, k); }
  }

  /** Neither a frame that goes on nor one that stops short is accepted. */
  lemma NoFrameIsAPrefix(frame: seq<byte>, extra: seq<byte>)
    requires Parse(frame).Some? && Parse(frame + extra).Some?
    ensures extra == []
  {
    BlankIsStable(frame, extra);
    var i := FindBlank(frame).value;
    assert (frame + extra)[..i] == frame[..i];
  }
}

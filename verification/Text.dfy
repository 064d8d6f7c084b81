/** Python text operations: splitlines, strip and partition, on strings of Unicode scalar values. */
module Text {

  /** The characters at which `str.splitlines` ends a line. */
  predicate Break(c: char) {
    || c == '\n' || c == '\r' || c == '\U{0B}' || c == '\U{0C}' || c == '\U{1C}' || c == '\U{1D}' || c == '\U{1E}'
    || c == '\U{85}' || c == '\U{2028}' || c == '\U{2029}'
  }

  /** `str.isspace`. */
  predicate Space(c: char) {
    || Break(c) || c == '\t' || c == ' ' || c == '\U{1F}' || c == '\U{A0}' || c == '\U{1680}'
    || '\U{2000}' <= c <= '\U{200A}' || c == '\U{202F}' || c == '\U{205F}' || c == '\U{3000}'
  }

  predicate OneLine(s: string) { forall i :: 0 <= i < |s| ==> !Break(s[i]) }

  /** The number of characters of the first line, its terminator included. */
  function LineLength(s: string): (n: nat)
    requires s != ""
    ensures 1 <= n <= |s|
  {
    if s[0] == '\r' && |s| > 1 && s[1] == '\n' then 2
    else if Break(s[0]) || |s| == 1 then 1
    else 1 + LineLength(s[1..])
  }

  /** `splitlines(keepends=True)`. */
  function KeepLines(s: string): seq<string>
    decreases |s|
  {
    if s == "" then [] else [s[..LineLength(s)]] + KeepLines(s[LineLength(s)..])
  }

  function Concat(lines: seq<string>): string {
    if lines == [] then "" else lines[0] + Concat(lines[1..])
  }

  /** A line without its terminator. */
  function Bare(line: string): string {
    if |line| >= 2 && line[|line| - 2] == '\r' && line[|line| - 1] == '\n' then line[..|line| - 2]
    else if line != "" && Break(line[|line| - 1]) then line[..|line| - 1]
    else line
  }

  /** `splitlines()`. */
  function SplitLines(s: string): (r: seq<string>)
    decreases |s|
  {
    if s == "" then [] else [Bare(s[..LineLength(s)])] + SplitLines(s[LineLength(s)..])
  }

  /** Lines, each ended by a line feed. */
  function EndLines(lines: seq<string>): string {
    if lines == [] then "" else lines[0] + "\n" + EndLines(lines[1..])
  }

  lemma {:induction false} ConcatKeepLines(s: string)
    ensures Concat(KeepLines(s)) == s
    decreases |s|
  {
    if s != "" {
      ConcatKeepLines(s[LineLength(s)..]);
      assert s == s[..LineLength(s)] + s[LineLength(s)..];
    }
  }

  lemma {:induction false} FirstLine(line: string, rest: string)
    requires OneLine(line)
    ensures LineLength(line + "\n" + rest) == |line| + 1
    decreases |line|
  {
    var s := line + "\n" + rest;
    if line != "" {
      FirstLine(line[1..], rest);
      assert s[1..] == line[1..] + "\n" + rest;
      assert s[0] == line[0];
    }
  }

  /** Ended lines are split again as they were. */
  lemma {:induction false} SplitEndLines(lines: seq<string>)
    requires forall i :: 0 <= i < |lines| ==> OneLine(lines[i])
    ensures SplitLines(EndLines(lines)) == lines
    decreases |lines|
  {
    if lines != [] {
      var line, rest := lines[0], EndLines(lines[1..]);
      var s := line + "\n" + rest;
      FirstLine(line, rest);
      SplitEndLines(lines[1..]);
      assert s[..|line| + 1] == line + "\n" && s[|line| + 1..] == rest;
      assert Bare(line + "\n") == line by {
        assert line != "" ==> (line + "\n")[|line| - 1] == line[|line| - 1];
        assert (line + "\n")[..|line|] == line;
      }
      assert lines == [line] + lines[1..];
    }
  }

  lemma {:induction false} LineShape(s: string)
    requires s != ""
    ensures forall i :: 0 <= i < LineLength(s) - 2 ==> !Break(s[i])
    ensures LineLength(s) >= 2 ==>
              !Break(s[LineLength(s) - 2]) || (s[LineLength(s) - 2] == '\r' && s[LineLength(s) - 1] == '\n')
    decreases |s|
  {
    if !(s[0] == '\r' && |s| > 1 && s[1] == '\n') && !Break(s[0]) && |s| > 1 {
      LineShape(s[1..]);
      forall i | 0 <= i < LineLength(s) - 2 ensures !Break(s[i]) {
        if i > 0 { assert s[i] == s[1..][i - 1]; }
      }
    }
  }

  /** No line of `splitlines` contains a line break. */
  lemma {:induction false} SplitLinesAreSingle(s: string)
    ensures forall i :: 0 <= i < |SplitLines(s)| ==> OneLine(SplitLines(s)[i])
    decreases |s|
  {
    if s != "" {
      LineShape(s);
      SplitLinesAreSingle(s[LineLength(s)..]);
    }
  }

  /******* Lines with their terminators *******/

  predicate Terminated(line: string) { line != "" && Break(line[|line| - 1]) }

  /** A text that is one line. */
  predicate IsLine(line: string) { line != "" && LineLength(line) == |line| }

  /** The second text starts a new line after the first. */
  predicate Apart(line: string, rest: string) {
    Terminated(line) && !(line[|line| - 1] == '\r' && rest != "" && rest[0] == '\n')
  }

  lemma {:induction false} FirstIsLine(s: string)
    requires s != ""
    ensures IsLine(s[..LineLength(s)])
    ensures LineLength(s) < |s| ==> Apart(s[..LineLength(s)], s[LineLength(s)..])
    decreases |s|
  {
    var k := LineLength(s);
    if !(s[0] == '\r' && |s| > 1 && s[1] == '\n') && !Break(s[0]) && |s| > 1 {
      FirstIsLine(s[1..]);
      assert s[..k][1..] == s[1..][..k - 1];
      assert s[1..][k - 1..] == s[k..];
    }
  }

  lemma {:induction false} LineThenRest(line: string, rest: string)
    requires IsLine(line) && Apart(line, rest)
    ensures LineLength(line + rest) == |line|
    decreases |line|
  {
    if |line| > 1 && !(line[0] == '\r' && line[1] == '\n') {
      LineThenRest(line[1..], rest);
      assert (line + rest)[1..] == line[1..] + rest;
    }
  }

  /** Lines that `splitlines` would find in their concatenation. */
  predicate Proper(lines: seq<string>) {
    && (forall i :: 0 <= i < |lines| ==> IsLine(lines[i]))
    && (forall i :: 0 < i < |lines| ==> Apart(lines[i - 1], lines[i]))
  }

  lemma {:induction false} KeepLinesAreProper(s: string)
    ensures Proper(KeepLines(s))
    ensures s != "" ==> KeepLines(s) != [] && KeepLines(s)[0] == s[..LineLength(s)]
    decreases |s|
  {
    if s != "" {
      var k := LineLength(s);
      FirstIsLine(s);
      KeepLinesAreProper(s[k..]);
      if k < |s| {
        var next := s[k..];
        assert KeepLines(next)[0][0] == next[0];
      }
    }
  }

  lemma {:induction false} KeepLinesOfConcat(lines: seq<string>)
    requires Proper(lines)
    ensures KeepLines(Concat(lines)) == lines
    decreases |lines|
  {
    if lines != [] {
      var rest := Concat(lines[1..]);
      KeepLinesOfConcat(lines[1..]);
      if |lines| > 1 {
        assert rest != "" && rest[0] == lines[1][0];
        LineThenRest(lines[0], rest);
      } else {
        assert lines[0] + rest == lines[0];
      }
      assert (lines[0] + rest)[|lines[0]|..] == rest;
      assert lines == [lines[0]] + lines[1..];
    }
  }

  lemma {:induction false} ConcatAppend(a: seq<string>, b: seq<string>)
    ensures Concat(a + b) == Concat(a) + Concat(b)
    decreases |a|
  {
    if a == [] {
      assert a + b == b;
    } else {
      ConcatAppend(a[1..], b);
      assert (a + b)[1..] == a[1..] + b;
    }
  }

  /******* Stripping *******/

  function StripLeft(s: string): (r: string)
    ensures |r| <= |s| && (r != "" ==> !Space(r[0]))
  {
    if s != "" && Space(s[0]) then StripLeft(s[1..]) else s
  }

  function StripRight(s: string): (r: string)
    ensures r <= s && (r != "" ==> !Space(r[|r| - 1]))
  {
    if s != "" && Space(s[|s| - 1]) then StripRight(s[..|s| - 1]) else s
  }

  /** `str.strip`. */
  function Strip(s: string): (r: string)
    ensures r != "" ==> !Space(r[0]) && !Space(r[|r| - 1])
  {
    StripRight(StripLeft(s))
  }

  lemma StripIsIdentity(s: string)
    requires s != "" ==> !Space(s[0]) && !Space(s[|s| - 1])
    ensures Strip(s) == s
  {
  }

  lemma {:induction false} StripLeftIsSuffix(s: string) returns (k: nat)
    ensures k <= |s| && StripLeft(s) == s[k..]
    decreases |s|
  {
    k := 0;
    if s != "" && Space(s[0]) {
      k := StripLeftIsSuffix(s[1..]);
      k := k + 1;
    }
  }

  /** What is stripped is part of the original. */
  lemma StripIsPart(s: string) returns (k: nat, m: nat)
    ensures k <= m <= |s| && Strip(s) == s[k..m]
    ensures k < m ==> !Space(s[m - 1])
  {
    k := StripLeftIsSuffix(s);
    m := k + |Strip(s)|;
    assert Strip(s) == StripLeft(s)[..|Strip(s)|];
  }

  /******* Partition *******/

  /** The position of the first occurrence of a character, or the length. */
  function Find(s: string, c: char): (i: nat)
    ensures i <= |s| && (i < |s| ==> s[i] == c) && (forall k :: 0 <= k < i ==> s[k] != c)
    ensures i < |s| <==> c in s
  {
    if s == "" then 0 else if s[0] == c then 0 else
      var i := 1 + Find(s[1..], c);
      assert forall k :: 1 <= k < |s| ==> s[k] == s[1..][k - 1];
      i
  }

  lemma FindIs(s: string, c: char, i: nat)
    requires i < |s| && s[i] == c && forall k :: 0 <= k < i ==> s[k] != c
    ensures Find(s, c) == i
  {
  }
}

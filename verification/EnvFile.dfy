/**
  The canonical `.env` file (backend/env_file.py): a bounded read, a bounded atomic
  write, and the replacement of one key's line.
 */
module EnvFile {
  import opened Wrappers
  import opened Text
  import opened Utf8

  const MAX_ENV_BYTES := 256 * 1024

  /** What is at the path. `canonical` is the verdict of the ownership, mode and link-count gates. */
  datatype Object = Absent | File(bytes: seq<byte>, canonical: bool) | Foreign

  /******* Reading and writing *******/

  /** `read_env_text`. */
  function Read(o: Object): Option<string> {
    match o
    case Absent => Some("")
    case Foreign => None
    case File(bytes, canonical) => if |bytes| > MAX_ENV_BYTES || !canonical then None else TextOf(bytes)
  }

  /** A text is read exactly if nothing is there, or a canonical file within bounds that encodes it. */
  lemma ReadExact(o: Object, text: string)
    ensures Read(o) == Some(text) <==>
              || (o.Absent? && text == "")
              || (o.File? && o.canonical && |o.bytes| <= MAX_ENV_BYTES && o.bytes == BytesOf(text))
  {
    if o.File? {
      TextRoundTrip(text);
      if TextOf(o.bytes).Some? { BytesRoundTrip(o.bytes); }
    }
  }

  /** `write_env_text` accepts the content for this destination. */
  predicate MayWrite(o: Object, content: string) {
    !o.Foreign? && |BytesOf(content)| <= MAX_ENV_BYTES
  }

  /** What is written is what is read back. */
  lemma WrittenIsRead(o: Object, content: string)
    requires MayWrite(o, content)
    ensures Read(File(BytesOf(content), true)) == Some(content)
  {
    TextRoundTrip(content);
  }

  /******* Replacing the line of a key *******/

  /** The lines with the line of the key replaced, or with that line at the end. */
  function SetLine(lines: seq<string>, key: string, line: string): seq<string> {
    if lines == [] then [line]
    else if key <= lines[0] then [line] + lines[1..]
    else if |lines| == 1 && !Ended(lines[0]) then [lines[0], "\n", line]
    else [lines[0]] + SetLine(lines[1..], key, line)
  }

  predicate Ended(line: string) { line != "" && line[|line| - 1] == '\n' }

  /** The new content of the file, if the call is well-formed. */
  function SetKey(existing: string, key: string, line: string): Option<string> {
    if key <= line && Ended(line) then Some(Concat(SetLine(KeepLines(existing), key, line))) else None
  }

  /** A replacement is accepted exactly if it starts with the key and ends the line. */
  lemma SetKeyIff(existing: string, key: string, line: string)
    ensures SetKey(existing, key, line).Some? <==>
              (exists rest: string :: line == key + rest) && line != "" && line[|line| - 1] == '\n'
  {
    if key <= line { assert line == key + line[|key|..]; }
  }

  class EnvPath {
    var file: Object

    constructor (o: Object)
      ensures file == o
    {
      file := o;
    }

    /** `set_env_key`; the write is atomic, so a refused call leaves the file as it was. */
    method SetEnvKey(key: string, line: string) returns (done: bool)
      modifies this
      ensures done <==>
                && Read(old(file)).Some? && SetKey(Read(old(file)).value, key, line).Some?
                && MayWrite(old(file), SetKey(Read(old(file)).value, key, line).value)
      ensures done ==> Read(file) == SetKey(Read(old(file)).value, key, line)
      ensures !done ==> file == old(file)
    {
      if !(key <= line) || !Ended(line) { return false; }
      var existing := Read(file);
      if existing.None? { return false; }
      var lines := Replaced(KeepLines(existing.value), key, line);
      var content := Concat(lines);
      if |BytesOf(content)| > MAX_ENV_BYTES { return false; }
      WrittenIsRead(file, content);
      file := File(BytesOf(content), true);
      return true;
    }
  }

  /** The loop over the lines, and the line at the end if no line was replaced. */
  method Replaced(before: seq<string>, key: string, line: string) returns (lines: seq<string>)
    ensures lines == SetLine(before, key, line)
  {
    lines := before;
    for i := 0 to |lines|
      invariant lines == before && forall k :: 0 <= k < i ==> !(key <= before[k])
    {
      if key <= lines[i] {
        ReplaceAt(before, key, line, i);
        return lines[i := line];
      }
    }
    AppendAtEnd(before, key, line);
    if lines != [] && !Ended(lines[|lines| - 1]) { lines := lines + ["\n"]; }
    lines := lines + [line];
  }

  lemma {:induction false} ReplaceAt(lines: seq<string>, key: string, line: string, i: nat)
    requires i < |lines| && key <= lines[i] && forall k :: 0 <= k < i ==> !(key <= lines[k])
    ensures SetLine(lines, key, line) == lines[i := line]
    decreases |lines|
  {
    if i > 0 { ReplaceAt(lines[1..], key, line, i - 1); }
  }

  lemma {:induction false} AppendAtEnd(lines: seq<string>, key: string, line: string)
    requires forall k :: 0 <= k < |lines| ==> !(key <= lines[k])
    ensures SetLine(lines, key, line)
         == lines + (if lines != [] && !Ended(lines[|lines| - 1]) then ["\n"] else []) + [line]
    decreases |lines|
  {
    if |lines| > 1 { AppendAtEnd(lines[1..], key, line); }
  }

  /** The position of the first line of the key, or the number of lines. */
  function FirstOf(lines: seq<string>, key: string): (i: nat)
    ensures i <= |lines| && (i < |lines| ==> key <= lines[i]) && forall k :: 0 <= k < i ==> !(key <= lines[k])
  {
    if lines == [] || key <= lines[0] then 0 else 1 + FirstOf(lines[1..], key)
  }

  lemma {:induction false} LastOfConcat(lines: seq<string>)
    requires lines != [] && lines[|lines| - 1] != ""
    ensures Concat(lines) != "" && Ended(Concat(lines)) == Ended(lines[|lines| - 1])
    decreases |lines|
  {
    if |lines| > 1 { LastOfConcat(lines[1..]); } else { assert Concat(lines) == lines[0] + ""; }
  }

  /** The line feed that an unended file lacks. */
  function Fill(existing: string): string { if existing != "" && !Ended(existing) then "\n" else "" }

  /** Without a line of the key, the line is added at the end, after a line feed if the file lacks one. */
  lemma MissingKeyIsAppended(existing: string, key: string, line: string)
    requires key <= line && Ended(line)
    requires FirstOf(KeepLines(existing), key) == |KeepLines(existing)|
    ensures SetKey(existing, key, line) == Some(existing + Fill(existing) + line)
  {
    var lines := KeepLines(existing);
    AppendAtEnd(lines, key, line);
    ConcatKeepLines(existing);
    KeepLinesAreProper(existing);
    if lines != [] { LastOfConcat(lines); }
    AppendedText(lines, line);
  }

  lemma AppendedText(lines: seq<string>, line: string)
    ensures Concat(lines + ["\n"] + [line]) == Concat(lines) + "\n" + line
    ensures Concat(lines + [] + [line]) == Concat(lines) + "" + line
  {
    ConcatAppend(lines + ["\n"], [line]);
    ConcatAppend(lines, ["\n"]);
    ConcatAppend(lines, [line]);
    ConcatOne(line);
    ConcatOne("\n");
    assert lines + [] + [line] == lines + [line];
  }

  lemma ConcatOne(line: string)
    ensures Concat([line]) == line
  {
    assert Concat([line]) == line + "";
  }

  /** Only the first line of the key is rewritten; all text before and after it stays. */
  lemma OnlyTheFirstLineChanges(existing: string, key: string, line: string)
    requires key <= line && Ended(line)
    requires FirstOf(KeepLines(existing), key) < |KeepLines(existing)|
    ensures var lines := KeepLines(existing);
            var i := FirstOf(lines, key);
            var before, after := Concat(lines[..i]), Concat(lines[i + 1..]);
            && existing == before + lines[i] + after
            && SetKey(existing, key, line) == Some(before + line + after)
  {
    var lines := KeepLines(existing);
    var i := FirstOf(lines, key);
    ReplaceAt(lines, key, line, i);
    ConcatKeepLines(existing);
    Around(lines, i, lines[i]);
    Around(lines, i, line);
    assert lines[i := lines[i]] == lines;
  }

  lemma Around(lines: seq<string>, i: nat, line: string)
    requires i < |lines|
    ensures Concat(lines[i := line]) == Concat(lines[..i]) + line + Concat(lines[i + 1..])
  {
    assert lines[i := line] == lines[..i] + ([line] + lines[i + 1..]);
    ConcatAppend(lines[..i], [line] + lines[i + 1..]);
    ConcatAppend([line], lines[i + 1..]);
    assert Concat([line]) == line + "";
  }

  /** A replacement line that is one line, for a key within it. */
  predicate SingleLine(key: string, line: string) {
    |key| < |line| && key <= line && Ended(line) && OneLine(line[..|line| - 1])
  }

  /** Setting a key to a single line twice is setting it once. */
  lemma SettingTwiceIsSettingOnce(existing: string, key: string, line: string)
    requires SingleLine(key, line)
    ensures SetKey(existing, key, line).Some?
    ensures SetKey(SetKey(existing, key, line).value, key, line) == SetKey(existing, key, line)
  {
    var lines := KeepLines(existing);
    KeepLinesAreProper(existing);
    if FirstOf(lines, key) < |lines| {
      ReplacedStays(lines, key, line, FirstOf(lines, key));
    } else {
      AppendAtEnd(lines, key, line);
      if lines == [] || Ended(lines[|lines| - 1]) {
        AppendedStays(lines, key, line);
      } else {
        var last := lines[|lines| - 1];
        if Break(last[|last| - 1]) && last[|last| - 1] != '\r' {
          FilledStays(lines, key, line);
        } else {
          JoinedStays(lines, key, line);
        }
      }
    }
  }

  lemma ReplacedStays(lines: seq<string>, key: string, line: string, i: nat)
    requires Proper(lines) && SingleLine(key, line) && i < |lines| && key <= lines[i]
    requires forall k :: 0 <= k < i ==> !(key <= lines[k])
    ensures var s := Concat(SetLine(lines, key, line)); SetKey(s, key, line) == Some(s)
  {
    ReplaceAt(lines, key, line, i);
    SingleIsLine(line);
    var after := lines[i := line];
    forall k | 0 < k < |after| ensures Apart(after[k - 1], after[k]) {
      assert Apart(lines[k - 1], lines[k]);
      if k == i { assert line[0] == key[0]; assert lines[i][0] == key[0]; }
    }
    SetStays(after, key, line, i);
  }

  lemma ProperSnoc(lines: seq<string>, line: string)
    requires Proper(lines) && IsLine(line) && (lines != [] ==> Apart(lines[|lines| - 1], line))
    ensures Proper(lines + [line])
  {
    var after := lines + [line];
    forall k | 0 < k < |after| ensures Apart(after[k - 1], after[k]) {
      if k < |lines| { assert Apart(lines[k - 1], lines[k]); }
    }
  }

  lemma AppendedStays(lines: seq<string>, key: string, line: string)
    requires Proper(lines) && SingleLine(key, line) && (lines == [] || Ended(lines[|lines| - 1]))
    requires forall k :: 0 <= k < |lines| ==> !(key <= lines[k])
    ensures var s := Concat(lines + [] + [line]); SetKey(s, key, line) == Some(s)
  {
    SingleIsLine(line);
    ProperSnoc(lines, line);
    assert lines + [] + [line] == lines + [line];
    SetStays(lines + [line], key, line, |lines|);
  }

  /** After another line break, the added line feed is a line of its own. */
  lemma FilledStays(lines: seq<string>, key: string, line: string)
    requires Proper(lines) && SingleLine(key, line) && lines != []
    requires var last := lines[|lines| - 1]; last != "" && Break(last[|last| - 1]) && last[|last| - 1] != '\r'
    requires forall k :: 0 <= k < |lines| ==> !(key <= lines[k])
    ensures var s := Concat(lines + ["\n"] + [line]); SetKey(s, key, line) == Some(s)
  {
    SingleIsLine(line);
    KeyWithoutBreak(key, line, "");
    ProperSnoc(lines, "\n");
    ProperSnoc(lines + ["\n"], line);
    SetStays(lines + ["\n"] + [line], key, line, |lines| + 1);
  }

  lemma SingleIsLine(line: string)
    requires Ended(line) && OneLine(line[..|line| - 1])
    ensures IsLine(line) && forall rest :: Apart(line, rest)
  {
    FirstLine(line[..|line| - 1], "");
    assert line[..|line| - 1] + "\n" + "" == line;
  }

  /** Proper lines in which the key's first line is already the wanted one are left alone. */
  lemma SetStays(lines: seq<string>, key: string, line: string, i: nat)
    requires i < |lines| && lines[i] == line && key <= line && Ended(line)
    requires forall k :: 0 <= k < i ==> !(key <= lines[k])
    requires Proper(lines)
    ensures SetKey(Concat(lines), key, line) == Some(Concat(lines))
  {
    KeepLinesOfConcat(lines);
    ReplaceAt(lines, key, line, i);
    assert lines[i := line] == lines;
  }

  /** Otherwise it completes the last line. */
  lemma JoinedStays(lines: seq<string>, key: string, line: string)
    requires Proper(lines) && SingleLine(key, line) && lines != []
    requires var last := lines[|lines| - 1];
             last != "" && !Ended(last) && (Break(last[|last| - 1]) ==> last[|last| - 1] == '\r')
    requires forall k :: 0 <= k < |lines| ==> !(key <= lines[k])
    ensures var s := Concat(lines + ["\n"] + [line]); SetKey(s, key, line) == Some(s)
  {
    var n := |lines| - 1;
    var front, last := lines[..n], lines[n];
    assert lines == front + [last];
    var joined := front + [last + "\n"] + [line];
    JoinedText(front, last, line);
    JoinedIsProper(lines, line);
    KeyWithoutBreak(key, line, last);
    forall k | 0 <= k < n + 1 ensures !(key <= joined[k]) { if k < n { assert joined[k] == lines[k]; } }
    SetStays(joined, key, line, n + 1);
  }

  lemma JoinedIsProper(lines: seq<string>, line: string)
    requires Proper(lines) && lines != [] && Ended(line) && OneLine(line[..|line| - 1])
    requires var last := lines[|lines| - 1];
             last != "" && !Ended(last) && (Break(last[|last| - 1]) ==> last[|last| - 1] == '\r')
    ensures Proper(lines[..|lines| - 1] + [lines[|lines| - 1] + "\n"] + [line])
  {
    var n := |lines| - 1;
    var joined := lines[..n] + [lines[n] + "\n"] + [line];
    SingleIsLine(line);
    JoinedLine(lines[n]);
    forall k | 0 < k < |joined| ensures Apart(joined[k - 1], joined[k]) {
      if k <= n { assert Apart(lines[k - 1], lines[k]); assert joined[k][0] == lines[k][0]; }
    }
  }

  lemma JoinedText(front: seq<string>, last: string, line: string)
    ensures Concat(front + [last] + ["\n"] + [line]) == Concat(front + [last + "\n"] + [line])
  {
    AppendedText(front + [last], line);
    ConcatAppend(front, [last]);
    ConcatAppend(front, [last + "\n"]);
    ConcatAppend(front + [last + "\n"], [line]);
    ConcatOne(last);
    ConcatOne(last + "\n");
    ConcatOne(line);
    assert Concat(front) + last + "\n" == Concat(front) + (last + "\n");
  }

  lemma {:induction false} JoinedLine(last: string)
    requires IsLine(last) && !Ended(last) && (Break(last[|last| - 1]) ==> last[|last| - 1] == '\r')
    ensures IsLine(last + "\n")
    decreases |last|
  {
    if |last| > 1 {
      JoinedLine(last[1..]);
      assert (last + "\n")[1..] == last[1..] + "\n";
    }
  }

  lemma KeyWithoutBreak(key: string, line: string, last: string)
    requires SingleLine(key, line) && !(key <= last)
    ensures !(key <= last + "\n")
  {
    forall i | 0 <= i < |key| ensures key[i] != '\n' { assert key[i] == line[i] == line[..|line| - 1][i]; }
    if key <= last + "\n" { PrefixOfLonger(key, last); }
  }

  lemma PrefixOfLonger(key: string, last: string)
    requires key != "" && key <= last + "\n"
    ensures key <= last || key[|key| - 1] == '\n'
  {
    if |key| <= |last| {
      assert key == (last + "\n")[..|key|] == last[..|key|];
    } else {
      assert key[|last|] == (last + "\n")[|last|];
    }
  }
}

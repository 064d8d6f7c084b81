/**
  The canonical `SHA256SUMS` of a wheelhouse (release/transfer_manifest.py): a text that
  the wheels alone determine. Digests are given by name.
 */
module Sha256Sums {
  import opened Wrappers
  import opened Order
  import opened Splitting
  import opened Text
  import opened Utf8
  import opened Names

  const EXPECTED_WHEELS := 30

  predicate Hex64(s: string) { |s| == 64 && AllLowerHex(s) }

  /** The position of the first two adjacent spaces, or the length. */
  function FindPair(s: string): (i: nat)
    ensures i <= |s|
    ensures i < |s| ==> i + 1 < |s| && s[i] == ' ' && s[i + 1] == ' '
    ensures forall k :: 0 <= k < i && k + 1 < |s| ==> s[k] != ' ' || s[k + 1] != ' '
  {
    if |s| < 2 then |s|
    else if s[0] == ' ' && s[1] == ' ' then 0
    else
      assert forall k :: 0 < k && k + 1 < |s| ==> s[k] == s[1..][k - 1] && s[k + 1] == s[1..][k];
      1 + FindPair(s[1..])
  }

  predicate Bare(name: string) { '/' !in name && '\\' !in name && Strip(name) == name }

  /** A name that can stand in a line: a bare file name without two adjacent spaces. */
  predicate CleanName(name: string) { name != "" && Bare(name) && FindPair(name) == |name| && '\n' !in name }

  /** Ordinary names can stand in a line. */
  lemma PlainNamesAreClean(name: string)
    requires name != "" && forall i :: 0 <= i < |name| ==> !Space(name[i]) && name[i] != '/' && name[i] != '\\'
    ensures CleanName(name)
  {
    StripIsIdentity(name);
    assert FindPair(name) < |name| ==> Space(name[FindPair(name)]);
    assert forall i :: 0 <= i < |name| ==> name[i] != '\n';
  }

  /** The digest and name of a line, if it is well-formed. */
  function ParseLine(line: string): Option<(string, string)> {
    var i := FindPair(line);
    if i == |line| then None
    else
      var digest, name := line[..i], line[i + 2..];
      if FindPair(name) != |name| || name == "" || !Hex64(digest) || !Bare(name) then None else Some((digest, name))
  }

  function Line(digest: string, name: string): string { digest + "  " + name }

  lemma LineIsParsed(digest: string, name: string)
    requires Hex64(digest) && CleanName(name)
    ensures ParseLine(Line(digest, name)) == Some((digest, name)) && '\n' !in Line(digest, name)
  {
    var line := Line(digest, name);
    forall i | 0 <= i < 64 ensures line[i] != ' ' && line[i] != '\n' {
      assert line[i] == digest[i] && LowerHex(digest[i]);
    }
    assert line[64] == ' ' && line[65] == ' ';
    assert FindPair(line) == 64;
    assert line[..64] == digest && line[66..] == name;
    forall i | 64 <= i < |line| ensures line[i] != '\n' { if i >= 66 { assert line[i] == name[i - 66]; } }
  }

  lemma ParsedIsLine(line: string)
    requires ParseLine(line).Some? && '\n' !in line
    ensures var (digest, name) := ParseLine(line).value; Hex64(digest) && CleanName(name) && line == Line(digest, name)
  {
  }

  /** The lines of the canonical text. */
  function Lines(names: seq<string>, digests: map<string, string>): (r: seq<string>)
    requires forall n :: n in names ==> n in digests
    ensures |r| == |names| && forall i :: 0 <= i < |names| ==> r[i] == Line(digests[names[i]], names[i])
  {
    seq(|names|, i requires 0 <= i < |names| => Line(digests[names[i]], names[i]))
  }

  /** The canonical text: a line for each wheel, by name. */
  function CanonicalText(names: seq<string>, digests: map<string, string>): string
    requires forall n :: n in names ==> n in digests
  {
    EndLines(Lines(names, digests))
  }

  /** What `_exact_set` hands over: the sorted names of the wheels, and their actual digests. */
  ghost predicate Wheelhouse(names: seq<string>, digests: map<string, string>) {
    && |names| == EXPECTED_WHEELS && Ascending(Keys(names, Codes))
    && (forall n :: n in names <==> n in digests)
    && (forall n :: n in digests ==> Hex64(digests[n]))
  }

  lemma {:induction false} SplitEnded(lines: seq<string>)
    requires Free(lines, '\n')
    ensures Split(EndLines(lines), '\n') == lines + [""]
    decreases |lines|
  {
    EndLinesIsJoin(lines);
    SplitOfJoin(lines + [""], '\n');
  }

  lemma {:induction false} EndLinesIsJoin(lines: seq<string>)
    ensures EndLines(lines) == Join(lines + [""], '\n')
    decreases |lines|
  {
    if lines != [] {
      EndLinesIsJoin(lines[1..]);
      assert (lines + [""])[1..] == lines[1..] + [""];
    }
  }

  ghost predicate Clean(names: seq<string>) { forall n :: n in names ==> CleanName(n) }

  lemma CanonicalLines(names: seq<string>, digests: map<string, string>)
    requires Wheelhouse(names, digests) && Clean(names)
    ensures Split(CanonicalText(names, digests), '\n') == Lines(names, digests) + [""]
    ensures forall i :: 0 <= i < |names| ==> ParseLine(Lines(names, digests)[i]) == Some((digests[names[i]], names[i]))
  {
    var lines := Lines(names, digests);
    forall i | 0 <= i < |lines|
      ensures ParseLine(lines[i]) == Some((digests[names[i]], names[i])) && '\n' !in lines[i]
    {
      assert names[i] in names;
      LineIsParsed(digests[names[i]], names[i]);
    }
    SplitEnded(lines);
  }

  lemma NamesDiffer(names: seq<string>, i: nat, j: nat)
    requires Ascending(Keys(names, Codes)) && i < j < |names|
    ensures names[i] != names[j]
  {
    assert Less(Keys(names, Codes)[i], Keys(names, Codes)[j]);
    LessIrreflexive(Codes(names[i]));
  }

  type Entry = Option<(string, string)>

  function ParsedLines(lines: seq<string>): (r: seq<Entry>)
    ensures |r| == |lines| && forall i :: 0 <= i < |lines| ==> r[i] == ParseLine(lines[i])
  {
    seq(|lines|, i requires 0 <= i < |lines| => ParseLine(lines[i]))
  }

  /** The entries by name; none if one is malformed or repeats a name. */
  function ByName(entries: seq<Entry>): Option<map<string, string>> {
    if entries == [] then Some(map[])
    else
      var before, last := ByName(entries[..|entries| - 1]), entries[|entries| - 1];
      if before.None? || last.None? || last.value.1 in before.value then None
      else Some(before.value[last.value.1 := last.value.0])
  }

  lemma {:induction false} ByNamePrefix(entries: seq<Entry>, i: nat)
    requires i <= |entries| && ByName(entries[..i]).None?
    ensures ByName(entries).None?
    decreases |entries|
  {
    if i == |entries| {
      assert entries[..i] == entries;
    } else {
      assert entries[..|entries| - 1][..i] == entries[..i];
      ByNamePrefix(entries[..|entries| - 1], i);
    }
  }

  lemma {:induction false} NamesOfEntries(entries: seq<Entry>)
    requires ByName(entries).Some?
    ensures forall n :: n in ByName(entries).value ==>
              exists i :: 0 <= i < |entries| && entries[i].Some? && entries[i].value.1 == n
    decreases |entries|
  {
    if entries != [] {
      var front := entries[..|entries| - 1];
      NamesOfEntries(front);
      forall n | n in ByName(entries).value
        ensures exists i :: 0 <= i < |entries| && entries[i].Some? && entries[i].value.1 == n
      {
        if n in ByName(front).value {
          var i :| 0 <= i < |front| && front[i].Some? && front[i].value.1 == n;
          assert entries[i].value.1 == n;
        }
      }
    }
  }

  lemma AcceptedNamesAreClean(lines: seq<string>)
    requires Free(lines, '\n') && ByName(ParsedLines(lines)).Some?
    ensures CleanEntries(ByName(ParsedLines(lines)).value)
  {
    var entries := ParsedLines(lines);
    NamesOfEntries(entries);
    forall n | n in ByName(entries).value ensures CleanName(n) {
      var i :| 0 <= i < |entries| && entries[i].Some? && entries[i].value.1 == n;
      ParsedIsLine(lines[i]);
    }
  }

  ghost predicate CleanEntries(entries: map<string, string>) { forall n :: n in entries ==> CleanName(n) }

  /** The map is these names with their digests. */
  ghost predicate IsListing(m: map<string, string>, names: seq<string>, digests: map<string, string>) {
    (forall n :: n in m <==> n in names) && forall n :: n in m ==> n in digests && m[n] == digests[n]
  }

  /** The entries of the wheels list exactly the wheels. */
  lemma {:induction false} WheelEntries(entries: seq<Entry>, names: seq<string>, digests: map<string, string>)
    requires |entries| == |names| && Ascending(Keys(names, Codes)) && forall n :: n in names ==> n in digests
    requires forall i :: 0 <= i < |names| ==> entries[i] == Some((digests[names[i]], names[i]))
    ensures ByName(entries).Some? && IsListing(ByName(entries).value, names, digests)
    decreases |entries|
  {
    if entries != [] {
      var front, last := names[..|names| - 1], names[|names| - 1];
      assert names == front + [last];
      LastIsNew(front, last);
      WheelEntries(entries[..|entries| - 1], front, digests);
    }
  }

  lemma LastIsNew(front: seq<string>, last: string)
    requires Ascending(Keys(front + [last], Codes))
    ensures last !in front && Ascending(Keys(front, Codes))
  {
    var names := front + [last];
    assert Keys(front, Codes) == Keys(names, Codes)[..|front|];
    forall k | 0 <= k < |front| ensures front[k] != last { NamesDiffer(names, k, |front|); }
  }

  lemma CanonicalFile(names: seq<string>, digests: map<string, string>)
    requires Wheelhouse(names, digests) && Clean(names)
    ensures var parts := Split(CanonicalText(names, digests), '\n');
            && parts[|parts| - 1] == "" && |parts| == EXPECTED_WHEELS + 1
            && ByName(ParsedLines(parts[..|parts| - 1])) == Some(digests)
  {
    var lines := Lines(names, digests);
    CanonicalLines(names, digests);
    assert (lines + [""])[..|lines|] == lines;
    WheelEntries(ParsedLines(lines), names, digests);
    ListingIsAll(ByName(ParsedLines(lines)).value, names, digests);
  }

  lemma ListingIsAll(m: map<string, string>, names: seq<string>, digests: map<string, string>)
    requires IsListing(m, names, digests) && forall n :: n in names <==> n in digests
    ensures m == digests
  {
  }

  /**
    `_check_sha256sums`: a file is accepted exactly if it is the one canonical text for the wheels, and every
    wheel has a name that can be listed.
   */
  method CheckSums(sums: seq<byte>, names: seq<string>, digests: map<string, string>) returns (ok: bool)
    requires Wheelhouse(names, digests)
    ensures ok <==> sums == BytesOf(CanonicalText(names, digests)) && Clean(names)
  {
    TextRoundTrip(CanonicalText(names, digests));
    var text := TextOf(sums);
    if text.None? { return false; }
    BytesRoundTrip(sums);
    ok := CheckText(text.value, names, digests);
  }

  method CheckText(text: string, names: seq<string>, digests: map<string, string>) returns (ok: bool)
    requires Wheelhouse(names, digests)
    ensures ok <==> text == CanonicalText(names, digests) && Clean(names)
  {
    var found := ReadText(text, names, digests);
    if found.None? { return false; }
    ok := Compare(text, found.value, names, digests);
    if ok { CleanKeys(found.value, names); }
  }

  lemma CleanKeys(found: map<string, string>, names: seq<string>)
    requires CleanEntries(found) && forall n :: n in names ==> n in found
    ensures Clean(names)
  {
  }

  /** The lines of the file, as entries by name. */
  method ReadText(text: string, ghost names: seq<string>, ghost digests: map<string, string>)
      returns (found: Option<map<string, string>>)
    requires Wheelhouse(names, digests)
    ensures found.Some? ==> CleanEntries(found.value)
    ensures text == CanonicalText(names, digests) && Clean(names) ==> found == Some(digests)
  {
    var parts := Split(text, '\n');
    SplitIsFree(text, '\n');
    if text == CanonicalText(names, digests) && Clean(names) { CanonicalFile(names, digests); }
    if parts[|parts| - 1] != "" { return None; }
    var lines := parts[..|parts| - 1];
    if |lines| != EXPECTED_WHEELS { return None; }
    found := ReadEntries(ParsedLines(lines));
    if found.Some? { AcceptedNamesAreClean(lines); }
  }

  /** The loop over the lines. */
  method ReadEntries(entries: seq<Entry>) returns (found: Option<map<string, string>>)
    ensures found == ByName(entries)
  {
    var byName: map<string, string> := map[];
    for i := 0 to |entries|
      invariant Some(byName) == ByName(entries[..i])
    {
      assert entries[..i + 1][..i] == entries[..i];
      var entry := entries[i];
      if entry.None? || entry.value.1 in byName {
        ByNamePrefix(entries, i + 1);
        return None;
      }
      byName := byName[entry.value.1 := entry.value.0];
    }
    assert entries[..|entries|] == entries;
    return Some(byName);
  }

  /** The comparisons with the wheels. */
  method Compare(text: string, found: map<string, string>, names: seq<string>, digests: map<string, string>)
      returns (ok: bool)
    requires Wheelhouse(names, digests)
    ensures ok <==> found == digests && text == CanonicalText(names, digests)
  {
    if found.Keys != (set n | n in names) { return false; }
    for i := 0 to |names|
      invariant forall k :: 0 <= k < i ==> found[names[k]] == digests[names[k]]
    {
      assert names[i] in names;
      if found[names[i]] != digests[names[i]] { return false; }
    }
    SameDigests(found, names, digests);
    return text == CanonicalText(names, found);
  }

  lemma SameDigests(found: map<string, string>, names: seq<string>, digests: map<string, string>)
    requires Wheelhouse(names, digests) && found.Keys == set n | n in names
    requires forall k :: 0 <= k < |names| ==> found[names[k]] == digests[names[k]]
    ensures found == digests
  {
    assert found.Keys == digests.Keys;
    forall n | n in found ensures found[n] == digests[n] {
      assert n in names;
      var k :| 0 <= k < |names| && names[k] == n;
    }
  }
}

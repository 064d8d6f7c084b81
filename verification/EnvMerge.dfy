/**
  Merging the settings of a backup into a live `.env` (backend/backup/restore.py):
  only allowlisted keys are taken over, everything else in the live file stays.
 */
module EnvMerge {
  import opened Wrappers
  import opened Text

  const SECRET := "SESSION_SECRET"

  predicate Allowed(key: string) {
    || key == "ADMIN_USERNAME" || key == "ADMIN_PASSWORD_HASH" || key == "APP_PORT" || key == "LOG_LEVEL"
    || key == "SECURE_COOKIES" || key == "CF_ZONE_NAME" || key == "CF_RECORD_NAME"
  }

  predicate KeyChar(c: char) { 'A' <= c <= 'Z' || c == '_' }

  /** A key that reads back as itself. */
  predicate KeyShape(key: string) { key != "" && forall i :: 0 <= i < |key| ==> KeyChar(key[i]) }

  lemma AllowedShape(key: string)
    requires Allowed(key)
    ensures KeyShape(key) && key != SECRET
  {
    if key == "ADMIN_USERNAME" {
    } else if key == "ADMIN_PASSWORD_HASH" {
    } else if key == "APP_PORT" {
    } else if key == "LOG_LEVEL" {
    } else if key == "SECURE_COOKIES" {
    } else if key == "CF_ZONE_NAME" {
    }
  }

  /** A line that assigns a key: the key, and the text after the first equals sign of the stripped line. */
  function Assignment(line: string): (r: Option<(string, string)>) {
    var s := Strip(line);
    if s == "" || s[0] == '#' || '=' !in s then None
    else Some((Strip(s[..Find(s, '=')]), s[Find(s, '=') + 1..]))
  }

  /** A line assigns exactly if it is no comment and has an equals sign; the first one divides it. */
  lemma AssignmentExact(line: string, key: string, value: string)
    ensures Assignment(line) == Some((key, value)) <==>
              exists left: string :: Divides(Strip(line), left, value) && Strip(left) == key
  {
    var s := Strip(line);
    if Assignment(line).Some? { FirstEqualsDivides(s); }
    if left: string :| Divides(s, left, value) && Strip(left) == key { DividedOnce(s, left, value); }
  }

  lemma FirstEqualsDivides(s: string)
    requires s != "" && s[0] != '#' && '=' in s
    ensures Divides(s, s[..Find(s, '=')], s[Find(s, '=') + 1..])
  {
    var i := Find(s, '=');
    assert s == s[..i] + "=" + s[i + 1..];
  }

  lemma DividedOnce(s: string, left: string, right: string)
    requires Divides(s, left, right)
    ensures Find(s, '=') == |left| && s[..|left|] == left && s[|left| + 1..] == right && '=' in s && s != ""
  {
    assert s[|left|] == '=' && forall i :: 0 <= i < |left| ==> s[i] == left[i];
    FindIs(s, '=', |left|);
  }

  /** The first equals sign of a text that is no comment stands between these. */
  predicate Divides(s: string, left: string, right: string) {
    s == left + "=" + right && '=' !in left && s[0] != '#'
  }

  function KeyOf(line: string): Option<string> {
    if Assignment(line).Some? then Some(Assignment(line).value.0) else None
  }

  /** What a backup assigns: the allowed keys, in the order they first appear, with their last values. */
  datatype Subset = Subset(keys: seq<string>, values: map<string, string>)

  ghost predicate GoodSubset(sub: Subset) {
    && (forall k :: k in sub.keys <==> k in sub.values)
    && (forall i, j :: 0 <= i < j < |sub.keys| ==> sub.keys[i] != sub.keys[j])
    && (forall k :: k in sub.keys ==> Allowed(k) && Value(sub.values[k]))
  }

  /** The end of a stripped line: on one line and without trailing space. */
  predicate Value(v: string) { OneLine(v) && (v != "" ==> !Space(v[|v| - 1])) }

  function Taken(sub: Subset, line: string): Subset {
    match Assignment(line)
    case None => sub
    case Some((k, v)) =>
      if !Allowed(k) then sub
      else Subset(if k in sub.values then sub.keys else sub.keys + [k], sub.values[k := v])
  }

  function TakenFrom(lines: seq<string>): Subset {
    if lines == [] then Subset([], map[]) else Taken(TakenFrom(lines[..|lines| - 1]), lines[|lines| - 1])
  }

  function SetLine(sub: Subset, k: string): string
    requires k in sub.values
  {
    k + "=" + sub.values[k]
  }

  /** A line of the live file, with the backup's value if the backup assigns its key. */
  function Updated(sub: Subset, line: string): string {
    if KeyOf(line).Some? && KeyOf(line).value in sub.values then SetLine(sub, KeyOf(line).value) else line
  }

  function UpdatedAll(sub: Subset, lines: seq<string>): (r: seq<string>)
    ensures |r| == |lines| && forall i :: 0 <= i < |lines| ==> r[i] == Updated(sub, lines[i])
  {
    seq(|lines|, i requires 0 <= i < |lines| => Updated(sub, lines[i]))
  }

  /** The key is assigned by some line. */
  predicate Assigns(lines: seq<string>, key: string) {
    lines != [] && (KeyOf(lines[|lines| - 1]) == Some(key) || Assigns(lines[..|lines| - 1], key))
  }

  lemma AssignsIffSome(lines: seq<string>, key: string)
    ensures Assigns(lines, key) <==> exists i :: 0 <= i < |lines| && KeyOf(lines[i]) == Some(key)
  {
    if Assigns(lines, key) {
      var i := LineThatAssigns(lines, key);
    }
    if i :| 0 <= i < |lines| && KeyOf(lines[i]) == Some(key) { LineAssigns(lines, key, i); }
  }

  lemma {:induction false} LineThatAssigns(lines: seq<string>, key: string) returns (i: nat)
    requires Assigns(lines, key)
    ensures i < |lines| && KeyOf(lines[i]) == Some(key)
    decreases |lines|
  {
    i := |lines| - 1;
    if KeyOf(lines[i]) != Some(key) { i := LineThatAssigns(lines[..i], key); }
  }

  lemma {:induction false} LineAssigns(lines: seq<string>, key: string, i: nat)
    requires i < |lines| && KeyOf(lines[i]) == Some(key)
    ensures Assigns(lines, key)
    decreases |lines|
  {
    if i < |lines| - 1 { LineAssigns(lines[..|lines| - 1], key, i); }
  }

  /** Lines for the keys that the live file does not assign. */
  function Missing(sub: Subset, keys: seq<string>, lines: seq<string>): seq<string>
    requires forall k :: k in keys ==> k in sub.values
  {
    if keys == [] then []
    else
      var last := keys[|keys| - 1];
      assert last in keys;
      Missing(sub, keys[..|keys| - 1], lines) + if Assigns(lines, last) then [] else [SetLine(sub, last)]
  }

  function WithSecret(lines: seq<string>, token: string): seq<string> {
    if Assigns(lines, SECRET) then lines else lines + [SECRET + "=" + token]
  }

  function MergedLines(lines: seq<string>, sub: Subset, token: string): seq<string>
    requires GoodSubset(sub)
  {
    WithSecret(UpdatedAll(sub, lines) + Missing(sub, sub.keys, lines), token)
  }

  /** What the backup's text assigns. */
  function SubsetOf(subset: string): (sub: Subset)
    ensures GoodSubset(sub)
  {
    SplitLinesAreSingle(subset);
    TakenIsGood(SplitLines(subset));
    TakenFrom(SplitLines(subset))
  }

  /** The merged file. */
  function Merge(target: string, subset: string, token: string): string {
    EndLines(MergedLines(SplitLines(target), SubsetOf(subset), token))
  }

  /******* The backup's assignments *******/

  lemma AssignedValue(line: string)
    requires OneLine(line) && Assignment(line).Some?
    ensures Value(Assignment(line).value.1)
  {
    var k, m := StripIsPart(line);
    EndOfPart(line, k, m, Find(Strip(line), '=') + 1);
  }

  lemma EndOfPart(line: string, k: nat, m: nat, e: nat)
    requires OneLine(line) && k <= m <= |line| && e <= m - k
    requires m > k ==> !Space(line[m - 1])
    ensures Value(line[k..m][e..])
  {
    assert line[k..m][e..] == line[k + e..m];
  }

  lemma TakingKeepsGood(sub: Subset, line: string)
    requires GoodSubset(sub) && OneLine(line)
    ensures GoodSubset(Taken(sub, line))
  {
    if Assignment(line).Some? {
      var (k, v) := Assignment(line).value;
      AssignedValue(line);
      if Allowed(k) { SettingKeepsGood(sub, k, v); }
    }
  }

  lemma SettingKeepsGood(sub: Subset, k: string, v: string)
    requires GoodSubset(sub) && Allowed(k) && Value(v)
    ensures GoodSubset(Subset(if k in sub.values then sub.keys else sub.keys + [k], sub.values[k := v]))
  {
  }

  lemma {:induction false} TakenIsGood(lines: seq<string>)
    requires forall i :: 0 <= i < |lines| ==> OneLine(lines[i])
    ensures GoodSubset(TakenFrom(lines))
    decreases |lines|
  {
    if lines != [] {
      TakenIsGood(lines[..|lines| - 1]);
      TakingKeepsGood(TakenFrom(lines[..|lines| - 1]), lines[|lines| - 1]);
    }
  }

  /** The value that the last line for a key gives it. */
  function LastAssigned(lines: seq<string>, key: string): Option<string> {
    if lines == [] then None
    else
      var last := Assignment(lines[|lines| - 1]);
      if last.Some? && last.value.0 == key then Some(last.value.1) else LastAssigned(lines[..|lines| - 1], key)
  }

  /** A backup sets the allowed keys it assigns, each to its last value, and no other key. */
  lemma {:induction false} LastAssignmentWins(lines: seq<string>, k: string)
    ensures (if k in TakenFrom(lines).values then Some(TakenFrom(lines).values[k]) else None)
         == (if Allowed(k) then LastAssigned(lines, k) else None)
    decreases |lines|
  {
    if lines != [] { LastAssignmentWins(lines[..|lines| - 1], k); }
  }

  /******* What a written line assigns *******/

  /** A line `key=value` assigns that value to that key. */
  lemma SetLineAssigns(k: string, v: string)
    requires KeyShape(k) && Value(v)
    ensures Assignment(k + "=" + v) == Some((k, v)) && OneLine(k + "=" + v)
  {
    var line := k + "=" + v;
    SetLineIsStripped(k, v);
    SetLineIsOneLine(k, v);
    KeyEnds(k, v);
    assert KeyChar(k[0]) && KeyChar(k[|k| - 1]);
    StripIsIdentity(k);
  }

  lemma SetLineIsStripped(k: string, v: string)
    requires KeyShape(k) && Value(v)
    ensures var line := k + "=" + v; Strip(line) == line && line[0] != '#'
  {
    var line := k + "=" + v;
    assert line[0] == k[0] && KeyChar(k[0]);
    assert line[|line| - 1] == if v == "" then '=' else v[|v| - 1];
    StripIsIdentity(line);
  }

  lemma SetLineIsOneLine(k: string, v: string)
    requires KeyShape(k) && Value(v)
    ensures OneLine(k + "=" + v)
  {
    forall i | 0 <= i < |k| ensures !Break(k[i]) { assert KeyChar(k[i]); }
  }

  lemma KeyEnds(k: string, v: string)
    requires KeyShape(k)
    ensures var line := k + "=" + v; Find(line, '=') == |k| && line[..|k|] == k && line[|k| + 1..] == v
  {
    var line := k + "=" + v;
    forall i | 0 <= i < |k| ensures line[i] != '=' { assert line[i] == k[i] && KeyChar(k[i]); }
    FindIs(line, '=', |k|);
  }

  lemma SubsetLineAssigns(sub: Subset, k: string)
    requires GoodSubset(sub) && k in sub.values
    ensures Assignment(SetLine(sub, k)) == Some((k, sub.values[k])) && OneLine(SetLine(sub, k))
  {
    AllowedShape(k);
    SetLineAssigns(k, sub.values[k]);
  }

  lemma UpdatedKeepsKey(sub: Subset, line: string)
    requires GoodSubset(sub)
    ensures KeyOf(Updated(sub, line)) == KeyOf(line)
    ensures Updated(sub, Updated(sub, line)) == Updated(sub, line)
    ensures OneLine(line) ==> OneLine(Updated(sub, line))
  {
    if KeyOf(line).Some? && KeyOf(line).value in sub.values { SubsetLineAssigns(sub, KeyOf(line).value); }
  }

  predicate Hex(s: string) { forall i :: 0 <= i < |s| ==> '0' <= s[i] <= '9' || 'a' <= s[i] <= 'f' }

  lemma SecretLineAssigns(token: string)
    requires Hex(token)
    ensures KeyOf(SECRET + "=" + token) == Some(SECRET) && OneLine(SECRET + "=" + token)
  {
    assert Value(token) by {
      forall i | 0 <= i < |token| ensures !Break(token[i]) { assert '0' <= token[i] <= '9' || 'a' <= token[i] <= 'f'; }
      if token != "" { assert '0' <= token[|token| - 1] <= '9' || 'a' <= token[|token| - 1] <= 'f'; }
    }
    SetLineAssigns(SECRET, token);
  }

  lemma SecretIsNotTaken(sub: Subset)
    requires GoodSubset(sub)
    ensures SECRET !in sub.values
  {
    if SECRET in sub.values { AllowedShape(SECRET); }
  }

  lemma {:induction false} AssignsAppend(a: seq<string>, b: seq<string>, k: string)
    ensures Assigns(a + b, k) <==> Assigns(a, k) || Assigns(b, k)
    decreases |b|
  {
    if b == [] {
      assert a + b == a;
    } else {
      AssignsAppend(a, b[..|b| - 1], k);
      assert (a + b)[..|a + b| - 1] == a + b[..|b| - 1];
    }
  }

  lemma AssignsOne(line: string, k: string)
    ensures Assigns([line], k) <==> KeyOf(line) == Some(k)
  {
    assert [line][..0] == [];
  }

  /******* Appended lines *******/

  lemma {:induction false} MissingLines(sub: Subset, keys: seq<string>, lines: seq<string>)
    requires GoodSubset(sub) && forall k :: k in keys ==> k in sub.values
    ensures forall l :: l in Missing(sub, keys, lines) <==>
              exists k :: k in keys && !Assigns(lines, k) && l == SetLine(sub, k)
    decreases |keys|
  {
    if keys != [] {
      assert keys == keys[..|keys| - 1] + [keys[|keys| - 1]];
      MissingLines(sub, keys[..|keys| - 1], lines);
    }
  }

  /******* The merged file *******/

  /** The merged lines before the secret is looked for. */
  function Body(lines: seq<string>, sub: Subset): seq<string>
    requires GoodSubset(sub)
  {
    UpdatedAll(sub, lines) + Missing(sub, sub.keys, lines)
  }

  function Filter<T>(xs: seq<T>, keep: T -> bool): seq<T> {
    if xs == [] then [] else (if keep(xs[0]) then [xs[0]] else []) + Filter(xs[1..], keep)
  }

  lemma Assoc<T>(a: seq<T>, b: seq<T>, c: seq<T>)
    ensures a + b + c == a + (b + c)
  {
  }

  lemma {:induction false} FilterAppend<T>(a: seq<T>, b: seq<T>, keep: T -> bool)
    ensures Filter(a + b, keep) == Filter(a, keep) + Filter(b, keep)
    decreases |a|
  {
    if a == [] {
      assert a + b == b;
    } else {
      FilterAppend(a[1..], b, keep);
      assert (a + b)[1..] == a[1..] + b;
      Assoc(if keep(a[0]) then [a[0]] else [], Filter(a[1..], keep), Filter(b, keep));
    }
  }

  lemma {:induction false} FilterNone<T>(xs: seq<T>, keep: T -> bool)
    requires forall i :: 0 <= i < |xs| ==> !keep(xs[i])
    ensures Filter(xs, keep) == []
    decreases |xs|
  {
    if xs != [] { FilterNone(xs[1..], keep); }
  }

  /** The backup does not set the key of the line, or the line has none. */
  function NotSet(sub: Subset): string -> bool {
    (line: string) => KeyOf(line).None? || KeyOf(line).value !in sub.values
  }

  /** The lines that a backup has no say in. */
  function Others(sub: Subset, lines: seq<string>): seq<string> { Filter(lines, NotSet(sub)) }

  lemma {:induction false} OthersOfUpdated(sub: Subset, lines: seq<string>)
    requires GoodSubset(sub)
    ensures Others(sub, UpdatedAll(sub, lines)) == Others(sub, lines)
    decreases |lines|
  {
    if lines != [] {
      UpdatedKeepsKey(sub, lines[0]);
      OthersOfUpdated(sub, lines[1..]);
      assert UpdatedAll(sub, lines)[1..] == UpdatedAll(sub, lines[1..]);
    }
  }

  lemma MissingAreSet(sub: Subset, lines: seq<string>, i: nat)
    requires GoodSubset(sub) && i < |Missing(sub, sub.keys, lines)|
    ensures !NotSet(sub)(Missing(sub, sub.keys, lines)[i])
  {
    MissingLines(sub, sub.keys, lines);
    var l := Missing(sub, sub.keys, lines)[i];
    assert l in Missing(sub, sub.keys, lines);
    var k :| k in sub.keys && l == SetLine(sub, k);
    SubsetLineAssigns(sub, k);
  }

  lemma OthersOfBody(lines: seq<string>, sub: Subset)
    requires GoodSubset(sub)
    ensures Others(sub, Body(lines, sub)) == Others(sub, lines)
  {
    var missing := Missing(sub, sub.keys, lines);
    FilterAppend(UpdatedAll(sub, lines), missing, NotSet(sub));
    OthersOfUpdated(sub, lines);
    forall i | 0 <= i < |missing| ensures !NotSet(sub)(missing[i]) { MissingAreSet(sub, lines, i); }
    FilterNone(missing, NotSet(sub));
  }

  /** Every line that the backup does not set stays, verbatim and in order; at most a secret is added to them. */
  lemma OtherLinesStay(lines: seq<string>, sub: Subset, token: string)
    requires GoodSubset(sub) && Hex(token)
    ensures Others(sub, MergedLines(lines, sub, token))
         == Others(sub, lines) + (if Assigns(Body(lines, sub), SECRET) then [] else [SECRET + "=" + token])
  {
    OthersOfBody(lines, sub);
    if !Assigns(Body(lines, sub), SECRET) {
      SecretLineAssigns(token);
      SecretIsNotTaken(sub);
      FilterAppend(Body(lines, sub), [SECRET + "=" + token], NotSet(sub));
    }
  }

  /** Every line of the merged file that assigns a key of the backup is the backup's line for it, and there is one. */
  ghost predicate Settled(lines: seq<string>, sub: Subset)
    requires GoodSubset(sub)
  {
    && (forall i :: 0 <= i < |lines| && KeyOf(lines[i]).Some? && KeyOf(lines[i]).value in sub.values ==>
          lines[i] == SetLine(sub, KeyOf(lines[i]).value))
    && (forall k :: k in sub.values ==> Assigns(lines, k))
  }

  lemma BodyLine(lines: seq<string>, sub: Subset, i: nat)
    requires GoodSubset(sub) && i < |Body(lines, sub)|
    ensures var l := Body(lines, sub)[i]; Updated(sub, l) == l
    ensures (forall j :: 0 <= j < |lines| ==> OneLine(lines[j])) ==> OneLine(Body(lines, sub)[i])
  {
    var l := Body(lines, sub)[i];
    if i < |lines| {
      UpdatedKeepsKey(sub, lines[i]);
    } else {
      MissingLines(sub, sub.keys, lines);
      assert l in Missing(sub, sub.keys, lines);
      var k :| k in sub.keys && l == SetLine(sub, k);
      SubsetLineAssigns(sub, k);
    }
  }

  lemma BodyAssigns(lines: seq<string>, sub: Subset, k: string)
    requires GoodSubset(sub) && k in sub.values
    ensures Assigns(Body(lines, sub), k)
  {
    AssignsAppend(UpdatedAll(sub, lines), Missing(sub, sub.keys, lines), k);
    if Assigns(lines, k) { UpdatedAssigns(lines, sub, k); } else { MissingAssigns(lines, sub, k); }
  }

  lemma UpdatedAssigns(lines: seq<string>, sub: Subset, k: string)
    requires GoodSubset(sub) && Assigns(lines, k)
    ensures Assigns(UpdatedAll(sub, lines), k)
  {
    AssignsIffSome(lines, k);
    AssignsIffSome(UpdatedAll(sub, lines), k);
    var i :| 0 <= i < |lines| && KeyOf(lines[i]) == Some(k);
    UpdatedKeepsKey(sub, lines[i]);
    assert KeyOf(UpdatedAll(sub, lines)[i]) == Some(k);
  }

  lemma MissingAssigns(lines: seq<string>, sub: Subset, k: string)
    requires GoodSubset(sub) && k in sub.values && !Assigns(lines, k)
    ensures Assigns(Missing(sub, sub.keys, lines), k)
  {
    var missing := Missing(sub, sub.keys, lines);
    MissingLines(sub, sub.keys, lines);
    AssignsIffSome(missing, k);
    assert SetLine(sub, k) in missing;
    var i :| 0 <= i < |missing| && missing[i] == SetLine(sub, k);
    SubsetLineAssigns(sub, k);
    assert KeyOf(missing[i]) == Some(k);
  }

  lemma MergedLine(lines: seq<string>, sub: Subset, token: string, i: nat)
    requires GoodSubset(sub) && Hex(token) && i < |MergedLines(lines, sub, token)|
    ensures var l := MergedLines(lines, sub, token)[i]; Updated(sub, l) == l
    ensures (forall j :: 0 <= j < |lines| ==> OneLine(lines[j])) ==> OneLine(MergedLines(lines, sub, token)[i])
  {
    if i < |Body(lines, sub)| {
      BodyLine(lines, sub, i);
    } else {
      SecretLineAssigns(token);
      SecretIsNotTaken(sub);
    }
  }

  /** Every key that the backup sets has exactly the backup's value, and the file has a session secret. */
  lemma BackupKeysAreSet(lines: seq<string>, sub: Subset, token: string)
    requires GoodSubset(sub) && Hex(token)
    ensures Settled(MergedLines(lines, sub, token), sub)
    ensures Assigns(MergedLines(lines, sub, token), SECRET)
  {
    var body, merged := Body(lines, sub), MergedLines(lines, sub, token);
    forall i | 0 <= i < |merged| ensures Updated(sub, merged[i]) == merged[i] { MergedLine(lines, sub, token, i); }
    forall k | k in sub.values ensures Assigns(merged, k) {
      BodyAssigns(lines, sub, k);
      AssignsAppend(body, [SECRET + "=" + token], k);
    }
    if !Assigns(body, SECRET) {
      SecretLineAssigns(token);
      AssignsAppend(body, [SECRET + "=" + token], SECRET);
      AssignsOne(SECRET + "=" + token, SECRET);
    }
  }

  /** Every line of the live file keeps its place and its key, and stays as it is unless the backup sets the key. */
  lemma LinesKeepTheirPlaces(lines: seq<string>, sub: Subset, token: string)
    requires GoodSubset(sub)
    ensures var merged := MergedLines(lines, sub, token);
            && |lines| <= |merged|
            && forall i :: 0 <= i < |lines| ==>
                 KeyOf(merged[i]) == KeyOf(lines[i]) && (NotSet(sub)(lines[i]) ==> merged[i] == lines[i])
  {
    var merged := MergedLines(lines, sub, token);
    forall i | 0 <= i < |lines|
      ensures KeyOf(merged[i]) == KeyOf(lines[i]) && (NotSet(sub)(lines[i]) ==> merged[i] == lines[i])
    {
      assert merged[i] == UpdatedAll(sub, lines)[i];
      UpdatedKeepsKey(sub, lines[i]);
    }
  }

  lemma {:induction false} NothingMissing(sub: Subset, keys: seq<string>, lines: seq<string>)
    requires (forall k :: k in keys ==> k in sub.values) && (forall k :: k in keys ==> Assigns(lines, k))
    ensures Missing(sub, keys, lines) == []
    decreases |keys|
  {
    if keys != [] {
      assert keys[|keys| - 1] in keys;
      NothingMissing(sub, keys[..|keys| - 1], lines);
    }
  }

  /** Merging the same backup once more changes nothing, whatever secret is at hand. */
  lemma MergeIsIdempotent(target: string, subset: string, token: string, other: string)
    requires Hex(token)
    ensures Merge(Merge(target, subset, token), subset, other) == Merge(target, subset, token)
  {
    var lines, sub := SplitLines(target), SubsetOf(subset);
    var merged := MergedLines(lines, sub, token);
    SplitLinesAreSingle(target);
    forall i | 0 <= i < |merged| ensures OneLine(merged[i]) && Updated(sub, merged[i]) == merged[i] {
      MergedLine(lines, sub, token, i);
    }
    SplitEndLines(merged);
    BackupKeysAreSet(lines, sub, token);
    SettledStays(merged, sub, other);
  }

  /** Lines that a merge has settled are its own merge. */
  lemma SettledStays(lines: seq<string>, sub: Subset, token: string)
    requires GoodSubset(sub) && Assigns(lines, SECRET) && forall k :: k in sub.values ==> Assigns(lines, k)
    requires AreUpdated(lines, sub, lines)
    ensures MergedLines(lines, sub, token) == lines
  {
    UpdatedIs(lines, sub, lines);
    NothingMissing(sub, sub.keys, lines);
    assert lines + [] == lines;
  }

  lemma UpdatedIs(out: seq<string>, sub: Subset, lines: seq<string>)
    requires AreUpdated(out, sub, lines)
    ensures UpdatedAll(sub, lines) == out
  {
  }

  /** `_merge_env`: the loop over the backup's lines, the loop over the live file, the keys left over, the secret. */
  method MergeEnv(target: string, subset: string, token: string) returns (merged: string)
    ensures merged == Merge(target, subset, token)
  {
    var sub := ReadSubset(SplitLines(subset));
    assert sub == SubsetOf(subset);
    var lines := SplitLines(target);
    var updated, applied := UpdateLines(lines, sub);
    var missing := MissingFrom(sub, applied, lines);
    var out := updated + missing;
    if !Assigns(out, SECRET) { out := out + [SECRET + "=" + token]; }
    return EndLines(out);
  }

  method MissingFrom(sub: Subset, applied: set<string>, ghost lines: seq<string>) returns (out: seq<string>)
    requires forall k :: k in sub.keys ==> k in sub.values
    requires forall k :: k in sub.keys ==> (k in applied <==> Assigns(lines, k))
    ensures out == Missing(sub, sub.keys, lines)
  {
    var keys := sub.keys;
    out := [];
    for i := 0 to |keys|
      invariant out == Missing(sub, keys[..i], lines)
    {
      assert keys[..i + 1][..i] == keys[..i];
      assert keys[i] in keys;
      if keys[i] !in applied { out := out + [SetLine(sub, keys[i])]; }
    }
    assert keys[..|keys|] == keys;
  }

  ghost predicate AreApplied(applied: set<string>, sub: Subset, lines: seq<string>) {
    forall k :: k in applied <==> k in sub.values && Assigns(lines, k)
  }

  ghost predicate AreUpdated(out: seq<string>, sub: Subset, lines: seq<string>) {
    |out| == |lines| && forall k :: 0 <= k < |lines| ==> out[k] == Updated(sub, lines[k])
  }

  lemma UpdatedNext(out: seq<string>, sub: Subset, lines: seq<string>, i: nat)
    requires i < |lines| && AreUpdated(out, sub, lines[..i])
    ensures AreUpdated(out + [Updated(sub, lines[i])], sub, lines[..i + 1])
  {
  }

  lemma AppliedNext(applied: set<string>, sub: Subset, lines: seq<string>, i: nat)
    requires i < |lines| && AreApplied(applied, sub, lines[..i])
    ensures var key := KeyOf(lines[i]);
            AreApplied(if key.Some? && key.value in sub.values then applied + {key.value}
                else applied, sub, lines[..i + 1])
  {
    assert lines[..i + 1][..i] == lines[..i];
  }

  method UpdateLines(lines: seq<string>, sub: Subset) returns (out: seq<string>, applied: set<string>)
    ensures out == UpdatedAll(sub, lines) && AreApplied(applied, sub, lines)
  {
    out, applied := [], {};
    for i := 0 to |lines|
      invariant AreUpdated(out, sub, lines[..i])
      invariant AreApplied(applied, sub, lines[..i])
    {
      AppliedNext(applied, sub, lines, i);
      UpdatedNext(out, sub, lines, i);
      var key := KeyOf(lines[i]);
      if key.Some? && key.value in sub.values {
        out := out + [SetLine(sub, key.value)];
        applied := applied + {key.value};
      } else {
        out := out + [lines[i]];
      }
    }
    assert lines[..|lines|] == lines;
    UpdatedIs(out, sub, lines);
  }

  method ReadSubset(lines: seq<string>) returns (sub: Subset)
    ensures sub == TakenFrom(lines)
  {
    sub := Subset([], map[]);
    for i := 0 to |lines|
      invariant sub == TakenFrom(lines[..i])
    {
      assert lines[..i + 1][..i] == lines[..i];
      sub := Taken(sub, lines[i]);
    }
    assert lines[..|lines|] == lines;
  }
}

/**
  Canonicalising a release tree (release/ccc_release.py): its own `.gitattributes`
  decides which files are text, and text files get LF line endings. Glob matching is
  a parameter.
 */
module CanonicalTree {
  import opened Wrappers
  import opened Text
  import opened Utf8
  import opened LineEndings

  const ATTRIBUTES := ".gitattributes"
  const SNIFFED := 8192

  type Glob = (string, string) -> bool

  /******* Rules *******/

  datatype TextAttr = IsText | NotText | AutoText

  datatype Attrs = Attrs(text: Option<TextAttr>, eol: Option<string>)

  datatype Rule = Rule(pattern: string, attrs: Attrs)

  const NO_ATTRS := Attrs(None, None)

  /** `str.split()`. */
  function Words(s: string): seq<string>
    decreases |s|
  {
    if s == "" then []
    else if Space(s[0]) then Words(s[1..])
    else [s[..WordLength(s)]] + Words(s[WordLength(s)..])
  }

  function WordLength(s: string): (n: nat)
    ensures n <= |s| && (s != "" && !Space(s[0]) ==> n > 0)
  {
    if s == "" || Space(s[0]) then 0 else 1 + WordLength(s[1..])
  }

  predicate Spaceless(s: string) { forall i :: 0 <= i < |s| ==> !Space(s[i]) }

  /** Space is skipped, and a word goes on to the next space or the end. */
  lemma WordsExact(word: string, rest: string, c: char)
    requires word != "" && Spaceless(word) && (rest != "" ==> Space(rest[0])) && Space(c)
    ensures Words("") == [] && Words([c] + rest) == Words(rest) && Words(word + rest) == [word] + Words(rest)
  {
    assert ([c] + rest)[1..] == rest;
    WordEnds(word, rest);
    assert (word + rest)[..|word|] == word && (word + rest)[|word|..] == rest;
    assert (word + rest)[0] == word[0];
  }

  lemma {:induction false} WordEnds(word: string, rest: string)
    requires Spaceless(word) && (rest != "" ==> Space(rest[0]))
    ensures WordLength(word + rest) == |word|
    decreases |word|
  {
    if word == "" {
      assert word + rest == rest;
    } else {
      WordEnds(word[1..], rest);
      assert (word + rest)[1..] == word[1..] + rest && (word + rest)[0] == word[0];
    }
  }

  /** What one token adds to a rule. */
  function WithToken(attrs: Attrs, token: string): Attrs {
    if token == "binary" || token == "-text" || token == "!text" then attrs.(text := Some(NotText))
    else if token == "text" then attrs.(text := Some(IsText))
    else if token == "text=auto" then attrs.(text := Some(AutoText))
    else if "eol=" <= token then Attrs(if attrs.text.None? then Some(IsText) else attrs.text, Some(token[4..]))
    else attrs
  }

  function WithTokens(tokens: seq<string>): Attrs {
    if tokens == [] then NO_ATTRS else WithToken(WithTokens(tokens[..|tokens| - 1]), tokens[|tokens| - 1])
  }

  /** What a token says of the text attribute by itself. */
  function Explicit(token: string): Option<TextAttr> {
    if token == "binary" || token == "-text" || token == "!text" then Some(NotText)
    else if token == "text" then Some(IsText)
    else if token == "text=auto" then Some(AutoText)
    else None
  }

  /** What a token says of the line ending. */
  function Ending(token: string): Option<string> {
    if Explicit(token).None? && "eol=" <= token then Some(token[4..]) else None
  }

  /** What the last token says that says something of the text attribute. */
  function LastExplicit(tokens: seq<string>): Option<TextAttr> {
    if tokens == [] then None
    else if Explicit(tokens[|tokens| - 1]).Some? then Explicit(tokens[|tokens| - 1])
    else LastExplicit(tokens[..|tokens| - 1])
  }

  function LastEnding(tokens: seq<string>): Option<string> {
    if tokens == [] then None
    else if Ending(tokens[|tokens| - 1]).Some? then Ending(tokens[|tokens| - 1])
    else LastEnding(tokens[..|tokens| - 1])
  }

  /**
    The tokens of a line: the last explicit one decides the text attribute, wherever an `eol=` token stands; only
    without an explicit one does `eol=` imply text; the last `eol=` gives the line ending; other tokens say nothing.
   */
  lemma {:induction false} LastTokenWins(tokens: seq<string>)
    ensures WithTokens(tokens).eol == LastEnding(tokens)
    ensures WithTokens(tokens).text == if LastExplicit(tokens).Some? then LastExplicit(tokens)
                                       else if LastEnding(tokens).Some? then Some(IsText) else None
    decreases |tokens|
  {
    if tokens != [] {
      LastTokenWins(tokens[..|tokens| - 1]);
      TokenAdds(WithTokens(tokens[..|tokens| - 1]), tokens[|tokens| - 1]);
    }
  }

  lemma TokenAdds(attrs: Attrs, token: string)
    ensures Explicit(token).Some? ==> WithToken(attrs, token) == attrs.(text := Explicit(token))
    ensures Ending(token).Some? ==>
              WithToken(attrs, token) == Attrs(if attrs.text.None? then Some(IsText) else attrs.text, Ending(token))
    ensures Explicit(token).None? && Ending(token).None? ==> WithToken(attrs, token) == attrs
    ensures Explicit(token).Some? ==> Ending(token).None?
  {
  }

  /** The rule of a line, if the line has one. */
  function LineRule(line: string): seq<Rule> {
    var words := Words(Strip(line));
    if words == [] || words[0][..1] == "#" then []
    else if WithTokens(words[1..]) == NO_ATTRS then []
    else [Rule(words[0], WithTokens(words[1..]))]
  }

  /** A line gives a rule exactly if it is no comment and has a token that says something: for its first word. */
  lemma LinesWithARule(line: string)
    ensures var words := Words(Strip(line));
            LineRule(line)
              == if words == [] || words[0][..1] == "#" then []
                 else if LastExplicit(words[1..]).None? && LastEnding(words[1..]).None? then []
                 else [Rule(words[0],
                            Attrs(if LastExplicit(words[1..]).Some? then LastExplicit(words[1..]) else Some(IsText),
                                  LastEnding(words[1..])))]
  {
    var words := Words(Strip(line));
    if words != [] { LastTokenWins(words[1..]); }
  }

  function Rules(lines: seq<string>): seq<Rule> {
    if lines == [] then [] else Rules(lines[..|lines| - 1]) + LineRule(lines[|lines| - 1])
  }

  /** The rules of a text are those of its lines, in their order. */
  lemma {:induction false} RulesInOrder(a: seq<string>, b: seq<string>)
    ensures Rules(a + b) == Rules(a) + Rules(b)
    decreases |b|
  {
    if b == [] {
      assert a + b == a;
    } else {
      var front, last := b[..|b| - 1], b[|b| - 1];
      RulesInOrder(a, front);
      assert (a + b)[..|a + b| - 1] == a + front && (a + b)[|a + b| - 1] == last;
      RulesAssoc(Rules(a), Rules(front), LineRule(last));
    }
  }

  lemma RulesAssoc(a: seq<Rule>, b: seq<Rule>, c: seq<Rule>)
    ensures a + b + c == a + (b + c)
  {
  }

  lemma RuleOfOneLine(line: string)
    ensures Rules([line]) == LineRule(line)
  {
    assert [line][..0] == [];
  }

  method ParseGitattributes(text: string) returns (rules: seq<Rule>)
    ensures rules == Rules(SplitLines(text))
  {
    rules := [];
    var lines := SplitLines(text);
    for i := 0 to |lines|
      invariant rules == Rules(lines[..i])
    {
      assert lines[..i + 1][..i] == lines[..i];
      var words := Words(Strip(lines[i]));
      if words == [] || words[0][..1] == "#" { continue; }
      var attrs := ReadTokens(words[1..]);
      if attrs != NO_ATTRS { rules := rules + [Rule(words[0], attrs)]; }
    }
    assert lines[..|lines|] == lines;
  }

  /** The loop over the tokens of a line. */
  method ReadTokens(tokens: seq<string>) returns (attrs: Attrs)
    ensures attrs == WithTokens(tokens)
  {
    attrs := NO_ATTRS;
    for k := 0 to |tokens|
      invariant attrs == WithTokens(tokens[..k])
    {
      assert tokens[..k + 1][..k] == tokens[..k];
      attrs := WithToken(attrs, tokens[k]);
    }
    assert tokens[..|tokens|] == tokens;
  }

  /******* Classification *******/

  function BaseName(path: string): string
    decreases |path|
  {
    if '/' in path then BaseName(path[Find(path, '/') + 1..]) else path
  }

  /** `_attr_match`. */
  predicate Matches(glob: Glob, pattern: string, path: string) {
    if pattern != "" && pattern[0] == '/' then glob(path, pattern[1..])
    else if '/' in pattern then glob(path, pattern)
    else glob(BaseName(path), pattern)
  }

  /** A pattern with a slash is matched against the path, one without against its last part. */
  lemma MatchesExact(glob: Glob, pattern: string, path: string, dir: string, name: string)
    requires '/' !in name
    ensures Matches(glob, "/" + pattern, path) <==> glob(path, pattern)
    ensures '/' in pattern && pattern[0] != '/' ==> (Matches(glob, pattern, path) <==> glob(path, pattern))
    ensures '/' !in pattern ==> (Matches(glob, pattern, name) <==> glob(name, pattern))
    ensures '/' !in pattern ==> (Matches(glob, pattern, dir + "/" + name) <==> glob(name, pattern))
  {
    assert ("/" + pattern)[1..] == pattern;
    LastPart(dir, name);
  }

  lemma {:induction false} LastPart(dir: string, name: string)
    requires '/' !in name
    ensures BaseName(dir + "/" + name) == name
    decreases |dir|
  {
    if '/' in dir {
      var i := Find(dir, '/');
      assert dir == dir[..i] + "/" + dir[i + 1..];
      assert dir + "/" + name == dir[..i] + "/" + (dir[i + 1..] + "/" + name);
      FirstPartGoes(dir[..i], dir[i + 1..] + "/" + name);
      LastPart(dir[i + 1..], name);
    } else {
      FirstPartGoes(dir, name);
    }
  }

  lemma FirstPartGoes(first: string, rest: string)
    requires '/' !in first
    ensures BaseName(first + "/" + rest) == BaseName(rest)
  {
    var path := first + "/" + rest;
    assert path[|first|] == '/';
    assert forall i :: 0 <= i < |first| ==> path[i] == first[i];
    FindIs(path, '/', |first|);
    assert path[|first| + 1..] == rest;
  }

  function Over(older: Attrs, newer: Attrs): Attrs {
    Attrs(if newer.text.Some? then newer.text else older.text, if newer.eol.Some? then newer.eol else older.eol)
  }

  /** All matching rules together; per attribute, the last one wins. */
  function AttrsOf(glob: Glob, path: string, rules: seq<Rule>): Attrs {
    if rules == [] then NO_ATTRS
    else
      var before, last := AttrsOf(glob, path, rules[..|rules| - 1]), rules[|rules| - 1];
      if Matches(glob, last.pattern, path) then Over(before, last.attrs) else before
  }

  method AttrsFor(glob: Glob, path: string, rules: seq<Rule>) returns (attrs: Attrs)
    ensures attrs == AttrsOf(glob, path, rules)
  {
    attrs := NO_ATTRS;
    for i := 0 to |rules|
      invariant attrs == AttrsOf(glob, path, rules[..i])
    {
      assert rules[..i + 1][..i] == rules[..i];
      if Matches(glob, rules[i].pattern, path) { attrs := Over(attrs, rules[i].attrs); }
    }
    assert rules[..|rules|] == rules;
  }

  predicate LooksBinary(data: seq<byte>) { 0 in data[..if |data| < SNIFFED then |data| else SNIFFED] }

  /** `is_text`, from the declared attribute. */
  predicate Classified(text: Option<TextAttr>, data: seq<byte>) {
    match text
    case Some(NotText) => false
    case Some(IsText) => true
    case _ => !LooksBinary(data)
  }

  function Canonical(text: Option<TextAttr>, data: seq<byte>): seq<byte> {
    if Classified(text, data) then ToLf(data) else data
  }

  /******* The tree *******/

  type Tree = map<string, seq<byte>>

  /** The rules that the tree's own `.gitattributes` states. */
  function RulesOf(raw: Tree): seq<Rule> {
    Rules(SplitLines(DecodeReplacing(if ATTRIBUTES in raw then raw[ATTRIBUTES] else [])))
  }

  function Declared(glob: Glob, raw: Tree, name: string): Option<TextAttr> { AttrsOf(glob, name, RulesOf(raw)).text }

  /** Every file, canonical under the rules of the tree. */
  function CanonicalOf(glob: Glob, raw: Tree): Tree {
    map name | name in raw :: Canonical(Declared(glob, raw, name), raw[name])
  }

  /** `canonicalize_tree`; `names` is the sorted listing of the tree. */
  method CanonicalizeTree(glob: Glob, raw: Tree, names: seq<string>) returns (canon: Tree)
    requires forall n :: n in names <==> n in raw
    ensures canon == CanonicalOf(glob, raw)
  {
    var rules := ParseGitattributes(DecodeReplacing(if ATTRIBUTES in raw then raw[ATTRIBUTES] else []));
    canon := CanonicalizeFiles(glob, rules, raw, names);
    CanonicalSomeIsAll(glob, rules, raw, names);
  }

  method CanonicalizeFiles(glob: Glob, rules: seq<Rule>, raw: Tree, names: seq<string>) returns (canon: Tree)
    requires forall n :: n in names ==> n in raw
    ensures canon == CanonicalSome(glob, rules, raw, names)
  {
    canon := map[];
    for i := 0 to |names|
      invariant canon == CanonicalSome(glob, rules, raw, names[..i])
    {
      assert names[i] in names && names[..i + 1][..i] == names[..i];
      var attrs := AttrsFor(glob, names[i], rules);
      var data := raw[names[i]];
      if Classified(attrs.text, data) { data := ToLf(data); }
      canon := canon[names[i] := data];
    }
    assert names[..|names|] == names;
  }

  /** The files listed so far. */
  function CanonicalSome(glob: Glob, rules: seq<Rule>, raw: Tree, names: seq<string>): Tree
    requires forall n :: n in names ==> n in raw
  {
    if names == [] then map[]
    else
      var last := names[|names| - 1];
      assert last in names;
      var before := CanonicalSome(glob, rules, raw, names[..|names| - 1]);
      before[last := Canonical(AttrsOf(glob, last, rules).text, raw[last])]
  }

  lemma {:induction false} CanonicalSomeIsAll(glob: Glob, rules: seq<Rule>, raw: Tree, names: seq<string>)
    requires forall n :: n in names ==> n in raw
    ensures CanonicalSome(glob, rules, raw, names)
              == map n | n in names :: Canonical(AttrsOf(glob, n, rules).text, raw[n])
    decreases |names|
  {
    if names != [] {
      var front, last := names[..|names| - 1], names[|names| - 1];
      CanonicalSomeIsAll(glob, rules, raw, front);
      assert names == front + [last];
    }
  }

  /******* Properties *******/

  /** The rule decides the attribute: it matches and sets it, and no later rule does. */
  ghost predicate Decides(glob: Glob, path: string, rules: seq<Rule>, i: nat) {
    && i < |rules| && Matches(glob, rules[i].pattern, path) && rules[i].attrs.text.Some?
    && forall j :: i < j < |rules| ==> !(Matches(glob, rules[j].pattern, path) && rules[j].attrs.text.Some?)
  }

  /** A file's attribute is the one of the last matching rule that sets it, and unset if no rule does. */
  lemma {:induction false} LastRuleWins(glob: Glob, path: string, rules: seq<Rule>)
    ensures forall i: nat :: Decides(glob, path, rules, i) ==> AttrsOf(glob, path, rules).text == rules[i].attrs.text
    ensures AttrsOf(glob, path, rules).text.Some? ==> exists i: nat :: Decides(glob, path, rules, i)
    decreases |rules|
  {
    if rules != [] {
      var front, n := rules[..|rules| - 1], |rules| - 1;
      LastRuleWins(glob, path, front);
      if Matches(glob, rules[n].pattern, path) && rules[n].attrs.text.Some? {
        assert Decides(glob, path, rules, n);
      } else {
        forall i: nat ensures Decides(glob, path, rules, i) <==> Decides(glob, path, front, i) {
          DecidesInFront(glob, path, rules, i);
        }
      }
    }
  }

  lemma DecidesInFront(glob: Glob, path: string, rules: seq<Rule>, i: nat)
    requires rules != []
    requires !(Matches(glob, rules[|rules| - 1].pattern, path) && rules[|rules| - 1].attrs.text.Some?)
    ensures Decides(glob, path, rules, i) <==> Decides(glob, path, rules[..|rules| - 1], i)
  {
    var front := rules[..|rules| - 1];
    assert forall j :: 0 <= j < |front| ==> front[j] == rules[j];
  }

  /** The line ending that the last matching rule with one gives. */
  function LastEol(glob: Glob, path: string, rules: seq<Rule>): Option<string> {
    if rules == [] then None
    else
      var last := rules[|rules| - 1];
      if Matches(glob, last.pattern, path) && last.attrs.eol.Some? then last.attrs.eol
      else LastEol(glob, path, rules[..|rules| - 1])
  }

  lemma {:induction false} LastEolWins(glob: Glob, path: string, rules: seq<Rule>)
    ensures AttrsOf(glob, path, rules).eol == LastEol(glob, path, rules)
    decreases |rules|
  {
    if rules != [] { LastEolWins(glob, path, rules[..|rules| - 1]); }
  }

  /** The last rule that decides the attribute of this file says so. */
  ghost predicate LastSays(glob: Glob, rules: seq<Rule>, name: string, t: TextAttr) {
    exists i: nat :: Decides(glob, name, rules, i) && rules[i].attrs.text == Some(t)
  }

  lemma AttributeIsLast(glob: Glob, rules: seq<Rule>, name: string, t: TextAttr)
    ensures AttrsOf(glob, name, rules).text == Some(t) <==> LastSays(glob, rules, name, t)
  {
    LastRuleWins(glob, name, rules);
  }

  /** A zero byte stands among the first 8192 bytes. */
  predicate ZeroAhead(data: seq<byte>) { exists k :: 0 <= k < |data| && k < 8192 && data[k] == 0 }

  lemma SniffedIsZeroAhead(data: seq<byte>)
    ensures LooksBinary(data) <==> ZeroAhead(data)
  {
    var head := data[..if |data| < SNIFFED then |data| else SNIFFED];
    if ZeroAhead(data) {
      var k :| 0 <= k < |data| && k < 8192 && data[k] == 0;
      assert head[k] == 0;
    }
    if 0 in head {
      var k :| 0 <= k < |head| && head[k] == 0;
      assert data[k] == 0;
    }
  }

  /**
    What becomes of each file: a file declared binary stays byte for byte, a file declared text gets LF line endings,
    and of the others exactly those do that have no zero byte at their beginning.
   */
  lemma EveryFileAsDeclared(glob: Glob, raw: Tree, name: string)
    requires name in raw
    ensures CanonicalOf(glob, raw).Keys == raw.Keys
    ensures var own := if ".gitattributes" in raw then raw[".gitattributes"] else [];
            var rules := Rules(SplitLines(DecodeReplacing(own)));
            var file := CanonicalOf(glob, raw)[name];
            && (LastSays(glob, rules, name, NotText) ==> file == raw[name])
            && (LastSays(glob, rules, name, IsText) ==> file == ToLf(raw[name]))
            && (!LastSays(glob, rules, name, NotText) && !LastSays(glob, rules, name, IsText) ==>
                  file == if ZeroAhead(raw[name]) then raw[name] else ToLf(raw[name]))
  {
    AttributeIsLast(glob, RulesOf(raw), name, NotText);
    AttributeIsLast(glob, RulesOf(raw), name, IsText);
    SniffedIsZeroAhead(raw[name]);
  }

  /** A file's canonical form is canonical, even if the shorter file is classified differently. */
  lemma CanonicalTwice(text: Option<TextAttr>, data: seq<byte>)
    ensures Canonical(text, Canonical(text, data)) == Canonical(text, data)
  {
    ToLfIsCanonical(data);
  }

  lemma SameRules(a: Tree, b: Tree)
    requires ATTRIBUTES in a <==> ATTRIBUTES in b
    requires ATTRIBUTES in a ==> ToLf(a[ATTRIBUTES]) == ToLf(b[ATTRIBUTES])
    ensures RulesOf(a) == RulesOf(b)
  {
    if ATTRIBUTES in a {
      RuleKeepsLines(a[ATTRIBUTES]);
      RuleKeepsLines(b[ATTRIBUTES]);
    }
  }

  /** Canonicalising the rules' own file does not change the rules. */
  lemma RulesSurvive(glob: Glob, raw: Tree)
    ensures RulesOf(CanonicalOf(glob, raw)) == RulesOf(raw)
  {
    if ATTRIBUTES in raw { ToLfIsCanonical(raw[ATTRIBUTES]); }
    SameRules(CanonicalOf(glob, raw), raw);
  }

  /** Canonicalising is idempotent on every tree. */
  lemma CanonicalizingIsIdempotent(glob: Glob, raw: Tree)
    ensures CanonicalOf(glob, CanonicalOf(glob, raw)) == CanonicalOf(glob, raw)
  {
    RulesSurvive(glob, raw);
    forall name | name in raw ensures CanonicalOf(glob, CanonicalOf(glob, raw))[name] == CanonicalOf(glob, raw)[name] {
      CanonicalTwice(Declared(glob, raw, name), raw[name]);
    }
  }

  /** Trees that differ only in the line endings of declared text files have one canonical form. */
  lemma LineEndingsDoNotMatter(glob: Glob, a: Tree, b: Tree)
    requires forall n :: n in a <==> n in b
    requires forall n :: n in a ==> ToLf(a[n]) == ToLf(b[n])
    requires forall n :: n in a ==> Declared(glob, a, n) == Some(IsText) || a[n] == b[n]
    ensures CanonicalOf(glob, a) == CanonicalOf(glob, b)
  {
    SameRules(a, b);
    forall n | n in a ensures CanonicalOf(glob, a)[n] == CanonicalOf(glob, b)[n] { }
  }

  /** A sniffed file is settled if it is taken for text, or has no carriage return to replace. */
  predicate Settled(data: seq<byte>) { !LooksBinary(data) || CR !in data }

  /** For files without a declaration they matter: variants agree exactly if both are settled. */
  lemma SniffedVariants(text: Option<TextAttr>, a: seq<byte>, b: seq<byte>)
    requires text != Some(IsText) && text != Some(NotText)
    requires ToLf(a) == ToLf(b)
    ensures Canonical(text, a) == Canonical(text, b) <==> a == b || (Settled(a) && Settled(b))
  {
    ToLfIsCanonical(a);
    ToLfIsCanonical(b);
  }
}

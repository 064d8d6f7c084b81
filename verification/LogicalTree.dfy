/**
  The Logical Tree encoding v1 (release/logical_tree.py): a mapping from logical paths
  to exact bytes, as one byte stream, together with a decoder that recovers the mapping.
 */
module LogicalTree {
  import opened Wrappers
  import opened Order
  import opened Splitting
  import opened Utf8

  const MAX_U64 := 0x1_0000_0000_0000_0000

  /** "ccc-logical-tree-v1" and a line feed. */
  const PREFIX: seq<byte> := [
    0x63, 0x63, 0x63, 0x2d, 0x6c, 0x6f, 0x67, 0x69, 0x63, 0x61, 0x6c,
    0x2d, 0x74, 0x72, 0x65, 0x65, 0x2d, 0x76, 0x31, 0x0a]

  /******* Big-endian integers *******/

  function Power256(k: nat): nat { if k == 0 then 1 else 256 * Power256(k - 1) }

  function BigEndian(n: nat, k: nat): (r: seq<byte>)
    ensures |r| == k
  {
    if k == 0 then [] else BigEndian(n / 256, k - 1) + [n % 256]
  }

  function FromBigEndian(s: seq<byte>): nat {
    if s == [] then 0 else 256 * FromBigEndian(s[..|s| - 1]) + s[|s| - 1]
  }

  lemma {:induction false} BigEndianInverts(n: nat, k: nat)
    requires n < Power256(k)
    ensures FromBigEndian(BigEndian(n, k)) == n
  {
    if k != 0 {
      BigEndianInverts(n / 256, k - 1);
      assert BigEndian(n, k)[..k - 1] == BigEndian(n / 256, k - 1);
    }
  }

  /** An unsigned 64-bit integer, most significant byte first. */
  function U64be(n: nat): (r: Option<seq<byte>>)
    ensures r.Some? <==> n < MAX_U64
    ensures r.Some? ==> |r.value| == 8
  {
    if n < MAX_U64 then Some(BigEndian(n, 8)) else None
  }

  lemma U64RoundTrip(n: nat)
    requires n < MAX_U64
    ensures FromBigEndian(U64be(n).value) == n
  {
    assert Power256(8) == MAX_U64;
    BigEndianInverts(n, 8);
  }

  /******* Logical paths *******/

  const SLASH: Code := 47
  const BACKSLASH: Code := 92
  const DOT: Code := 46
  const COLON: Code := 58

  predicate Letter(c: Code) { 65 <= c <= 90 || 97 <= c <= 122 }

  predicate GoodSegment(segment: seq<Code>) { segment != [] && segment != [DOT] && segment != [DOT, DOT] }

  /** A path some tree may use: relative, canonical, portable and encodable. */
  predicate ValidPath(path: seq<Code>) {
    && path != [] && 0 !in path && BACKSLASH !in path
    && !(|path| >= 2 && Letter(path[0]) && path[1] == COLON)
    && (forall i :: 0 <= i < |Split(path, SLASH)| ==> GoodSegment(Split(path, SLASH)[i]))
    && Encodable(path) && |Encode(path)| < MAX_U64
  }

  /** A key of the mapping: text, or an object of another type. */
  datatype Path = Text(text: seq<Code>) | NotText

  /** A value of the mapping: immutable bytes, or anything else. */
  datatype Content = Immutable(bytes: seq<byte>) | Mutable

  /** `validate_path`: the path's one encoding, or a refusal. */
  method ValidatePath(path: Path) returns (encoded: Option<seq<byte>>)
    ensures encoded.Some? <==> path.Text? && ValidPath(path.text)
    ensures encoded.Some? ==> encoded.value == Encode(path.text)
  {
    if path.NotText? || path.text == [] || 0 in path.text || BACKSLASH in path.text { return None; }
    var text := path.text;
    if text[0] == SLASH {
      LeadingSlash(text);
      return None;
    }
    if |text| >= 2 && Letter(text[0]) && text[1] == COLON { return None; }
    var segments := Split(text, SLASH);
    for i := 0 to |segments|
      invariant forall k :: 0 <= k < i ==> GoodSegment(segments[k])
    {
      if segments[i] == [] || segments[i] == [DOT] || segments[i] == [DOT, DOT] { return None; }
    }
    if exists i :: 0 <= i < |text| && Surrogate(text[i]) { return None; }
    if |Encode(text)| >= MAX_U64 { return None; }
    return Some(Encode(text));
  }

  /** A leading slash is an empty first segment. */
  lemma LeadingSlash(text: seq<Code>)
    requires text != [] && text[0] == SLASH
    ensures !GoodSegment(Split(text, SLASH)[0])
  {
  }

  /******* The stream *******/

  /** A member of the stream: its encoded path and its content. */
  datatype Member = Member(path: seq<byte>, content: seq<byte>)

  predicate Fits(m: Member) { |m.path| < MAX_U64 && |m.content| < MAX_U64 }

  function EncodeMember(m: Member): seq<byte>
    requires Fits(m)
  {
    U64be(|m.path|).value + m.path + U64be(|m.content|).value + m.content
  }

  predicate AllFit(members: seq<Member>) { forall i :: 0 <= i < |members| ==> Fits(members[i]) }

  function EncodeMembers(members: seq<Member>): seq<byte>
    requires AllFit(members)
  {
    if members == [] then [] else EncodeMember(members[0]) + EncodeMembers(members[1..])
  }

  function Stream(members: seq<Member>): seq<byte>
    requires AllFit(members) && |members| < MAX_U64
  {
    PREFIX + U64be(|members|).value + EncodeMembers(members)
  }

  /** A field: its length and its bytes; what follows it is left over. */
  function ReadField(s: seq<byte>): Option<(seq<byte>, seq<byte>)> {
    if |s| < 8 || |s| < 8 + FromBigEndian(s[..8]) then None
    else Some((s[8..8 + FromBigEndian(s[..8])], s[8 + FromBigEndian(s[..8])..]))
  }

  function ReadMember(s: seq<byte>): (r: Option<(Member, seq<byte>)>) {
    match ReadField(s)
    case None => None
    case Some((path, s')) =>
      match ReadField(s')
      case None => None
      case Some((content, s'')) => Some((Member(path, content), s''))
  }

  function ReadMembers(s: seq<byte>, count: nat): Option<(seq<Member>, seq<byte>)> {
    if count == 0 then Some(([], s))
    else
      match ReadMember(s)
      case None => None
      case Some((m, s')) =>
        match ReadMembers(s', count - 1)
        case None => None
        case Some((ms, s'')) => Some(([m] + ms, s''))
  }

  /** The members at the front of a byte string, and what follows them. */
  function ReadStream(s: seq<byte>): Option<(seq<Member>, seq<byte>)> {
    if |s| < 28 || s[..20] != PREFIX then None
    else ReadMembers(s[28..], FromBigEndian(s[20..28]))
  }

  lemma ReadFieldInverts(field: seq<byte>, rest: seq<byte>)
    requires |field| < MAX_U64
    ensures ReadField(U64be(|field|).value + field + rest) == Some((field, rest))
  {
    var n := U64be(|field|).value;
    var s := n + field + rest;
    U64RoundTrip(|field|);
    assert s[..8] == n;
    assert s[8..8 + |field|] == field && s[8 + |field|..] == rest;
  }

  lemma ReadMemberInverts(m: Member, rest: seq<byte>)
    requires Fits(m)
    ensures ReadMember(EncodeMember(m) + rest) == Some((m, rest))
  {
    var p, c := U64be(|m.path|).value, U64be(|m.content|).value;
    ReadFieldInverts(m.path, c + m.content + rest);
    ReadFieldInverts(m.content, rest);
    assert EncodeMember(m) + rest == p + m.path + (c + m.content + rest);
  }

  lemma {:induction false} ReadMembersInverts(members: seq<Member>, rest: seq<byte>)
    requires AllFit(members)
    ensures ReadMembers(EncodeMembers(members) + rest, |members|) == Some((members, rest))
    decreases |members|
  {
    if members == [] {
      assert EncodeMembers(members) + rest == rest;
    } else {
      var tail := EncodeMembers(members[1..]);
      ReadMemberInverts(members[0], tail + rest);
      ReadMembersInverts(members[1..], rest);
      Assoc(EncodeMember(members[0]), tail, rest);
      assert members == [members[0]] + members[1..];
    }
  }

  /** Reading a stream gives back its members, whatever follows it. */
  lemma ReadStreamInverts(members: seq<Member>, rest: seq<byte>)
    requires AllFit(members) && |members| < MAX_U64
    ensures ReadStream(Stream(members) + rest) == Some((members, rest))
  {
    var n, body := U64be(|members|).value, EncodeMembers(members);
    var s := Stream(members) + rest;
    U64RoundTrip(|members|);
    ReadMembersInverts(members, rest);
    Assoc(PREFIX + n, body, rest);
    Cut(PREFIX, n, body + rest);
  }

  lemma Assoc(a: seq<byte>, b: seq<byte>, c: seq<byte>)
    ensures a + b + c == a + (b + c)
  {
  }

  lemma Cut(a: seq<byte>, b: seq<byte>, c: seq<byte>)
    ensures (a + b + c)[..|a|] == a && (a + b + c)[|a|..|a| + |b|] == b && (a + b + c)[|a| + |b|..] == c
  {
  }

  /******* The mapping *******/

  /** An item of the mapping, as `dict.items` yields them: in insertion order, every key once. */
  datatype Item = Item(path: Path, content: Content)

  predicate IsDict(items: seq<Item>) {
    forall i, j :: 0 <= i < j < |items| ==> items[i].path != items[j].path
  }

  predicate ValidItem(item: Item) {
    && item.path.Text? && ValidPath(item.path.text)
    && item.content.Immutable? && |item.content.bytes| < MAX_U64
  }

  predicate ValidTree(items: seq<Item>) {
    |items| < MAX_U64 && forall i :: 0 <= i < |items| ==> ValidItem(items[i])
  }

  /** The mapping itself, free of any order. */
  function Tree(items: seq<Item>): (m: map<seq<Code>, seq<byte>>)
    requires forall i :: 0 <= i < |items| ==> ValidItem(items[i])
  {
    if items == [] then map[]
    else
      var last := items[|items| - 1];
      assert ValidItem(last);
      Tree(items[..|items| - 1])[last.path.text := last.content.bytes]
  }

  function Encoded(item: Item): (m: Member)
    requires ValidItem(item)
    ensures Fits(m)
  {
    Member(Encode(item.path.text), item.content.bytes)
  }

  function EncodedAll(items: seq<Item>): (r: seq<Member>)
    requires forall i :: 0 <= i < |items| ==> ValidItem(items[i])
    ensures |r| == |items| && forall i :: 0 <= i < |items| ==> r[i] == Encoded(items[i])
    ensures AllFit(r)
  {
    seq(|items|, i requires 0 <= i < |items| => Encoded(items[i]))
  }

  function PathKey(m: Member): seq<int> { m.path }

  /** The members of a mapping, in ascending order of their encoded paths. */
  function Members(items: seq<Item>): (r: seq<Member>)
    requires forall i :: 0 <= i < |items| ==> ValidItem(items[i])
    ensures |r| == |items| && AllFit(r)
  {
    SortedFit(EncodedAll(items));
    SortBy(EncodedAll(items), PathKey)
  }

  lemma SortedFit(members: seq<Member>)
    requires AllFit(members)
    ensures |SortBy(members, PathKey)| == |members| && AllFit(SortBy(members, PathKey))
  {
    var sorted := SortBy(members, PathKey);
    SameElements(sorted, members);
    forall i | 0 <= i < |sorted| ensures Fits(sorted[i]) { assert sorted[i] in sorted; }
  }

  /**
    `encode_tree`: the stream of a valid mapping. The check for two keys with one
    encoding never refuses a mapping, because distinct texts have distinct encodings.
   */
  method EncodeTree(items: seq<Item>) returns (stream: Option<seq<byte>>)
    requires IsDict(items)
    ensures stream.Some? <==> ValidTree(items)
    ensures stream.Some? ==> stream.value == Stream(Members(items))
  {
    var members := EncodeItems(items);
    if members.None? { return None; }
    var sorted := SortBy(members.value, PathKey);
    assert sorted == Members(items);
    if |sorted| >= MAX_U64 { return None; }
    var out := Emit(sorted);
    return Some(out);
  }

  /** The first loop: every item is validated and encoded. */
  method EncodeItems(items: seq<Item>) returns (members: Option<seq<Member>>)
    requires IsDict(items)
    ensures members.Some? <==> forall i :: 0 <= i < |items| ==> ValidItem(items[i])
    ensures members.Some? ==> members.value == EncodedAll(items)
  {
    var out: seq<Member> := [];
    var seen: set<seq<byte>> := {};
    for i := 0 to |items|
      invariant forall k :: 0 <= k < i ==> ValidItem(items[k])
      invariant out == EncodedAll(items[..i])
      invariant seen == set m | m in out :: m.path
    {
      var path := ValidatePath(items[i].path);
      if path.None? { return None; }
      NewPath(items, i);
      if path.value in seen { assert false; }
      seen := seen + {path.value};
      if items[i].content.Mutable? || |items[i].content.bytes| >= MAX_U64 { return None; }
      out := out + [Member(path.value, items[i].content.bytes)];
    }
    assert items[..|items|] == items;
    return Some(out);
  }

  /** Distinct texts have distinct encodings. */
  lemma NewPath(items: seq<Item>, i: nat)
    requires IsDict(items) && i < |items| && forall k :: 0 <= k < i ==> ValidItem(items[k])
    requires items[i].path.Text? && ValidPath(items[i].path.text)
    ensures forall m :: m in EncodedAll(items[..i]) ==> m.path != Encode(items[i].path.text)
  {
    forall m | m in EncodedAll(items[..i]) ensures m.path != Encode(items[i].path.text) {
      var k :| 0 <= k < i && EncodedAll(items[..i])[k] == m;
      if m.path == Encode(items[i].path.text) { EncodeInjective(items[k].path.text, items[i].path.text); }
    }
  }

  /** The second loop: the stream of the sorted members. */
  method Emit(members: seq<Member>) returns (out: seq<byte>)
    requires AllFit(members) && |members| < MAX_U64
    ensures out == Stream(members)
  {
    out := PREFIX + U64be(|members|).value;
    assert members[0..] == members;
    for i := 0 to |members|
      invariant out + EncodeMembers(members[i..]) == Stream(members)
    {
      var m := members[i];
      assert members[i..][0] == m && members[i..][1..] == members[i + 1..];
      Assoc(out, EncodeMember(m), EncodeMembers(members[i + 1..]));
      Assoc5(out, U64be(|m.path|).value, m.path, U64be(|m.content|).value, m.content);
      out := out + U64be(|m.path|).value + m.path + U64be(|m.content|).value + m.content;
    }
  }

  lemma Assoc5(a: seq<byte>, b: seq<byte>, c: seq<byte>, d: seq<byte>, e: seq<byte>)
    ensures a + b + c + d + e == a + (b + c + d + e)
  {
  }

  /******* What the stream determines *******/

  predicate InTree(item: Item, tree: map<seq<Code>, seq<byte>>) {
    ValidItem(item) && item.path.text in tree && tree[item.path.text] == item.content.bytes
  }

  ghost predicate Has(items: seq<Item>, t: seq<Code>) { exists i :: 0 <= i < |items| && items[i].path == Text(t) }

  /** Every item is in the tree, and nothing else is. */
  lemma {:induction false} TreeExact(items: seq<Item>)
    requires IsDict(items) && forall i :: 0 <= i < |items| ==> ValidItem(items[i])
    ensures forall i :: 0 <= i < |items| ==> InTree(items[i], Tree(items))
    ensures forall t :: t in Tree(items) ==> Has(items, t)
    decreases |items|
  {
    if items != [] {
      var front := items[..|items| - 1];
      TreeExact(front);
      forall i | 0 <= i < |items| ensures InTree(items[i], Tree(items)) {
        if i < |front| { assert front[i] == items[i] && InTree(front[i], Tree(front)); }
      }
      forall t | t in Tree(items) ensures Has(items, t) {
        if t != items[|items| - 1].path.text {
          assert t in Tree(front);
          var i :| 0 <= i < |front| && front[i].path == Text(t);
          assert items[i].path == Text(t);
        }
      }
    }
  }

  /** These members are the encoding of this tree, each path once. */
  ghost predicate Lists(members: seq<Member>, tree: map<seq<Code>, seq<byte>>) {
    && Ascending(Keys(members, PathKey))
    && (forall k :: 0 <= k < |members| ==> Listed(members[k], tree))
    && (forall t :: t in tree ==> Encodable(t) && Member(Encode(t), tree[t]) in members)
  }

  ghost predicate Listed(m: Member, tree: map<seq<Code>, seq<byte>>) {
    && Decode(m.path).Some? && Decode(m.path).value in tree
    && m == Member(Encode(Decode(m.path).value), tree[Decode(m.path).value])
  }

  lemma ItemIsListed(items: seq<Item>, i: nat)
    requires IsDict(items) && i < |items| && forall i :: 0 <= i < |items| ==> ValidItem(items[i])
    ensures Listed(Encoded(items[i]), Tree(items))
  {
    TreeExact(items);
    DecodeInverts(items[i].path.text);
  }

  lemma MembersAscend(items: seq<Item>)
    requires IsDict(items) && forall i :: 0 <= i < |items| ==> ValidItem(items[i])
    ensures Ascending(Keys(Members(items), PathKey))
  {
    var all := EncodedAll(items);
    forall i, j | 0 <= i < j < |all| ensures PathKey(all[i]) != PathKey(all[j]) {
      if PathKey(all[i]) == PathKey(all[j]) { EncodeInjective(items[i].path.text, items[j].path.text); }
    }
    SortAscends(all, PathKey);
  }

  lemma MembersListTheTree(items: seq<Item>)
    requires IsDict(items) && forall i :: 0 <= i < |items| ==> ValidItem(items[i])
    ensures Lists(Members(items), Tree(items))
  {
    MembersAscend(items);
    forall k | 0 <= k < |Members(items)| ensures Listed(Members(items)[k], Tree(items)) { MemberIsListed(items, k); }
    forall t | t in Tree(items) ensures Encodable(t) && Member(Encode(t), Tree(items)[t]) in Members(items) {
      PathHasAMember(items, t);
    }
  }

  lemma MemberIsListed(items: seq<Item>, k: nat)
    requires IsDict(items) && forall i :: 0 <= i < |items| ==> ValidItem(items[i])
    requires k < |Members(items)|
    ensures Listed(Members(items)[k], Tree(items))
  {
    var all, m := EncodedAll(items), Members(items)[k];
    SameElements(Members(items), all);
    assert m in Members(items);
    var i :| 0 <= i < |all| && all[i] == m;
    ItemIsListed(items, i);
  }

  lemma PathHasAMember(items: seq<Item>, t: seq<Code>)
    requires IsDict(items) && forall i :: 0 <= i < |items| ==> ValidItem(items[i])
    requires t in Tree(items)
    ensures Encodable(t) && Member(Encode(t), Tree(items)[t]) in Members(items)
  {
    var all := EncodedAll(items);
    SameElements(Members(items), all);
    TreeExact(items);
    assert Has(items, t);
    var i :| 0 <= i < |items| && items[i].path == Text(t);
    assert InTree(items[i], Tree(items));
    assert all[i] in all;
  }

  /** A tree is listed in only one way: the stream does not depend on the order of insertion. */
  lemma ListingUnique(a: seq<Member>, b: seq<Member>, tree: map<seq<Code>, seq<byte>>)
    requires Lists(a, tree) && Lists(b, tree)
    ensures a == b
  {
    var ka, kb := Keys(a, PathKey), Keys(b, PathKey);
    KeysOfListing(a, b, tree);
    KeysOfListing(b, a, tree);
    AscendingUnique(ka, kb);
    forall k | 0 <= k < |a| ensures a[k] == b[k] {
      assert ka[k] == kb[k];
      assert Listed(a[k], tree) && Listed(b[k], tree);
    }
  }

  lemma KeysOfListing(a: seq<Member>, b: seq<Member>, tree: map<seq<Code>, seq<byte>>)
    requires Lists(a, tree) && Lists(b, tree)
    ensures forall x :: x in Keys(a, PathKey) ==> x in Keys(b, PathKey)
  {
    forall x | x in Keys(a, PathKey) ensures x in Keys(b, PathKey) {
      var k :| 0 <= k < |a| && Keys(a, PathKey)[k] == x;
      assert Listed(a[k], tree);
      assert a[k] in b;
      var j :| 0 <= j < |b| && b[j] == a[k];
      assert Keys(b, PathKey)[j] == x;
    }
  }

  /** The mapping that a list of members encodes. */
  function FromMembers(members: seq<Member>): Option<map<seq<Code>, seq<byte>>> {
    if members == [] then Some(map[])
    else
      var last := members[|members| - 1];
      match FromMembers(members[..|members| - 1])
      case None => None
      case Some(m) => if Decode(last.path).Some? then Some(m[Decode(last.path).value := last.content]) else None
  }

  /** The decoder: the mapping of a stream that is nothing but an encoding. */
  function DecodeTree(stream: seq<byte>): Option<map<seq<Code>, seq<byte>>> {
    match ReadStream(stream)
    case None => None
    case Some((members, rest)) => if rest == [] then FromMembers(members) else None
  }

  ghost predicate Names(members: seq<Member>, t: seq<Code>) {
    exists k :: 0 <= k < |members| && Decode(members[k].path) == Some(t)
  }

  lemma NamesLast(members: seq<Member>, t: seq<Code>)
    requires members != []
    ensures Names(members, t) <==> Names(members[..|members| - 1], t) || Decode(members[|members| - 1].path) == Some(t)
  {
    var front := members[..|members| - 1];
    if k :| 0 <= k < |front| && Decode(front[k].path) == Some(t) {
      assert Decode(members[k].path) == Some(t);
    }
    if k :| 0 <= k < |members| && Decode(members[k].path) == Some(t) {
      if k < |front| { assert Decode(front[k].path) == Some(t); }
    }
  }

  lemma {:induction false} FromMembersExact(members: seq<Member>, tree: map<seq<Code>, seq<byte>>)
    requires forall k :: 0 <= k < |members| ==> Listed(members[k], tree)
    ensures FromMembers(members).Some?
    ensures forall t :: t in FromMembers(members).value <==> Names(members, t)
    ensures forall t :: t in FromMembers(members).value ==> t in tree && FromMembers(members).value[t] == tree[t]
    decreases |members|
  {
    if members != [] {
      var front, last := members[..|members| - 1], members[|members| - 1];
      assert Listed(last, tree);
      FromMembersExact(front, tree);
      forall t ensures t in FromMembers(members).value <==> Names(members, t) { NamesLast(members, t); }
    }
  }

  lemma FromListing(members: seq<Member>, tree: map<seq<Code>, seq<byte>>)
    requires Lists(members, tree)
    ensures FromMembers(members) == Some(tree)
  {
    FromMembersExact(members, tree);
    forall t | t in tree ensures Names(members, t) {
      var k :| 0 <= k < |members| && members[k] == Member(Encode(t), tree[t]);
      DecodeInverts(t);
      assert Decode(members[k].path) == Some(t);
    }
    assert FromMembers(members).value == tree;
  }

  /** The encoding can be undone: every valid mapping is recovered from its stream. */
  lemma DecodingRecoversTheMapping(items: seq<Item>)
    requires IsDict(items) && ValidTree(items)
    ensures DecodeTree(Stream(Members(items))) == Some(Tree(items))
  {
    var members := Members(items);
    ReadStreamInverts(members, []);
    assert Stream(members) + [] == Stream(members);
    MembersListTheTree(items);
    FromListing(members, Tree(items));
  }

  /** One stream for each mapping, and one mapping for each stream, in whatever order the mapping was filled. */
  lemma StreamDeterminesMapping(a: seq<Item>, b: seq<Item>)
    requires IsDict(a) && ValidTree(a) && IsDict(b) && ValidTree(b)
    ensures Stream(Members(a)) == Stream(Members(b)) <==> Tree(a) == Tree(b)
  {
    DecodingRecoversTheMapping(a);
    DecodingRecoversTheMapping(b);
    if Tree(a) == Tree(b) {
      MembersListTheTree(a);
      MembersListTheTree(b);
      ListingUnique(Members(a), Members(b), Tree(a));
    }
  }

  /** No stream is a proper prefix of another. */
  lemma NoStreamIsAPrefix(a: seq<Item>, b: seq<Item>)
    requires IsDict(a) && ValidTree(a) && IsDict(b) && ValidTree(b)
    requires Stream(Members(a)) <= Stream(Members(b))
    ensures Stream(Members(a)) == Stream(Members(b))
  {
    PrefixOfStream(Members(a), Members(b));
  }

  lemma PrefixOfStream(a: seq<Member>, b: seq<Member>)
    requires AllFit(a) && |a| < MAX_U64 && AllFit(b) && |b| < MAX_U64
    requires Stream(a) <= Stream(b)
    ensures Stream(a) == Stream(b)
  {
    var s, t := Stream(a), Stream(b);
    var rest := t[|s|..];
    ReadStreamInverts(a, rest);
    ReadStreamInverts(b, []);
    assert s + rest == t && t + [] == t;
  }
}

/**
  Capability declarations: the canonical document of required capabilities, and the
  decision whether an engine that provides some capabilities has to be replaced
  (backend/capability_required_decoder.py, capability_extraction.py,
  capability_sufficiency.py, capability_decision.py).
 */
module Capability {
  import opened Wrappers
  import opened Order
  import opened Splitting
  import opened Utf8

  const LF: byte := 10
  const CR: byte := 13

  type Identity = seq<byte>

  /******* The document *******/

  datatype DecodeResult = Absent | Malformed | Declared(collection: seq<Identity>)

  /** `decode_required`; no data means that the artifact is absent. */
  function DecodeRequired(data: Option<seq<byte>>): DecodeResult {
    match data
    case None => Absent
    case Some(bytes) =>
      if bytes == [] then Declared([])
      else if CR in bytes then Malformed
      else if bytes[|bytes| - 1] != LF then Malformed
      else
        var parts := Split(bytes, LF);
        var tokens := parts[..|parts| - 1];
        if exists i :: 0 <= i < |tokens| && tokens[i] == [] then Malformed
        else if !NeighboursAscend(tokens) then Malformed
        else Declared(tokens)
  }

  /** A document lists each identity on a line of its own. */
  function Print(ids: seq<Identity>): seq<byte> {
    if ids == [] then [] else ids[0] + [LF] + Print(ids[1..])
  }

  predicate GoodIdentity(id: Identity) { id != [] && LF !in id && CR !in id }

  predicate CanonicalList(ids: seq<Identity>) {
    Ascending(ids) && forall i :: 0 <= i < |ids| ==> GoodIdentity(ids[i])
  }

  lemma {:induction false} PrintIsJoin(ids: seq<Identity>)
    ensures Print(ids) == Join(ids + [[]], LF)
    decreases |ids|
  {
    if ids != [] {
      PrintIsJoin(ids[1..]);
      assert (ids + [[]])[1..] == ids[1..] + [[]];
    }
  }

  lemma {:induction false} NoCrInJoin(parts: seq<Identity>)
    requires parts != []
    ensures CR in Join(parts, LF) <==> exists i :: 0 <= i < |parts| && CR in parts[i]
    decreases |parts|
  {
    if |parts| > 1 {
      NoCrInJoin(parts[1..]);
      var s := Join(parts, LF);
      assert s == parts[0] + ([LF] + Join(parts[1..], LF));
      if i :| 0 <= i < |parts| && CR in parts[i] {
        if i > 0 { assert parts[1..][i - 1] == parts[i]; }
      }
    }
  }

  /** A non-empty document that ends in a line feed is printed from its tokens. */
  lemma TokensPrinted(bytes: seq<byte>)
    requires bytes != [] && bytes[|bytes| - 1] == LF
    ensures var parts := Split(bytes, LF); parts[|parts| - 1] == [] && Print(parts[..|parts| - 1]) == bytes
  {
    var parts := Split(bytes, LF);
    LastPartEmpty(bytes);
    JoinOfSplit(bytes, LF);
    PrintIsJoin(parts[..|parts| - 1]);
    assert parts[..|parts| - 1] + [[]] == parts;
  }

  lemma {:induction false} LastPartEmpty(bytes: seq<byte>)
    requires bytes != [] && bytes[|bytes| - 1] == LF
    ensures var parts := Split(bytes, LF); |parts| > 1 && parts[|parts| - 1] == []
    decreases |bytes|
  {
    if |bytes| == 1 {
      assert bytes[1..] == [];
    } else {
      LastPartEmpty(bytes[1..]);
    }
  }

  lemma {:induction false} PrintEndsInLf(ids: seq<Identity>)
    requires ids != []
    ensures Print(ids) != [] && Print(ids)[|Print(ids)| - 1] == LF
    decreases |ids|
  {
    if |ids| > 1 { PrintEndsInLf(ids[1..]); }
  }

  /** The decoder accepts exactly the printed canonical lists, and reads each back. */
  lemma DecodeIsInverseOfPrint(bytes: seq<byte>, ids: seq<Identity>)
    ensures DecodeRequired(Some(bytes)) == Declared(ids) <==> CanonicalList(ids) && bytes == Print(ids)
  {
    if CanonicalList(ids) && bytes == Print(ids) { PrintIsDecoded(ids); }
    if DecodeRequired(Some(bytes)) == Declared(ids) { DecodedIsPrinted(bytes, ids); }
  }

  lemma PrintIsDecoded(ids: seq<Identity>)
    requires CanonicalList(ids)
    ensures DecodeRequired(Some(Print(ids))) == Declared(ids)
  {
    if ids != [] {
      PrintIsJoin(ids);
      SplitOfJoin(ids + [[]], LF);
      NoCrInJoin(ids + [[]]);
      PrintEndsInLf(ids);
      NeighboursSuffice(ids);
      assert (ids + [[]])[..|ids|] == ids;
    }
  }

  lemma DecodedIsPrinted(bytes: seq<byte>, ids: seq<Identity>)
    requires DecodeRequired(Some(bytes)) == Declared(ids)
    ensures CanonicalList(ids) && bytes == Print(ids)
  {
    if bytes != [] {
      TokensPrinted(bytes);
      SplitIsFree(bytes, LF);
      JoinOfSplit(bytes, LF);
      NoCrInJoin(Split(bytes, LF));
      NeighboursSuffice(ids);
    }
  }

  /** A set of identities has at most one document. */
  lemma OneDocumentForEachSet(a: seq<Identity>, b: seq<Identity>)
    requires CanonicalList(a) && CanonicalList(b)
    ensures Print(a) == Print(b) <==> (forall id :: id in a <==> id in b)
  {
    if forall id :: id in a <==> id in b { AscendingUnique(a, b); }
    if Print(a) == Print(b) {
      PrintIsDecoded(a);
      PrintIsDecoded(b);
    }
  }

  /******* The decision *******/

  /**
    An element of the provided collection: an identity, an object equal to no identity, or one that cannot be compared.
   */
  datatype Candidate = Identified(id: Identity) | Unequal | Incomparable

  /** The provided collection, as its caller hands it over. */
  datatype Provided = Nothing | BareText | NotIterable | Items(items: seq<Candidate>)

  datatype Membership = Member | NotMember | IllFormed

  datatype Sufficiency = Sufficient | Insufficient | Undeterminable

  datatype Decision = NoOp | AdoptionRequired | FailClosed

  /** `_is_member`. */
  function IsMember(id: Identity, items: seq<Candidate>): Membership {
    if items == [] then NotMember
    else if items[0].Incomparable? then IllFormed
    else if items[0] == Identified(id) then Member
    else IsMember(id, items[1..])
  }

  function CheckEach(required: seq<Identity>, items: seq<Candidate>): Sufficiency {
    if required == [] then Sufficient
    else
      match IsMember(required[0], items)
      case IllFormed => Undeterminable
      case NotMember => Insufficient
      case Member => CheckEach(required[1..], items)
  }

  /** `evaluate_sufficiency`. */
  function EvaluateSufficiency(required: seq<Identity>, provided: Provided): Sufficiency {
    if !provided.Items? then Undeterminable
    else if required == [] then Sufficient
    else CheckEach(required, provided.items)
  }

  /** `decide`, through `extract_required`. */
  function Decide(declaration: DecodeResult, provided: Provided): Decision {
    if !declaration.Declared? then FailClosed
    else
      match EvaluateSufficiency(declaration.collection, provided)
      case Sufficient => NoOp
      case Insufficient => AdoptionRequired
      case Undeterminable => FailClosed
  }

  /** An identity is found before anything that cannot be compared. */
  ghost predicate Found(id: Identity, items: seq<Candidate>) {
    exists k :: 0 <= k < |items| && items[k] == Identified(id) && forall j :: 0 <= j < k ==> !items[j].Incomparable?
  }

  ghost predicate Comparable(items: seq<Candidate>) { forall j :: 0 <= j < |items| ==> !items[j].Incomparable? }

  ghost predicate Missing(id: Identity, items: seq<Candidate>) { Comparable(items) && Identified(id) !in items }

  lemma {:induction false} MembershipExact(id: Identity, items: seq<Candidate>)
    ensures IsMember(id, items).Member? <==> Found(id, items)
    ensures IsMember(id, items).NotMember? <==> Missing(id, items)
    decreases |items|
  {
    if items != [] {
      MembershipExact(id, items[1..]);
      FoundInTail(id, items);
      MissingInTail(id, items);
    }
  }

  lemma FoundInTail(id: Identity, items: seq<Candidate>)
    requires items != []
    ensures Found(id, items) <==>
              !items[0].Incomparable? && (items[0] == Identified(id) || Found(id, items[1..]))
  {
    var rest := items[1..];
    if k :| 0 < k < |items| && items[k] == Identified(id) && forall j :: 0 <= j < k ==> !items[j].Incomparable? {
      assert rest[k - 1] == Identified(id);
      forall j | 0 <= j < k - 1 ensures !rest[j].Incomparable? { assert rest[j] == items[j + 1]; }
    }
    if !items[0].Incomparable? && Found(id, rest) {
      var k :| 0 <= k < |rest| && rest[k] == Identified(id) && forall j :: 0 <= j < k ==> !rest[j].Incomparable?;
      assert items[k + 1] == Identified(id);
      forall j | 0 <= j < k + 1 ensures !items[j].Incomparable? { if j > 0 { assert items[j] == rest[j - 1]; } }
    }
  }

  lemma MissingInTail(id: Identity, items: seq<Candidate>)
    requires items != []
    ensures Missing(id, items) <==>
              !items[0].Incomparable? && items[0] != Identified(id) && Missing(id, items[1..])
  {
    assert items == [items[0]] + items[1..];
    if Missing(id, items[1..]) && !items[0].Incomparable? {
      forall j | 0 <= j < |items| ensures !items[j].Incomparable? { if j > 0 { assert items[j] == items[1..][j - 1]; } }
    }
  }

  /** Every identity of the list is found. */
  ghost predicate AllFound(ids: seq<Identity>, items: seq<Candidate>) {
    forall i :: 0 <= i < |ids| ==> Found(ids[i], items)
  }

  /** An identity of the list is missing, and every identity before it is found. */
  ghost predicate OneMissing(ids: seq<Identity>, items: seq<Candidate>) {
    exists i :: 0 <= i < |ids| && Missing(ids[i], items) && forall j :: 0 <= j < i ==> Found(ids[j], items)
  }

  lemma AllFoundInTail(ids: seq<Identity>, items: seq<Candidate>)
    requires ids != []
    ensures AllFound(ids, items) <==> Found(ids[0], items) && AllFound(ids[1..], items)
  {
    var rest := ids[1..];
    if AllFound(ids, items) {
      forall i | 0 <= i < |rest| ensures Found(rest[i], items) { assert rest[i] == ids[i + 1]; }
    }
    if Found(ids[0], items) && AllFound(rest, items) {
      forall i | 0 <= i < |ids| ensures Found(ids[i], items) { if i > 0 { assert ids[i] == rest[i - 1]; } }
    }
  }

  lemma OneMissingInTail(ids: seq<Identity>, items: seq<Candidate>)
    requires ids != []
    ensures OneMissing(ids, items) <==> Missing(ids[0], items) || (Found(ids[0], items) && OneMissing(ids[1..], items))
  {
    var rest := ids[1..];
    if i :| 0 < i < |ids| && Missing(ids[i], items) && forall j :: 0 <= j < i ==> Found(ids[j], items) {
      assert Missing(rest[i - 1], items);
      forall j | 0 <= j < i - 1 ensures Found(rest[j], items) { assert rest[j] == ids[j + 1]; }
    }
    if Found(ids[0], items) && OneMissing(rest, items) {
      var i :| 0 <= i < |rest| && Missing(rest[i], items) && forall j :: 0 <= j < i ==> Found(rest[j], items);
      assert Missing(ids[i + 1], items);
      forall j | 0 <= j < i + 1 ensures Found(ids[j], items) { if j > 0 { assert ids[j] == rest[j - 1]; } }
    }
  }

  lemma {:induction false} CheckEachExact(required: seq<Identity>, items: seq<Candidate>)
    ensures CheckEach(required, items).Sufficient? <==> AllFound(required, items)
    ensures CheckEach(required, items).Insufficient? <==> OneMissing(required, items)
    decreases |required|
  {
    if required != [] {
      MembershipExact(required[0], items);
      CheckEachExact(required[1..], items);
      AllFoundInTail(required, items);
      OneMissingInTail(required, items);
    }
  }

  /** Adoption is a no-op exactly if the document is canonical and every identity in it is provided. */
  lemma NoOpExactlyIfContained(bytes: seq<byte>, items: seq<Candidate>)
    requires Comparable(items)
    ensures Decide(DecodeRequired(Some(bytes)), Items(items)).NoOp? <==>
              exists ids :: CanonicalList(ids) && bytes == Print(ids) &&
                forall id :: id in ids ==> Identified(id) in items
  {
    var d := DecodeRequired(Some(bytes));
    if d.Declared? {
      var ids := d.collection;
      DecodeIsInverseOfPrint(bytes, ids);
      CheckEachExact(ids, items);
      forall id ensures Found(id, items) <==> Identified(id) in items {
        if k :| 0 <= k < |items| && items[k] == Identified(id) { }
      }
    }
    if ids :| CanonicalList(ids) && bytes == Print(ids) && forall id :: id in ids ==> Identified(id) in items {
      DecodeIsInverseOfPrint(bytes, ids);
    }
  }

  /**
    The three decisions on any declaration, even if some candidates cannot be compared: without a canonical declaration
    or an iterable collection, and where a comparison fails first, adoption fails closed.
   */
  lemma DecisionExact(declaration: DecodeResult, provided: Provided)
    ensures Decide(declaration, provided).NoOp? <==>
              declaration.Declared? && provided.Items? && AllFound(declaration.collection, provided.items)
    ensures Decide(declaration, provided).AdoptionRequired? <==>
              declaration.Declared? && provided.Items? && OneMissing(declaration.collection, provided.items)
  {
    if declaration.Declared? && provided.Items? { CheckEachExact(declaration.collection, provided.items); }
  }

  /** Providing more never turns a no-op into an adoption. */
  lemma NoOpIsMonotone(declaration: DecodeResult, items: seq<Candidate>, more: seq<Candidate>)
    requires Decide(declaration, Items(items)).NoOp?
    requires (Comparable(more) && forall c :: c in items ==> c in more) || items <= more
    ensures Decide(declaration, Items(more)).NoOp?
  {
    var ids := declaration.collection;
    DecisionExact(declaration, Items(items));
    DecisionExact(declaration, Items(more));
    forall i | 0 <= i < |ids| ensures Found(ids[i], more) {
      assert Found(ids[i], items);
      var k :| 0 <= k < |items| && items[k] == Identified(ids[i]) && forall j :: 0 <= j < k ==> !items[j].Incomparable?;
      if items <= more {
        assert more[k] == Identified(ids[i]);
      } else {
        assert items[k] in more;
      }
    }
  }
}

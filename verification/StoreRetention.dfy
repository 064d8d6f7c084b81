/**
  Retention: what the collector may remove, and that a recorded previous runtime
  can always be returned to.
 */
module StoreRetention {
  import opened Durable
  import opened Names
  import opened StoreModel
  import opened StoreSafety

  predicate Distinct(names: seq<string>) { forall i, j :: 0 <= i < j < |names| ==> names[i] != names[j] }

  /** The directory listing of the store: every entry, once. */
  predicate Listing(d: Disk, listing: seq<string>) {
    && Distinct(listing)
    && (set n | n in listing) == d.store.Keys
  }

  /******* What a collection removes *******/

  /** The collectable names of the listing, in its order. */
  function Collectables(d: Disk, names: seq<string>, keep: set<string>): seq<string> {
    if names == [] then []
    else (if Collectable(d, names[0], keep) then [names[0]] else []) + Collectables(d, names[1..], keep)
  }

  predicate NothingStops(d: Disk, names: seq<string>, keep: set<string>) {
    forall i :: 0 <= i < |names| ==> !StopsCollection(d, names[i], keep)
  }

  function Without(d: Disk, names: set<string>): Disk {
    d.(store := d.store - names, manifests := d.manifests - names)
  }

  lemma CollectingOneLeavesTheOthers(d: Disk, name: string, names: seq<string>, keep: set<string>)
    requires name !in names
    ensures Collectables(Collected(d, name), names, keep) == Collectables(d, names, keep)
    ensures NothingStops(Collected(d, name), names, keep) <==> NothingStops(d, names, keep)
  {
    var d' := Collected(d, name);
    if names != [] {
      assert names[0] != name && name !in names[1..];
      assert Collectable(d', names[0], keep) <==> Collectable(d, names[0], keep);
      CollectingOneLeavesTheOthers(d, name, names[1..], keep);
    }
    forall i | 0 <= i < |names|
      ensures StopsCollection(d', names[i], keep) <==> StopsCollection(d, names[i], keep)
    {
      assert names[i] != name;
    }
  }

  lemma NothingStopsTail(d: Disk, names: seq<string>, keep: set<string>)
    requires names != []
    ensures NothingStops(d, names, keep) <==> !StopsCollection(d, names[0], keep) && NothingStops(d, names[1..], keep)
  {
    if !StopsCollection(d, names[0], keep) && NothingStops(d, names[1..], keep) {
      forall i | 0 <= i < |names| ensures !StopsCollection(d, names[i], keep) {
        if i > 0 { assert names[i] == names[1..][i - 1]; }
      }
    }
  }

  lemma WithoutOneThenMore(d: Disk, name: string, later: seq<string>)
    ensures Without(Collected(d, name), set n | n in later) == Without(d, set n | n in [name] + later)
  {
    assert (set n | n in [name] + later) == {name} + (set n | n in later);
  }

  lemma {:induction false} SweepRemovesExactly(
      d: Disk, names: seq<string>, keep: set<string>, removed: seq<string>, remains: Tree)
    requires Distinct(names)
    ensures var (end, outcome) := Complete(d, GcSweep(d, names, keep, removed, remains));
            && (outcome.Returned? <==> NothingStops(d, names, keep))
            && (outcome.Returned? ==>
                  && outcome == Returned(Removed(removed + Collectables(d, names, keep)))
                  && end == Without(d, set n | n in Collectables(d, names, keep)))
    decreases |names|
  {
    if names == [] {
      assert removed + Collectables(d, names, keep) == removed;
      assert d.store - {} == d.store && d.manifests - {} == d.manifests;
    } else {
      var name, rest := names[0], names[1..];
      NothingStopsTail(d, names, keep);
      if StopsCollection(d, name, keep) {
      } else if Collectable(d, name, keep) {
        assert name !in rest;
        var d3 := Collected(d, name);
        CollectingOneLeavesTheOthers(d, name, rest, keep);
        SweepRemovesExactly(d3, rest, keep, removed + [name], remains);
        SweepOne(d, names, keep, removed, remains);
        WithoutOneThenMore(d, name, Collectables(d, rest, keep));
        assert removed + [name] + Collectables(d, rest, keep) == removed + ([name] + Collectables(d, rest, keep));
      } else {
        SweepRemovesExactly(d, rest, keep, removed, remains);
        assert Collectables(d, names, keep) == Collectables(d, rest, keep);
      }
    }
  }

  lemma SweepOne(d: Disk, names: seq<string>, keep: set<string>, removed: seq<string>, remains: Tree)
    requires names != [] && Collectable(d, names[0], keep)
    ensures Complete(d, GcSweep(d, names, keep, removed, remains))
         == Complete(Collected(d, names[0]),
             GcSweep(Collected(d, names[0]), names[1..], keep, removed + [names[0]], remains))
  {
    var d2 := d.(store := d.store - {names[0]});
    var d3 := Collected(d, names[0]);
    var run := GcSweep(d3, names[1..], keep, removed + [names[0]], remains);
    assert Complete(d2, Step(d3, run)) == Complete(d3, run);
  }

  lemma {:induction false} CollectablesAre(d: Disk, names: seq<string>, keep: set<string>)
    ensures forall n :: n in Collectables(d, names, keep) <==> n in names && Collectable(d, n, keep)
  {
    if names != [] { CollectablesAre(d, names[1..], keep); }
  }

  /** When a collection runs to its end, and what it then has removed. */
  lemma CompletedCollection(d: Disk, listing: seq<string>, remains: Tree)
    requires Listing(d, listing)
    ensures var (end, outcome) := Complete(d, GcRun(d, listing, remains));
            var selector := ValidateSelector(d);
            && (outcome.Returned? <==>
                  && selector.Pass? && !d.previous.BadPrevious?
                  && NothingStops(d, listing, Keep(d, selector.value)))
            && (outcome.Returned? ==>
                  var gone := set n | n in d.store && Collectable(d, n, Keep(d, selector.value));
                  && end == Without(d, gone)
                  && outcome.value.Removed? && (set n | n in outcome.value.ids) == gone)
  {
    if ValidateSelector(d).Pass? {
      var keep := Keep(d, ValidateSelector(d).value);
      SweepRemovesExactly(d, listing, keep, [], remains);
      CollectablesAre(d, listing, keep);
      assert forall n :: n in listing <==> n in (set m | m in listing);
      assert (set n | n in Collectables(d, listing, keep)) == set n | n in d.store && Collectable(d, n, keep);
    }
  }

  /******* What every collection spares, however it is cut *******/

  predicate Spared(d0: Disk, keep: set<string>, d: Disk) {
    && d == d0.(store := d.store, manifests := d.manifests)
    && (forall n :: n in d0.store && !Collectable(d0, n, keep) ==> n in d.store && d.store[n] == d0.store[n])
    && (forall n :: n in d0.manifests && !Collectable(d0, n, keep) ==> n in d.manifests)
    && (forall n :: n in d.manifests ==> n in d0.manifests && d.manifests[n] == d0.manifests[n])
  }

  ghost function Sparing(d0: Disk, keep: set<string>): Disk -> bool { d => Spared(d0, keep, d) }

  /** The names still to be visited are as they were. */
  predicate Ahead(d0: Disk, d: Disk, names: seq<string>) {
    && Distinct(names)
    && (forall n :: n in names && n in d.store ==> n in d0.store && d.store[n] == d0.store[n])
  }

  lemma CollectingOneSpares(d0: Disk, d: Disk, names: seq<string>, keep: set<string>, remains: Tree)
    requires Spared(d0, keep, d) && Ahead(d0, d, names)
    requires names != [] && Collectable(d, names[0], keep)
    ensures Spared(d0, keep, d.(store := d.store[names[0] := Dir(Torn(d.store[names[0]].tree, remains))]))
    ensures Spared(d0, keep, d.(store := d.store - {names[0]}))
    ensures Spared(d0, keep, Collected(d, names[0])) && Ahead(d0, Collected(d, names[0]), names[1..])
  {
    var name := names[0];
    assert Collectable(d0, name, keep);
    assert name !in names[1..];
  }

  lemma {:induction false} SweepSpares(
      d0: Disk, d: Disk, names: seq<string>, keep: set<string>, removed: seq<string>, remains: Tree)
    requires Spared(d0, keep, d) && Ahead(d0, d, names)
    ensures Throughout(d, GcSweep(d, names, keep, removed, remains), Sparing(d0, keep))
    decreases |names|
  {
    if names != [] && !StopsCollection(d, names[0], keep) {
      if Collectable(d, names[0], keep) {
        CollectingOneSpares(d0, d, names, keep, remains);
        var d2 := d.(store := d.store - {names[0]});
        var d3 := Collected(d, names[0]);
        var run := GcSweep(d3, names[1..], keep, removed + [names[0]], remains);
        SweepSpares(d0, d3, names[1..], keep, removed + [names[0]], remains);
        assert Throughout(d2, Step(d3, run), Sparing(d0, keep));
      } else {
        SweepSpares(d0, d, names[1..], keep, removed, remains);
      }
    }
  }

  lemma CutCollectionSpares(d: Disk, listing: seq<string>, remains: Tree, writes: nat)
    requires Listing(d, listing) && ValidateSelector(d).Pass?
    ensures Spared(d, Keep(d, ValidateSelector(d).value), CutAfter(d, GcRun(d, listing, remains), writes).disk)
  {
    var keep := Keep(d, ValidateSelector(d).value);
    SweepSpares(d, d, listing, keep, [], remains);
    if GcRun(d, listing, remains) == GcSweep(d, listing, keep, [], remains) {
      CutKeeps(d, GcRun(d, listing, remains), writes, Sparing(d, keep));
    }
  }

  /**
    Whatever is current, recorded previous, without a manifest or not a real directory outlives every cut of every
    collection.
   */
  lemma CollectionSpares(d: Disk, listing: seq<string>, remains: Tree, writes: nat, name: string)
    requires Listing(d, listing) && name in d.store
    requires ValidateSelector(d).Pass?
    requires || name in Keep(d, ValidateSelector(d).value) || name !in d.manifests
             || d.store[name].Object? || !MatchesId(name)
    ensures var d' := CutAfter(d, GcRun(d, listing, remains), writes).disk;
            && name in d'.store && d'.store[name] == d.store[name]
            && (name in d.manifests ==> name in d'.manifests && d'.manifests[name] == d.manifests[name])
            && d'.selector == d.selector && d'.previous == d.previous
  {
    CutCollectionSpares(d, listing, remains, writes);
    assert !Collectable(d, name, Keep(d, ValidateSelector(d).value));
  }

  /******* Returning to the previous runtime *******/

  /** The selector is on b, and a, still valid, is the recorded previous runtime. */
  predicate CanReturn(d: Disk, a: string, b: string) {
    && d.selector == StoreLinkTo(b) && d.previous == Previous(a, b)
    && ValidateTarget(d, a).Pass? && ValidateTarget(d, b).Pass?
  }

  predicate Collections(d: Disk, schedule: seq<Call>)
    decreases |schedule|
  {
    schedule != [] ==>
      && schedule[0].op.Gc? && Listing(d, schedule[0].op.listing)
      && Collections(AfterCall(d, schedule[0]), schedule[1..])
  }

  lemma CollectionKeepsTheWayBack(d: Disk, a: string, b: string, listing: seq<string>, remains: Tree, writes: nat)
    requires CanReturn(d, a, b) && Listing(d, listing)
    ensures CanReturn(CutAfter(d, GcRun(d, listing, remains), writes).disk, a, b)
  {
    CutCollectionSpares(d, listing, remains, writes);
    assert !Collectable(d, a, Keep(d, b)) && !Collectable(d, b, Keep(d, b));
  }

  lemma {:induction false} CollectionsKeepTheWayBack(d: Disk, a: string, b: string, schedule: seq<Call>)
    requires CanReturn(d, a, b) && Collections(d, schedule)
    ensures CanReturn(After(d, schedule), a, b)
    decreases |schedule|
  {
    if schedule != [] {
      var c := schedule[0];
      CollectionKeepsTheWayBack(d, a, b, c.op.listing, c.op.remains, c.writes);
      CollectionsKeepTheWayBack(AfterCall(d, c), a, b, schedule[1..]);
    }
  }

  /**
    After an activation from a to b, any collections, each cut off anywhere,
    leave a rollback that returns to a and changes nothing but the selector.
   */
  lemma RollbackReturnsAfterCollections(d: Disk, a: string, b: string, schedule: seq<Call>)
    requires ValidateSelector(d) == Pass(a) && a != b
    requires Complete(d, ActivateRun(d, b, true)).1 == Returned(RuntimeId(a))
    requires Collections(Complete(d, ActivateRun(d, b, true)).0, schedule)
    ensures var d' := After(Complete(d, ActivateRun(d, b, true)).0, schedule);
            Complete(d', RollbackActivationRun(d', true)) == (d'.(selector := StoreLinkTo(a)), Returned(RuntimeId(a)))
  {
    var d1 := Complete(d, ActivateRun(d, b, true)).0;
    ActivateCompletes(d, a, b);
    EndedIsComplete(d, ActivateRun(d, b, true), 2);
    assert CanReturn(d1, a, b);
    CollectionsKeepTheWayBack(d1, a, b, schedule);
    var d' := After(d1, schedule);
    var back := d'.(selector := StoreLinkTo(a));
    assert ValidateSelector(back) == Pass(a);
  }

  /** An activation whose check after the flip fails ends with the old selector, its target still recorded. */
  lemma FailedActivationRestoresTheSelector(d: Disk, id: string)
    requires ValidateTarget(d, id).Pass? && ValidateSelector(d).Pass? && ValidateSelector(d).value != id
    ensures var (end, outcome) := Complete(d, ActivateRun(d, id, false));
            outcome == Raised(PostCheckFailed)
            && end == d.(previous := Previous(ValidateSelector(d).value, id))
  {
    var from := ValidateSelector(d).value;
    var d1 := d.(previous := Previous(from, id));
    var d2 := d1.(selector := StoreLinkTo(id));
    assert FlipRun(d1, from, id, false, RuntimeId(from)) == Step(d2, Step(d1, Halt(Raised(PostCheckFailed))));
    assert Complete(d2, Step(d1, Halt(Raised(PostCheckFailed)))) == (d1, Raised(PostCheckFailed));
  }

  /******* What a cut collection leaves behind *******/

  /** The names a sweep removes, in its order: the collectable ones before the first that stops it. */
  function Removals(d: Disk, names: seq<string>, keep: set<string>): seq<string> {
    if names == [] || StopsCollection(d, names[0], keep) then []
    else (if Collectable(d, names[0], keep) then [names[0]] else []) + Removals(d, names[1..], keep)
  }

  lemma {:induction false} RemovalsAre(d: Disk, names: seq<string>, keep: set<string>)
    ensures forall n :: n in Removals(d, names, keep) ==> n in names && Collectable(d, n, keep)
    ensures NothingStops(d, names, keep) ==> Removals(d, names, keep) == Collectables(d, names, keep)
    decreases |names|
  {
    if names != [] {
      NothingStopsTail(d, names, keep);
      RemovalsAre(d, names[1..], keep);
    }
  }

  lemma {:induction false} RemovingOneLeavesTheOthers(d: Disk, name: string, names: seq<string>, keep: set<string>)
    requires name !in names
    ensures Removals(Collected(d, name), names, keep) == Removals(d, names, keep)
    decreases |names|
  {
    if names != [] {
      assert names[0] != name && name !in names[1..];
      RemovingOneLeavesTheOthers(d, name, names[1..], keep);
    }
  }

  /** A removal after its first write, which tears the tree, or its second, which leaves the manifest. */
  function Broken(d: Disk, name: string, writes: nat, remains: Tree): Disk {
    if name !in d.store || !d.store[name].Dir? || writes == 0 then d
    else if writes == 1 then d.(store := d.store[name := Dir(Torn(d.store[name].tree, remains))])
    else d.(store := d.store - {name})
  }

  /** Where a sweep is cut: it makes three writes for each name, and removals are complete, begun or not begun. */
  predicate SweepCutThere(
      d: Disk, names: seq<string>, keep: set<string>, removed: seq<string>, remains: Tree, writes: nat)
  {
    var all, k := Removals(d, names, keep), writes / 3;
    var cut := CutAfter(d, GcSweep(d, names, keep, removed, remains), writes);
    if k < |all| then cut == Died(Broken(WithoutAll(d, all[..k]), all[k], writes % 3, remains))
    else cut.Ended? && cut.disk == WithoutAll(d, all)
  }

  lemma {:induction false} CutSweep(
      d: Disk, names: seq<string>, keep: set<string>, removed: seq<string>, remains: Tree, writes: nat)
    requires Distinct(names)
    ensures SweepCutThere(d, names, keep, removed, remains, writes)
    decreases |names|
  {
    if names == [] || StopsCollection(d, names[0], keep) {
      NothingRemoved(d);
    } else if Collectable(d, names[0], keep) {
      assert names[0] !in names[1..];
      if writes >= 3 {
        CutSweep(Collected(d, names[0]), names[1..], keep, removed + [names[0]], remains, writes - 3);
      }
      CutSweepCollects(d, names, keep, removed, remains, writes);
    } else {
      CutSweep(d, names[1..], keep, removed, remains, writes);
      assert Removals(d, names, keep) == Removals(d, names[1..], keep);
    }
  }

  lemma CutSweepCollects(
      d: Disk, names: seq<string>, keep: set<string>, removed: seq<string>, remains: Tree, writes: nat)
    requires names != [] && Collectable(d, names[0], keep) && !StopsCollection(d, names[0], keep)
    requires names[0] !in names[1..]
    requires writes >= 3 ==>
               SweepCutThere(Collected(d, names[0]), names[1..], keep, removed + [names[0]], remains, writes - 3)
    ensures SweepCutThere(d, names, keep, removed, remains, writes)
  {
    var later := Removals(d, names[1..], keep);
    assert Removals(d, names, keep) == [names[0]] + later;
    CutOne(d, names, keep, removed, remains, writes);
    if writes >= 3 {
      RemovingOneLeavesTheOthers(d, names[0], names[1..], keep);
      OneRemoved(d, names[0], later, writes / 3);
    } else {
      NothingRemoved(d);
      assert ([names[0]] + later)[..0] == [];
    }
  }

  function WithoutAll(d: Disk, names: seq<string>): Disk { Without(d, set n | n in names) }

  lemma NothingRemoved(d: Disk)
    ensures WithoutAll(d, []) == d
  {
    assert d.store - {} == d.store && d.manifests - {} == d.manifests;
  }

  lemma OneRemoved(d: Disk, name: string, later: seq<string>, k: nat)
    requires k > 0
    ensures var all := [name] + later;
            && WithoutAll(Collected(d, name), later) == WithoutAll(d, all)
            && (k <= |later| ==>
                  all[k] == later[k - 1] && WithoutAll(Collected(d, name), later[..k - 1]) == WithoutAll(d, all[..k]))
  {
    WithoutOneThenMore(d, name, later);
    if k <= |later| {
      WithoutOneThenMore(d, name, later[..k - 1]);
      assert ([name] + later)[..k] == [name] + later[..k - 1];
    }
  }

  lemma CutOne(d: Disk, names: seq<string>, keep: set<string>, removed: seq<string>, remains: Tree, writes: nat)
    requires names != [] && Collectable(d, names[0], keep)
    ensures var cut := CutAfter(d, GcSweep(d, names, keep, removed, remains), writes);
            var d3 := Collected(d, names[0]);
            if writes < 3 then cut == Died(Broken(d, names[0], writes, remains))
            else cut == CutAfter(d3, GcSweep(d3, names[1..], keep, removed + [names[0]], remains), writes - 3)
  {
    var run := GcSweep(d, names, keep, removed, remains);
    if writes >= 1 { assert CutAfter(d, run, writes) == CutAfter(run.next, run.rest, writes - 1); }
    if writes >= 2 { assert CutAfter(d, run, writes) == CutAfter(run.rest.next, run.rest.rest, writes - 2); }
  }

  /** The order of the removals of a collection. */
  function CollectionOrder(d: Disk, listing: seq<string>): seq<string>
    requires ValidateSelector(d).Pass?
  {
    if d.previous.BadPrevious? || OpenStore(d, false).Refuse? then []
    else Removals(d, listing, Keep(d, ValidateSelector(d).value))
  }

  /** The disk that any cut of any collection leaves. */
  lemma CutCollection(d: Disk, listing: seq<string>, remains: Tree, writes: nat)
    requires Listing(d, listing) && ValidateSelector(d).Pass?
    ensures var all, k := CollectionOrder(d, listing), writes / 3;
            var cut := CutAfter(d, GcRun(d, listing, remains), writes);
            if k < |all| then cut == Died(Broken(WithoutAll(d, all[..k]), all[k], writes % 3, remains))
            else cut.Ended? && cut.disk == WithoutAll(d, all)
  {
    NothingRemoved(d);
    CutSweep(d, listing, Keep(d, ValidateSelector(d).value), [], remains, writes);
  }

  /** Half removed: the tree is torn, or gone while its manifest is still there. */
  predicate HalfRemoved(d: Disk, end: Disk, name: string) {
    && name in d.store
    && (if name in end.store then end.store[name] != d.store[name] else name in end.manifests)
  }

  /** Any other entry is as it was, or gone with its manifest. */
  predicate WholeOrGone(d: Disk, end: Disk, name: string)
    requires name in d.store
  {
    || (name !in end.store && name !in end.manifests)
    || (&& name in end.store && end.store[name] == d.store[name]
        && (name in end.manifests <==> name in d.manifests)
        && (name in d.manifests ==> end.manifests[name] == d.manifests[name]))
  }

  /** Wherever a collection is cut, at most one entry of the store is half removed, and that one was collectable. */
  lemma AtMostOneIsHalfRemoved(d: Disk, listing: seq<string>, remains: Tree, writes: nat)
    requires Listing(d, listing) && ValidateSelector(d).Pass?
    ensures var end := CutAfter(d, GcRun(d, listing, remains), writes).disk;
            && (forall n, m :: HalfRemoved(d, end, n) && HalfRemoved(d, end, m) ==> n == m)
            && (forall n :: HalfRemoved(d, end, n) ==> Collectable(d, n, Keep(d, ValidateSelector(d).value)))
            && (forall n :: n in d.store && !HalfRemoved(d, end, n) ==> WholeOrGone(d, end, n))
  {
    var all, k := CollectionOrder(d, listing), writes / 3;
    CutCollection(d, listing, remains, writes);
    RemovalsAre(d, listing, Keep(d, ValidateSelector(d).value));
    if k < |all| {
      assert all[k] in all;
      OthersAreWhole(d, all[..k], all[k], writes % 3, remains);
    } else {
      RemovedOrWhole(d, all);
    }
  }

  lemma RemovedOrWhole(d: Disk, gone: seq<string>)
    ensures var end := WithoutAll(d, gone);
            forall n :: !HalfRemoved(d, end, n) && (n in d.store ==> WholeOrGone(d, end, n))
  {
    var end := WithoutAll(d, gone);
    forall n ensures !HalfRemoved(d, end, n) && (n in d.store ==> WholeOrGone(d, end, n)) {
      if n in gone { assert n !in end.store && n !in end.manifests; }
    }
  }

  lemma OthersAreWhole(d: Disk, gone: seq<string>, name: string, writes: nat, remains: Tree)
    ensures var end := Broken(WithoutAll(d, gone), name, writes, remains);
            forall n :: n != name ==> !HalfRemoved(d, end, n) && (n in d.store ==> WholeOrGone(d, end, n))
  {
    var before := WithoutAll(d, gone);
    var end := Broken(before, name, writes, remains);
    RemovedOrWhole(d, gone);
    forall n | n != name ensures !HalfRemoved(d, end, n) && (n in d.store ==> WholeOrGone(d, end, n)) {
      assert !HalfRemoved(d, before, n) && (n in d.store ==> WholeOrGone(d, before, n));
      assert (n in end.store <==> n in before.store) && (n in end.store ==> end.store[n] == before.store[n]);
    }
  }

  /**
    A collection cut between a tree and its manifest leaves the manifest alone: the id can then be staged by no
    attempt, and reconciliation clears it only for the attempt that published it. It happens to every id that a
    collection removes.
   */
  lemma CutCollectionLeavesAnOrphan(
      d: Disk, listing: seq<string>, remains: Tree, k: nat, attempt: string, build: Build, live: bool, rest: Tree)
    requires Listing(d, listing) && ValidateSelector(d).Pass? && k < |CollectionOrder(d, listing)|
    requires CollectionOrder(d, listing)[k] != LEGACY_ID && FullId(CollectionOrder(d, listing)[k])
    requires AttemptId(attempt) && attempt !in d.staging
    ensures var id, cut := CollectionOrder(d, listing)[k], CutAfter(d, GcRun(d, listing, remains), 3 * k + 2);
            && cut.Died? && id !in cut.disk.store && id in cut.disk.manifests
            && StageRun(cut.disk, id, attempt, build) == Halt(Raised(OrphanManifest))
            && (id !in Complete(cut.disk, ReconcileRun(cut.disk, id, attempt, live, rest)).0.manifests <==>
                  RecoveryManifest(d, id, attempt).Pass?)
  {
    var all := CollectionOrder(d, listing);
    CutCollection(d, listing, remains, 3 * k + 2);
    RemovalsAre(d, listing, Keep(d, ValidateSelector(d).value));
    RemovalsDiffer(d, listing, Keep(d, ValidateSelector(d).value));
    assert all[k] in all;
    WithoutItsTree(d, all, k, remains);
    OrphanIsStuck(Broken(WithoutAll(d, all[..k]), all[k], 2, remains), all[k], attempt, build, live, rest);
  }

  /** Between the tree and its manifest: what the removal has left of the id, and what it does not touch. */
  lemma WithoutItsTree(d: Disk, all: seq<string>, k: nat, remains: Tree)
    requires Distinct(all) && k < |all| && RealRuntime(d, all[k]) && all[k] in d.manifests
    ensures var e := Broken(WithoutAll(d, all[..k]), all[k], 2, remains);
            && all[k] !in e.store && all[k] in e.manifests && e.manifests[all[k]] == d.manifests[all[k]]
            && e.appOk == d.appOk && e.storeDir == d.storeDir && e.staging == d.staging
  {
    assert all[k] !in all[..k];
  }

  /** A manifest without its runtime: no attempt can stage the id, and one attempt can clear it. */
  lemma OrphanIsStuck(d: Disk, id: string, attempt: string, build: Build, live: bool, remains: Tree)
    requires d.appOk && d.storeDir.GoodStore? && id !in d.store && id in d.manifests
    requires id != LEGACY_ID && FullId(id) && AttemptId(attempt) && attempt !in d.staging
    ensures StageRun(d, id, attempt, build) == Halt(Raised(OrphanManifest))
    ensures id !in Complete(d, ReconcileRun(d, id, attempt, live, remains)).0.manifests <==>
              RecoveryManifest(d, id, attempt).Pass?
  {
    assert ReconcileRun(d, id, attempt, live, remains) == ReconcileFinal(d, id, attempt, false, live, remains);
  }

  lemma {:induction false} RemovalsDiffer(d: Disk, names: seq<string>, keep: set<string>)
    requires Distinct(names)
    ensures Distinct(Removals(d, names, keep))
    decreases |names|
  {
    if names != [] {
      RemovalsDiffer(d, names[1..], keep);
      RemovalsAre(d, names[1..], keep);
    }
  }

  /** If no entry stops the collection, every collectable entry is removed, in the order of the listing. */
  lemma EveryCollectableIsRemoved(d: Disk, listing: seq<string>)
    requires Listing(d, listing) && ValidateSelector(d).Pass? && !d.previous.BadPrevious?
    requires NothingStops(d, listing, Keep(d, ValidateSelector(d).value))
    ensures CollectionOrder(d, listing) == Collectables(d, listing, Keep(d, ValidateSelector(d).value))
  {
    RemovalsAre(d, listing, Keep(d, ValidateSelector(d).value));
  }

  /******* Collecting again after a cut *******/

  /** The runtimes that a collection removes. */
  function Gone(d: Disk, keep: set<string>): set<string> { set n | n in d.store && Collectable(d, n, keep) }

  /** Some removals are complete and one may be begun: what is still in the store is collectable if it was. */
  lemma CollectableStill(d: Disk, gone: seq<string>, name: string, writes: nat, remains: Tree, keep: set<string>)
    requires Collectable(d, name, keep)
    ensures var e := Broken(WithoutAll(d, gone), name, writes, remains);
            && e.store.Keys <= d.store.Keys
            && (forall n :: n in e.store ==> (Collectable(e, n, keep) <==> Collectable(d, n, keep)))
            && (forall n :: n in e.store && !Collectable(d, n, keep) ==> e.store[n] == d.store[n])
            && (forall n :: n in e.store ==> (StopsCollection(e, n, keep) <==> StopsCollection(d, n, keep)))
  {
  }

  /** A collection that was cut there, and then collected to the end. */
  lemma CollectedAfterCut(d: Disk, all: seq<string>, k: nat, writes: nat, remains: Tree, keep: set<string>)
    requires Distinct(all) && k < |all| && writes < 3
    requires forall n :: n in all <==> n in Gone(d, keep)
    ensures var e := Broken(WithoutAll(d, all[..k]), all[k], writes, remains);
            Without(e, Gone(e, keep)) == Without(d, Gone(d, keep)) <==> writes != 2
  {
    var e := Broken(WithoutAll(d, all[..k]), all[k], writes, remains);
    assert all[k] in all && Collectable(d, all[k], keep);
    assert all[k] !in all[..k];
    CollectableStill(d, all[..k], all[k], writes, remains, keep);
    var end, whole := Without(e, Gone(e, keep)), Without(d, Gone(d, keep));
    SameStore(d, all, k, writes, remains, keep);
    forall n ensures n in end.manifests <==> n in whole.manifests || (writes == 2 && n == all[k]) {
      ManifestAfterCut(d, all, k, writes, remains, keep, n);
    }
    if writes == 2 {
      assert all[k] in end.manifests && all[k] !in whole.manifests;
    } else {
      assert end.manifests == whole.manifests;
    }
  }

  lemma SameStore(d: Disk, all: seq<string>, k: nat, writes: nat, remains: Tree, keep: set<string>)
    requires Distinct(all) && k < |all| && writes < 3
    requires forall n :: n in all <==> n in Gone(d, keep)
    ensures var e := Broken(WithoutAll(d, all[..k]), all[k], writes, remains);
            Without(e, Gone(e, keep)).store == Without(d, Gone(d, keep)).store
  {
    var e := Broken(WithoutAll(d, all[..k]), all[k], writes, remains);
    assert all[k] in all && Collectable(d, all[k], keep);
    assert all[k] !in all[..k];
    CollectableStill(d, all[..k], all[k], writes, remains, keep);
    var end, whole := Without(e, Gone(e, keep)).store, Without(d, Gone(d, keep)).store;
    forall n ensures (n in end <==> n in whole) && (n in end ==> end[n] == whole[n]) {
      if n in whole {
        assert n !in all && n !in all[..k] && n != all[k];
        assert n in e.store;
      }
    }
  }

  lemma ManifestAfterCut(
      d: Disk, all: seq<string>, k: nat, writes: nat, remains: Tree, keep: set<string>, n: string)
    requires Distinct(all) && k < |all| && writes < 3
    requires forall n :: n in all <==> n in Gone(d, keep)
    ensures var e := Broken(WithoutAll(d, all[..k]), all[k], writes, remains);
            n in Without(e, Gone(e, keep)).manifests <==>
              n in Without(d, Gone(d, keep)).manifests || (writes == 2 && n == all[k])
  {
    var e := Broken(WithoutAll(d, all[..k]), all[k], writes, remains);
    assert all[k] in all && Collectable(d, all[k], keep);
    assert all[k] !in all[..k] && (n in all[..k] ==> n in all);
    CollectableStill(d, all[..k], all[k], writes, remains, keep);
    if n in Gone(d, keep) && n !in all[..k] && n != all[k] {
      assert n in e.store;
    }
  }

  lemma CollectedInFull(d: Disk, all: seq<string>, keep: set<string>)
    requires forall n :: n in all <==> n in Gone(d, keep)
    ensures WithoutAll(d, all) == Without(d, Gone(d, keep))
    ensures Gone(WithoutAll(d, all), keep) == {} && Without(WithoutAll(d, all), {}) == WithoutAll(d, all)
  {
    assert (set n | n in all) == Gone(d, keep);
    var e := WithoutAll(d, all);
    assert e.store - {} == e.store && e.manifests - {} == e.manifests;
  }

  /** What a collection of d leaves, when nothing stops it: this, too, is a disk that can be collected. */
  lemma UndisturbedCollection(d: Disk, listing: seq<string>, remains: Tree, keep: set<string>)
    requires Listing(d, listing) && ValidateSelector(d).Pass? && !d.previous.BadPrevious?
    requires keep == Keep(d, ValidateSelector(d).value) && NothingStops(d, listing, keep)
    ensures Complete(d, GcRun(d, listing, remains)).0 == Without(d, Gone(d, keep))
    ensures forall n :: n in CollectionOrder(d, listing) <==> n in Gone(d, keep)
    ensures Distinct(CollectionOrder(d, listing))
  {
    CompletedCollection(d, listing, remains);
    EveryCollectableIsRemoved(d, listing);
    CollectablesAre(d, listing, keep);
    RemovalsDiffer(d, listing, keep);
    assert forall n :: n in listing <==> n in (set m | m in listing);
  }

  lemma Listed(d: Disk, listing: seq<string>)
    requires Listing(d, listing)
    ensures forall n :: n in listing <==> n in d.store
  {
    assert forall n :: n in listing <==> n in (set m | m in listing);
  }

  /** Where a collection has spared what it must, the selector is as valid as it was. */
  lemma SparedSelector(d: Disk, keep: set<string>, e: Disk)
    requires ValidateSelector(d).Pass? && keep == Keep(d, ValidateSelector(d).value) && Spared(d, keep, e)
    ensures ValidateSelector(e) == ValidateSelector(d) && Keep(e, ValidateSelector(d).value) == keep
  {
    assert !Collectable(d, ValidateSelector(d).value, keep);
  }

  /** And nothing new stops the next collection. */
  lemma NothingNewStops(d: Disk, listing: seq<string>, keep: set<string>, e: Disk, again: seq<string>)
    requires Listing(d, listing) && NothingStops(d, listing, keep)
    requires Spared(d, keep, e) && e.store.Keys <= d.store.Keys && Listing(e, again)
    ensures NothingStops(e, again, keep)
  {
    Listed(d, listing);
    Listed(e, again);
    forall i | 0 <= i < |again| ensures !StopsCollection(e, again[i], keep) {
      assert again[i] in again && again[i] in e.store.Keys && again[i] in d.store && again[i] in listing;
      var k :| 0 <= k < |listing| && listing[k] == again[i];
      StillNotStopped(d, keep, e, listing[k]);
    }
  }

  lemma StillNotStopped(d: Disk, keep: set<string>, e: Disk, name: string)
    requires Spared(d, keep, e) && !StopsCollection(d, name, keep)
    ensures !StopsCollection(e, name, keep)
  {
  }

  /** No cut of a collection adds an entry to the store. */
  lemma CutCollectionAddsNothing(d: Disk, listing: seq<string>, remains: Tree, writes: nat)
    requires Listing(d, listing) && ValidateSelector(d).Pass?
    ensures CutAfter(d, GcRun(d, listing, remains), writes).disk.store.Keys <= d.store.Keys
  {
    var all, k := CollectionOrder(d, listing), writes / 3;
    CutCollection(d, listing, remains, writes);
    if k < |all| { assert Broken(WithoutAll(d, all[..k]), all[k], writes % 3, remains).store.Keys <= d.store.Keys; }
  }

  /**
    Where nothing stops it, a collection that was cut off is made good by the next one, and ends on the disk of the
    undisturbed one, exactly if it was not cut between a tree and its manifest.
   */
  lemma CollectingAgainIsEnough(
      d: Disk, listing: seq<string>, remains: Tree, writes: nat, again: seq<string>, rest: Tree)
    requires Listing(d, listing) && ValidateSelector(d).Pass? && !d.previous.BadPrevious?
    requires NothingStops(d, listing, Keep(d, ValidateSelector(d).value))
    requires Listing(CutAfter(d, GcRun(d, listing, remains), writes).disk, again)
    ensures var e := CutAfter(d, GcRun(d, listing, remains), writes).disk;
            && Complete(e, GcRun(e, again, rest)).1.Returned?
            && (Complete(e, GcRun(e, again, rest)).0 == Complete(d, GcRun(d, listing, remains)).0 <==>
                  !(writes / 3 < |CollectionOrder(d, listing)| && writes % 3 == 2))
  {
    var keep := Keep(d, ValidateSelector(d).value);
    var all, e := CollectionOrder(d, listing), CutAfter(d, GcRun(d, listing, remains), writes).disk;
    CutCollection(d, listing, remains, writes);
    UndisturbedCollection(d, listing, remains, keep);
    CutCollectionSpares(d, listing, remains, writes);
    CutCollectionAddsNothing(d, listing, remains, writes);
    SparedSelector(d, keep, e);
    NothingNewStops(d, listing, keep, e, again);
    UndisturbedCollection(e, again, rest, keep);
    CompletedCollection(e, again, rest);
    if writes / 3 < |all| {
      CollectedAfterCut(d, all, writes / 3, writes % 3, remains, keep);
    } else {
      CollectedInFull(d, all, keep);
    }
  }
}

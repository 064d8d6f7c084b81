/**
  The order in which the sources sort: lexicographic, by byte value in byte strings
  and by code point in text.
 */
module Order {

  predicate Less(a: seq<int>, b: seq<int>)
    decreases |a|
  {
    b != [] && (a == [] || a[0] < b[0] || (a[0] == b[0] && Less(a[1..], b[1..])))
  }

  /** The code points of a text. */
  function Codes(s: string): (r: seq<int>)
    ensures |r| == |s| && forall i :: 0 <= i < |s| ==> r[i] == s[i] as int
  {
    seq(|s|, i requires 0 <= i < |s| => s[i] as int)
  }

  lemma CodesInjective(a: string, b: string)
    requires Codes(a) == Codes(b)
    ensures a == b
  {
    forall i | 0 <= i < |a| ensures a[i] == b[i] {
      assert Codes(a)[i] == a[i] as int && Codes(b)[i] == b[i] as int;
    }
  }

  lemma {:induction false} LessIrreflexive(a: seq<int>)
    ensures !Less(a, a)
    decreases |a|
  {
    if a != [] { LessIrreflexive(a[1..]); }
  }

  lemma {:induction false} LessTransitive(a: seq<int>, b: seq<int>, c: seq<int>)
    requires Less(a, b) && Less(b, c)
    ensures Less(a, c)
    decreases |a|
  {
    if a != [] && a[0] == b[0] == c[0] { LessTransitive(a[1..], b[1..], c[1..]); }
  }

  lemma {:induction false} LessTotal(a: seq<int>, b: seq<int>)
    ensures a == b || Less(a, b) || Less(b, a)
    decreases |a|
  {
    if a != [] && b != [] && a[0] == b[0] {
      LessTotal(a[1..], b[1..]);
      assert a == [a[0]] + a[1..] && b == [b[0]] + b[1..];
    }
  }

  predicate Ascending(xs: seq<seq<int>>) {
    forall i, j :: 0 <= i < j < |xs| ==> Less(xs[i], xs[j])
  }

  /** What a check of neighbours sees. */
  predicate NeighboursAscend(xs: seq<seq<int>>) {
    forall i :: 0 < i < |xs| ==> Less(xs[i - 1], xs[i])
  }

  lemma {:induction false} NeighboursSuffice(xs: seq<seq<int>>)
    ensures NeighboursAscend(xs) <==> Ascending(xs)
  {
    if NeighboursAscend(xs) {
      forall i, j | 0 <= i < j < |xs| ensures Less(xs[i], xs[j]) { ChainLess(xs, i, j); }
    }
  }

  lemma {:induction false} ChainLess(xs: seq<seq<int>>, i: nat, j: nat)
    requires NeighboursAscend(xs) && i < j < |xs|
    ensures Less(xs[i], xs[j])
    decreases j
  {
    if i + 1 < j {
      ChainLess(xs, i, j - 1);
      LessTransitive(xs[i], xs[j - 1], xs[j]);
    }
  }

  /** A finite set has only one ascending listing. */
  lemma {:induction false} AscendingUnique(xs: seq<seq<int>>, ys: seq<seq<int>>)
    requires Ascending(xs) && Ascending(ys)
    requires forall x :: x in xs <==> x in ys
    ensures xs == ys
    decreases |xs|
  {
    assert forall i :: 0 <= i < |xs| ==> xs[i] in ys;
    assert forall i :: 0 <= i < |ys| ==> ys[i] in xs;
    if xs != [] && ys != [] {
      FirstIsLeast(xs, ys[0]);
      FirstIsLeast(ys, xs[0]);
      if xs[0] != ys[0] {
        LessTransitive(xs[0], ys[0], xs[0]);
        LessIrreflexive(xs[0]);
      }
      forall x ensures x in xs[1..] <==> x in ys[1..] {
        InTail(xs, x);
        InTail(ys, x);
      }
      AscendingUnique(xs[1..], ys[1..]);
      assert xs == [xs[0]] + xs[1..] && ys == [ys[0]] + ys[1..];
    }
  }

  lemma FirstIsLeast(xs: seq<seq<int>>, x: seq<int>)
    requires Ascending(xs) && x in xs
    ensures xs[0] == x || Less(xs[0], x)
  {
    var i :| 0 <= i < |xs| && xs[i] == x;
  }

  lemma InTail(xs: seq<seq<int>>, x: seq<int>)
    requires Ascending(xs) && xs != []
    ensures x in xs[1..] <==> x in xs && x != xs[0]
  {
    if x in xs[1..] {
      var i :| 0 <= i < |xs[1..]| && xs[1..][i] == x;
      assert Less(xs[0], xs[i + 1]);
      LessIrreflexive(x);
    }
    assert xs == [xs[0]] + xs[1..];
  }

  /******* Sorting by a key *******/

  function InsertBy<T>(x: T, xs: seq<T>, key: T -> seq<int>): (r: seq<T>)
    ensures multiset(r) == multiset(xs) + multiset{x}
    decreases |xs|
  {
    if xs == [] || !Less(key(xs[0]), key(x)) then [x] + xs
    else
      assert xs == [xs[0]] + xs[1..];
      [xs[0]] + InsertBy(x, xs[1..], key)
  }

  /** The sequence, sorted. */
  function SortBy<T>(xs: seq<T>, key: T -> seq<int>): (r: seq<T>)
    ensures multiset(r) == multiset(xs)
    decreases |xs|
  {
    if xs == [] then []
    else
      assert xs == [xs[0]] + xs[1..];
      InsertBy(xs[0], SortBy(xs[1..], key), key)
  }

  function Keys<T>(xs: seq<T>, key: T -> seq<int>): (r: seq<seq<int>>)
    ensures |r| == |xs| && forall i :: 0 <= i < |xs| ==> r[i] == key(xs[i])
  {
    seq(|xs|, i requires 0 <= i < |xs| => key(xs[i]))
  }

  predicate DistinctKeys<T>(xs: seq<T>, key: T -> seq<int>) {
    forall i, j :: 0 <= i < j < |xs| ==> key(xs[i]) != key(xs[j])
  }

  lemma SameElements<T>(xs: seq<T>, ys: seq<T>)
    requires multiset(xs) == multiset(ys)
    ensures |xs| == |ys|
    ensures forall x :: x in xs <==> x in ys
  {
    assert |multiset(xs)| == |xs| && |multiset(ys)| == |ys|;
    forall x ensures x in xs <==> x in ys {
      assert x in xs <==> x in multiset(xs);
      assert x in ys <==> x in multiset(ys);
    }
  }

  lemma {:induction false} InsertAscends<T>(x: T, xs: seq<T>, key: T -> seq<int>)
    requires Ascending(Keys(xs, key))
    requires forall i :: 0 <= i < |xs| ==> key(xs[i]) != key(x)
    ensures Ascending(Keys(InsertBy(x, xs, key), key))
    decreases |xs|
  {
    if xs == [] {
    } else if !Less(key(xs[0]), key(x)) {
      LessTotal(key(x), key(xs[0]));
      forall i | 0 <= i < |xs| ensures Less(key(x), key(xs[i])) {
        if i != 0 {
          assert Less(Keys(xs, key)[0], Keys(xs, key)[i]);
          LessTransitive(key(x), key(xs[0]), key(xs[i]));
        }
      }
      ConsAscends(x, xs, key);
    } else {
      var rest := InsertBy(x, xs[1..], key);
      assert Keys(xs[1..], key) == Keys(xs, key)[1..];
      InsertAscends(x, xs[1..], key);
      forall i | 0 <= i < |rest| ensures Less(key(xs[0]), key(rest[i])) {
        assert rest[i] in multiset(rest);
        if rest[i] != x {
          assert rest[i] in xs[1..];
          var k :| 0 <= k < |xs[1..]| && xs[1..][k] == rest[i];
          assert Less(Keys(xs, key)[0], Keys(xs, key)[k + 1]);
        }
      }
      ConsAscends(xs[0], rest, key);
    }
  }

  lemma ConsAscends<T>(x: T, xs: seq<T>, key: T -> seq<int>)
    requires Ascending(Keys(xs, key)) && forall i :: 0 <= i < |xs| ==> Less(key(x), key(xs[i]))
    ensures Ascending(Keys([x] + xs, key))
  {
    var ys := Keys([x] + xs, key);
    forall i, j | 0 <= i < j < |ys| ensures Less(ys[i], ys[j]) {
      assert ys[j] == key(xs[j - 1]);
      if i != 0 { assert ys[i] == Keys(xs, key)[i - 1] && ys[j] == Keys(xs, key)[j - 1]; }
    }
  }

  /** Sorting distinct keys gives the one ascending listing of the elements. */
  lemma {:induction false} SortAscends<T>(xs: seq<T>, key: T -> seq<int>)
    requires DistinctKeys(xs, key)
    ensures Ascending(Keys(SortBy(xs, key), key))
    decreases |xs|
  {
    if xs != [] {
      var rest := SortBy(xs[1..], key);
      SortAscends(xs[1..], key);
      forall i | 0 <= i < |rest| ensures key(rest[i]) != key(xs[0]) {
        assert rest[i] in multiset(rest);
        assert rest[i] in xs[1..];
        var k :| 0 <= k < |xs[1..]| && xs[1..][k] == rest[i];
        assert xs[k + 1] == rest[i];
      }
      InsertAscends(xs[0], rest, key);
    }
  }
}

/** Splitting a sequence at every occurrence of a separator, as Python's `split(sep)` does. */
module Splitting {

  function Split<T(==)>(s: seq<T>, sep: T): (parts: seq<seq<T>>)
    ensures parts != []
    decreases |s|
  {
    if s == [] then [[]]
    else
      var rest := Split(s[1..], sep);
      if s[0] == sep then [[]] + rest else [[s[0]] + rest[0]] + rest[1..]
  }

  function Join<T>(parts: seq<seq<T>>, sep: T): seq<T>
    requires parts != []
    decreases |parts|
  {
    if |parts| == 1 then parts[0] else parts[0] + [sep] + Join(parts[1..], sep)
  }

  predicate Free<T(==)>(parts: seq<seq<T>>, sep: T) {
    forall i :: 0 <= i < |parts| ==> sep !in parts[i]
  }

  lemma {:induction false} SplitIsFree<T>(s: seq<T>, sep: T)
    ensures Free(Split(s, sep), sep)
    decreases |s|
  {
    if s != [] { SplitIsFree(s[1..], sep); }
  }

  lemma {:induction false} JoinOfSplit<T>(s: seq<T>, sep: T)
    ensures Join(Split(s, sep), sep) == s
    decreases |s|
  {
    if s != [] {
      var rest := Split(s[1..], sep);
      JoinOfSplit(s[1..], sep);
      if s[0] == sep {
        assert Split(s, sep)[1..] == rest;
        assert Join(Split(s, sep), sep) == [] + [sep] + s[1..];
      } else {
        JoinHead(s[0], rest, sep);
      }
    }
  }

  lemma JoinHead<T>(x: T, parts: seq<seq<T>>, sep: T)
    requires parts != []
    ensures Join([[x] + parts[0]] + parts[1..], sep) == [x] + Join(parts, sep)
  {
    var ps := [[x] + parts[0]] + parts[1..];
    if |parts| > 1 {
      assert ps[1..] == parts[1..];
      assert Join(ps, sep) == [x] + parts[0] + [sep] + Join(parts[1..], sep);
    }
  }

  lemma {:induction false} SplitOfJoin<T>(parts: seq<seq<T>>, sep: T)
    requires parts != [] && Free(parts, sep)
    ensures Split(Join(parts, sep), sep) == parts
    decreases |parts|, if parts == [] then 0 else |parts[0]|
  {
    if parts[0] != [] {
      var x, less := parts[0][0], [parts[0][1..]] + parts[1..];
      assert less[0] == parts[0][1..];
      SplitOfJoin(less, sep);
      assert parts[0] == [x] + less[0] && less[1..] == parts[1..];
      assert parts == [parts[0]] + parts[1..];
      JoinHead(x, less, sep);
      var s := Join(parts, sep);
      assert x in parts[0] && s[0] == x && s[1..] == Join(less, sep);
    } else if |parts| > 1 {
      SplitOfJoin(parts[1..], sep);
      var s := Join(parts, sep);
      assert s == [sep] + Join(parts[1..], sep);
      assert s[1..] == Join(parts[1..], sep);
    }
  }
}

/**
  The quiet window of the Contribution Advisor: the longest run of marked hours on a
  circle (backend/advisor/engine.py). The circle has n hours; the advisor uses 24.
 */
module QuietWindow {
  import opened Wrappers

  /** All hours of the circular run of `length` hours from `start` are marked. */
  predicate Run(hours: set<int>, n: nat, start: nat, length: nat)
    requires n > 0
  {
    forall k :: start <= k < start + length ==> k % n in hours
  }

  lemma RunShifted(hours: set<int>, n: nat, start: nat, length: nat)
    requires n > 0 && n <= start
    ensures Run(hours, n, start, length) <==> Run(hours, n, start - n, length)
  {
    if Run(hours, n, start, length) {
      forall k | start - n <= k < start - n + length ensures k % n in hours { Wraps(k, n); }
    }
    if Run(hours, n, start - n, length) {
      forall k | start <= k < start + length ensures k % n in hours { Wraps(k - n, n); }
    }
  }

  lemma Wraps(k: nat, n: nat)
    requires n > 0
    ensures (k + n) % n == k % n
  {
    var q, r := k / n, k % n;
    assert k + n == n * (q + 1) + r;
    QuotientUnique(k + n, n, q + 1, r);
  }

  lemma QuotientUnique(x: int, n: nat, q: int, r: int)
    requires 0 <= r < n && x == n * q + r
    ensures x % n == r
  {
    var d := x / n - q;
    assert n * (x / n) == n * q + n * d;
    if d >= 1 { Times(n, d - 1); }
    if d <= -1 { Times(n, -d - 1); }
  }

  lemma Times(n: nat, d: nat)
    ensures n * (d + 1) >= n
  {
  }

  /** A window around the whole circle meets every hour. */
  lemma FullRunIsEverything(hours: set<int>, n: nat, start: nat, length: nat, gap: nat)
    requires n > 0 && n <= length && gap < n && gap !in hours
    ensures !Run(hours, n, start, length)
  {
    var r := start % n;
    var k := if r <= gap then start - r + gap else start - r + n + gap;
    QuotientUnique(k, n, if r <= gap then start / n else start / n + 1, gap);
    assert start <= k < start + length && k % n == gap;
  }

  /**
    `_longest_circular_run`: the longest run, the earliest one if several are longest.
    The circle is walked twice, so that a run over midnight is seen in one piece.
   */
  method LongestCircularRun(hours: set<int>, n: nat) returns (best: Option<(nat, nat)>)
    requires n > 0
    ensures best.None? <==> forall h :: 0 <= h < n ==> h !in hours
    ensures best.Some? ==> best.value.0 < n && 1 <= best.value.1 <= n && Run(hours, n, best.value.0, best.value.1)
    ensures best.Some? ==> forall s: nat, l: nat :: s < n && l <= n && Run(hours, n, s, l) ==> l <= best.value.1
    ensures best.Some? ==> forall s: nat :: s < best.value.0 ==> !Run(hours, n, s, best.value.1)
  {
    if hours == {} { return None; }
    if forall h :: 0 <= h < n ==> h in hours {
      assert 0 in hours;
      assert forall k :: 0 <= k < n ==> k % n == k;
      return Some((0, n));
    }
    ghost var gap: nat :| gap < n && gap !in hours;
    best := ScanTwice(hours, n, gap);
  }

  /** The two turns around a circle that is not full. */
  method ScanTwice(hours: set<int>, n: nat, ghost gap: nat) returns (best: Option<(nat, nat)>)
    requires gap < n && gap !in hours
    ensures best.None? <==> forall h :: 0 <= h < n ==> h !in hours
    ensures best.Some? ==> best.value.0 < n && 1 <= best.value.1 <= n && Run(hours, n, best.value.0, best.value.1)
    ensures best.Some? ==> forall s: nat, l: nat :: s < n && l <= n && Run(hours, n, s, l) ==> l <= best.value.1
    ensures best.Some? ==> forall s: nat :: s < best.value.0 ==> !Run(hours, n, s, best.value.1)
  {
    var bestStart: Option<nat>, bestLen: nat := None, 0;
    var curStart, curLen: nat := 0, 0;
    ghost var first: nat := 0;
    for i := 0 to 2 * n
      invariant Stretch(hours, n, i, curLen)
      invariant curLen > 0 ==> curStart == (i - curLen) % n
      invariant curLen <= bestLen < n
      invariant bestStart == if bestLen == 0 then None else Some(first % n)
      invariant bestLen > 0 ==> First(hours, n, first, bestLen) && first + bestLen <= i
      invariant NoneLonger(hours, n, i, bestLen)
    {
      var h := i % n;
      if h in hours {
        if curLen == 0 { curStart := h; }
        curLen := curLen + 1;
        StretchGrows(hours, n, i, curLen - 1, bestLen);
        StretchIsShort(hours, n, i + 1, curLen, gap);
        if bestLen < curLen <= n {
          bestLen, bestStart := curLen, Some(curStart);
          first := i + 1 - curLen;
        }
      } else {
        StretchEnds(hours, n, i, bestLen);
        curLen := 0;
      }
    }
    Found(hours, n, first, bestLen);
    return if bestLen == 0 then None else Some((bestStart.value, bestLen));
  }

  /** The marked hours just before i: `cur` of them, and not one more. */
  ghost predicate Stretch(hours: set<int>, n: nat, i: nat, cur: nat)
    requires n > 0
  {
    cur <= i && Run(hours, n, i - cur, cur) && (cur < i ==> (i - cur - 1) % n !in hours)
  }

  /** No run that was seen completely before i is longer. */
  ghost predicate NoneLonger(hours: set<int>, n: nat, i: nat, best: nat)
    requires n > 0
  {
    forall s: nat, l: nat :: s + l <= i && Run(hours, n, s, l) ==> l <= best
  }

  /** The earliest run of its length. */
  ghost predicate First(hours: set<int>, n: nat, first: nat, length: nat)
    requires n > 0
  {
    Run(hours, n, first, length) && forall s: nat :: s < first ==> !Run(hours, n, s, length)
  }

  lemma StretchGrows(hours: set<int>, n: nat, i: nat, cur: nat, best: nat)
    requires n > 0 && Stretch(hours, n, i, cur) && NoneLonger(hours, n, i, best) && i % n in hours && cur <= best
    ensures Stretch(hours, n, i + 1, cur + 1)
    ensures NoneLonger(hours, n, i + 1, if best < cur + 1 then cur + 1 else best)
    ensures best < cur + 1 ==> First(hours, n, i - cur, cur + 1)
  {
    forall s: nat, l: nat | s + l == i + 1 && Run(hours, n, s, l) ensures l <= cur + 1 {
      assert l > cur + 1 ==> s <= i - cur - 1 < i;
    }
  }

  lemma StretchEnds(hours: set<int>, n: nat, i: nat, best: nat)
    requires n > 0 && NoneLonger(hours, n, i, best) && i % n !in hours
    ensures Stretch(hours, n, i + 1, 0) && NoneLonger(hours, n, i + 1, best)
  {
    forall s: nat, l: nat | s + l == i + 1 && Run(hours, n, s, l) ensures l <= best {
      assert l > 0 ==> s <= i < s + l;
    }
  }

  lemma StretchIsShort(hours: set<int>, n: nat, i: nat, cur: nat, gap: nat)
    requires n > 0 && Stretch(hours, n, i, cur) && gap < n && gap !in hours
    ensures cur < n
  {
    if n <= cur { FullRunIsEverything(hours, n, i - cur, cur, gap); }
  }

  /** What two turns have seen is what there is on the circle. */
  lemma Found(hours: set<int>, n: nat, first: nat, best: nat)
    requires n > 0 && best < n && NoneLonger(hours, n, 2 * n, best)
    requires best > 0 ==> First(hours, n, first, best)
    ensures best == 0 <==> forall h :: 0 <= h < n ==> h !in hours
    ensures best > 0 ==> first < n && first % n == first
    ensures forall s: nat, l: nat :: s < n && l <= n && Run(hours, n, s, l) ==> l <= best
  {
    if best > 0 {
      if n <= first { RunShifted(hours, n, first, best); }
      assert first % n in hours;
    } else {
      forall h | 0 <= h < n ensures h !in hours {
        assert h % n == h;
        if h in hours { assert Run(hours, n, h, 1); }
      }
    }
  }
}

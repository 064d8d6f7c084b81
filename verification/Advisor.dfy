/**
  The client-limit advice of the Contribution Advisor: the growth target and its
  cooldown (backend/advisor/engine.py), and the window of system samples behind it
  (backend/api/advisor.py). Times are in any fixed unit and may run backwards.
 */
module Advisor {
  import opened Wrappers

  /******* Growth target *******/

  datatype Policy = Policy(
    growthPct: real, stepMin: int, stepMax: int, ceiling: int, cooldown: int, growthEnabled: bool,
    cpuWarn: real, ramWarn: real, tempWarn: real,
    cpuGrow: real, ramGrow: real, tempGrowGate: real, cpuStrong: real, ramStrong: real,
    demand: real)

  function Min(a: int, b: int): int { if a <= b then a else b }
  function Max(a: int, b: int): int { if a >= b then a else b }

  /** The nearest multiple of 25; halfway goes up. */
  function Round25(value: real): (r: int)
    ensures r % 25 == 0 && -12.5 < r as real - value <= 12.5
  {
    ((value + 12.5) / 25.0).Floor * 25
  }

  /** The share of the limit that a step is about. */
  function Share(current: int, p: Policy): real { current as real * p.growthPct }

  function GrowthTarget(current: int, p: Policy): int {
    var step := Max(p.stepMin, Min(Round25(Share(current, p)), p.stepMax));
    Min(current + step, p.ceiling)
  }

  /******* Growth advice *******/

  datatype State = State(lastGrowth: Option<int>, lastLimit: Option<int>)

  datatype Node = Node(limit: Option<int>, clients: Option<int>)

  datatype System = System(cpu: Option<real>, ram: Option<real>, temp: Option<real>)

  datatype Input = Input(system: Option<System>, node: Option<Node>, live: bool)

  datatype Advice = Quiet | BackOff | Grow(limit: int, strong: bool)

  /** The limit the node reports, if there is one. */
  function Limit(inp: Input): Option<int> { if inp.node.Some? then inp.node.value.limit else None }

  /** `_track_max`: a limit other than the last one forgets the cooldown. */
  function TrackMax(state: State, current: Option<int>): State {
    if current.None? || current == state.lastLimit then state else State(None, current)
  }

  predicate Under(metric: Option<real>, bound: real) { metric.Some? && metric.value < bound }

  predicate Pressure(s: System, p: Policy) {
    || (s.cpu.Some? && s.cpu.value > p.cpuWarn)
    || (s.ram.Some? && s.ram.value > p.ramWarn)
    || (s.temp.Some? && s.temp.value >= p.tempWarn)
  }

  /** Demand near the limit and spare capacity. */
  predicate Headroom(inp: Input, p: Policy) {
    && inp.system.Some? && inp.live
    && Limit(inp).Some? && Limit(inp).value > 0 && inp.node.value.clients.Some?
    && inp.node.value.clients.value as real >= p.demand * Limit(inp).value as real
    && Under(inp.system.value.cpu, p.cpuGrow) && Under(inp.system.value.ram, p.ramGrow)
    && (inp.system.value.temp.Some? ==> inp.system.value.temp.value < p.tempGrowGate)
  }

  predicate CoolingDown(state: State, now: int, p: Policy) {
    state.lastGrowth.Some? && now - state.lastGrowth.value < p.cooldown
  }

  /** `_capacity`. */
  function Capacity(inp: Input, now: int, state: State, p: Policy): (Advice, State) {
    if inp.system.None? then (Quiet, state)
    else
      var tracked := TrackMax(state, Limit(inp));
      var s := inp.system.value;
      if Pressure(s, p) then (BackOff, tracked)
      else if !p.growthEnabled || !Headroom(inp, p) || CoolingDown(tracked, now, p) then (Quiet, tracked)
      else
        var target := GrowthTarget(Limit(inp).value, p);
        if target <= Limit(inp).value then (Quiet, tracked)
        else (Grow(target, Under(s.cpu, p.cpuStrong) && Under(s.ram, p.ramStrong)), tracked.(lastGrowth := Some(now)))
  }

  predicate Above(metric: Option<real>, bound: real) { metric.Some? && bound < metric.value }

  predicate AtLeast(metric: Option<real>, bound: real) { metric.Some? && bound <= metric.value }

  /** Reducing the limit is advised exactly under pressure. */
  lemma BackOffExact(inp: Input, now: int, state: State, p: Policy)
    ensures Capacity(inp, now, state, p).0.BackOff? <==>
              && inp.system.Some?
              && var s := inp.system.value;
                 Above(s.cpu, p.cpuWarn) || Above(s.ram, p.ramWarn) || AtLeast(s.temp, p.tempWarn)
  {
  }

  /** The clients are near the limit of a live node. */
  predicate NearItsLimit(inp: Input, p: Policy) {
    && inp.live && inp.node.Some? && inp.node.value.limit.Some? && inp.node.value.clients.Some?
    && 0 < inp.node.value.limit.value
    && p.demand * inp.node.value.limit.value as real <= inp.node.value.clients.value as real
  }

  /** Processor and memory are known and below these bounds. */
  predicate Below(s: System, cpu: real, ram: real) {
    s.cpu.Some? && s.cpu.value < cpu && s.ram.Some? && s.ram.value < ram
  }

  /** The last suggestion was for this limit, and its cooldown is not over. */
  predicate StillCooling(inp: Input, now: int, state: State, p: Policy) {
    inp.node.Some? && state.lastLimit == inp.node.value.limit && state.lastGrowth.Some?
    && now < state.lastGrowth.value + p.cooldown
  }

  /**
    Raising the limit is advised exactly where growth is enabled, there is no pressure, a live node is near its limit,
    processor, memory and, if it is known, temperature are low, no cooldown is running and the target is above the
    limit; strongly exactly if processor and memory are below the lower bounds, too.
   */
  lemma GrowExact(inp: Input, now: int, state: State, p: Policy, limit: int, strong: bool)
    ensures Capacity(inp, now, state, p).0 == Grow(limit, strong) <==>
              && inp.system.Some? && !Capacity(inp, now, state, p).0.BackOff?
              && p.growthEnabled && NearItsLimit(inp, p)
              && Below(inp.system.value, p.cpuGrow, p.ramGrow) && !AtLeast(inp.system.value.temp, p.tempGrowGate)
              && !StillCooling(inp, now, state, p)
              && limit == GrowthTarget(inp.node.value.limit.value, p) && inp.node.value.limit.value < limit
              && (strong <==> Below(inp.system.value, p.cpuStrong, p.ramStrong))
  {
    if inp.system.Some? {
      HeadroomExact(inp, p);
      if Limit(inp).Some? { CooldownExact(inp, now, state, p); }
    }
  }

  lemma HeadroomExact(inp: Input, p: Policy)
    requires inp.system.Some?
    ensures Headroom(inp, p) <==>
              NearItsLimit(inp, p) && Below(inp.system.value, p.cpuGrow, p.ramGrow)
              && !AtLeast(inp.system.value.temp, p.tempGrowGate)
  {
  }

  lemma CooldownExact(inp: Input, now: int, state: State, p: Policy)
    requires Limit(inp).Some?
    ensures CoolingDown(TrackMax(state, Limit(inp)), now, p) <==> StillCooling(inp, now, state, p)
  {
  }

  /** The target is a step above the limit: the multiple of 25 nearest to its share, within the bounds. */
  lemma TargetExact(current: int, p: Policy, nearest: int)
    requires nearest % 25 == 0 && -12.5 < nearest as real - Share(current, p) <= 12.5
    ensures var step := if nearest < p.stepMin || p.stepMax < p.stepMin then p.stepMin
                        else if p.stepMax < nearest then p.stepMax else nearest;
            GrowthTarget(current, p) == if current + step <= p.ceiling then current + step else p.ceiling
  {
    NearestIsUnique(nearest, Round25(Share(current, p)), Share(current, p));
  }

  lemma NearestIsUnique(a: int, b: int, value: real)
    requires a % 25 == 0 && -12.5 < a as real - value <= 12.5
    requires b % 25 == 0 && -12.5 < b as real - value <= 12.5
    ensures a == b
  {
    assert (a - b) as real == a as real - b as real;
    assert -25 < a - b < 25;
    assert a == 25 * (a / 25) && b == 25 * (b / 25);
  }

  /** A suggested limit raises the current one, by a bounded step and up to the ceiling. */
  lemma SuggestedLimitIsBounded(inp: Input, now: int, state: State, p: Policy)
    requires Capacity(inp, now, state, p).0.Grow?
    ensures var target, cur := Capacity(inp, now, state, p).0.limit, Limit(inp).value;
            && cur < target <= p.ceiling
            && target - cur <= Max(p.stepMin, p.stepMax)
            && (target < p.ceiling ==> p.stepMin <= target - cur)
  {
  }

  /** A metric that is no higher than another, or missing. */
  predicate NoHigher(metric: Option<real>, than: Option<real>) {
    metric.Some? ==> than.Some? && metric.value <= than.value
  }

  /** The same station with at most the load and at least the demand; only the temperature may be missing instead. */
  predicate Easier(inp: Input, than: Input) {
    && inp.system.Some? && than.system.Some? && inp.live == than.live
    && NoHigher(inp.system.value.cpu, than.system.value.cpu)
    && (than.system.value.cpu.Some? ==> inp.system.value.cpu.Some?)
    && NoHigher(inp.system.value.ram, than.system.value.ram)
    && (than.system.value.ram.Some? ==> inp.system.value.ram.Some?)
    && NoHigher(inp.system.value.temp, than.system.value.temp)
    && inp.node.Some? && than.node.Some? && inp.node.value.limit == than.node.value.limit
    && (than.node.value.clients.Some? ==>
          inp.node.value.clients.Some? && inp.node.value.clients.value >= than.node.value.clients.value)
  }

  lemma EasierGates(inp: Input, than: Input, p: Policy)
    requires Easier(inp, than)
    ensures Limit(inp) == Limit(than)
    ensures Headroom(than, p) ==> Headroom(inp, p)
    ensures Pressure(inp.system.value, p) ==> Pressure(than.system.value, p)
  {
  }

  /** Less load and more demand never cost a suggestion, and more load never ends a warning. */
  lemma AdviceIsMonotone(inp: Input, than: Input, now: int, state: State, p: Policy)
    requires Easier(inp, than)
    ensures Capacity(than, now, state, p).0.Grow? ==>
              Capacity(inp, now, state, p).0.Grow? &&
              Capacity(inp, now, state, p).0.limit == Capacity(than, now, state, p).0.limit
    ensures Capacity(inp, now, state, p).0.BackOff? ==> Capacity(than, now, state, p).0.BackOff?
    ensures Capacity(than, now, state, p).0.Grow? && Capacity(than, now, state, p).0.strong ==>
              Capacity(inp, now, state, p).0.strong
  {
    EasierGates(inp, than, p);
  }

  /******* The cooldown, over a run of evaluations *******/

  datatype Evaluation = Evaluation(inp: Input, now: int, p: Policy)

  function StateAfter(state: State, run: seq<Evaluation>): State
    decreases |run|
  {
    if run == [] then state
    else
      var last := run[|run| - 1];
      Capacity(last.inp, last.now, StateAfter(state, run[..|run| - 1]), last.p).1
  }

  /** The advice of the i-th evaluation of a run. */
  function AdviceAt(state: State, run: seq<Evaluation>, i: nat): Advice
    requires i < |run|
  {
    Capacity(run[i].inp, run[i].now, StateAfter(state, run[..i]), run[i].p).0
  }

  /** An evaluation that sees this limit, or none at all. */
  predicate SameLimit(e: Evaluation, limit: int) {
    e.inp.system.None? || Limit(e.inp).None? || Limit(e.inp) == Some(limit)
  }

  lemma SuggestionIsRecorded(state: State, run: seq<Evaluation>, i: nat)
    requires i < |run| && AdviceAt(state, run, i).Grow?
    ensures StateAfter(state, run[..i + 1]) == State(Some(run[i].now), Limit(run[i].inp))
    ensures Limit(run[i].inp).Some?
  {
    assert run[..i + 1][..i] == run[..i];
  }

  /** While the limit stays, the record of a suggestion is kept until the next suggestion. */
  lemma {:induction false} SuggestionIsRemembered(state: State, run: seq<Evaluation>, i: nat, j: nat)
    requires i < j <= |run| && AdviceAt(state, run, i).Grow?
    requires forall k :: i < k < j ==> SameLimit(run[k], Limit(run[i].inp).value) && !AdviceAt(state, run, k).Grow?
    ensures StateAfter(state, run[..j]) == State(Some(run[i].now), Limit(run[i].inp))
    decreases j
  {
    SuggestionIsRecorded(state, run, i);
    if i + 1 < j {
      SuggestionIsRemembered(state, run, i, j - 1);
      assert run[..j][..j - 1] == run[..j - 1];
      assert SameLimit(run[j - 1], Limit(run[i].inp).value) && !AdviceAt(state, run, j - 1).Grow?;
    }
  }

  /** Between one suggestion and the next, with an unchanged limit, lies a cooldown, whatever the clock does. */
  lemma NextSuggestionWaits(state: State, run: seq<Evaluation>, i: nat, j: nat)
    requires i < j < |run| && AdviceAt(state, run, i).Grow? && AdviceAt(state, run, j).Grow?
    requires forall k :: i < k < j ==> !AdviceAt(state, run, k).Grow?
    requires forall k :: i < k <= j ==> SameLimit(run[k], Limit(run[i].inp).value)
    ensures run[j].now - run[i].now >= run[j].p.cooldown
  {
    SuggestionIsRecorded(state, run, i);
    SuggestionIsRemembered(state, run, i, j);
    assert SameLimit(run[j], Limit(run[i].inp).value);
  }

  /** Any two suggestions with an unchanged limit are at least a cooldown apart. */
  lemma {:induction false} SuggestionsAreApart(state: State, run: seq<Evaluation>, i: nat, j: nat, cooldown: nat)
    requires i < j < |run| && AdviceAt(state, run, i).Grow? && AdviceAt(state, run, j).Grow?
    requires forall k :: 0 <= k < |run| ==> run[k].p.cooldown == cooldown
    requires forall k :: i < k <= j ==> SameLimit(run[k], Limit(run[i].inp).value)
    ensures run[j].now - run[i].now >= cooldown
    decreases j - i
  {
    if k :| i < k < j && AdviceAt(state, run, k).Grow? {
      SuggestionIsRecorded(state, run, i);
      SuggestionIsRecorded(state, run, k);
      assert SameLimit(run[k], Limit(run[i].inp).value);
      SuggestionsAreApart(state, run, i, k, cooldown);
      SuggestionsAreApart(state, run, k, j, cooldown);
    } else {
      NextSuggestionWaits(state, run, i, j);
    }
  }

  /******* The window of samples *******/

  datatype Sample = Sample(at: int, system: System)

  predicate Spaced(s: seq<Sample>, throttle: int) {
    forall i :: 0 < i < |s| ==> s[i].at - s[i - 1].at >= throttle
  }

  /** Consecutive samples are at least a throttle apart, and all lie within one window. */
  predicate Paced(s: seq<Sample>, throttle: int, window: int) {
    && Spaced(s, throttle)
    && (s != [] ==> s[|s| - 1].at - s[0].at <= window)
  }

  /** The samples without the old ones at the front. */
  function Pruned(s: seq<Sample>, now: int, window: int): seq<Sample> {
    if s != [] && now - s[0].at > window then Pruned(s[1..], now, window) else s
  }

  predicate TooSoon(s: seq<Sample>, now: int, throttle: int) {
    s != [] && now - s[|s| - 1].at < throttle
  }

  /** `deque`, as the two functions that change it see it. */
  class SampleBuffer {
    var samples: seq<Sample>

    constructor ()
      ensures samples == []
    {
      samples := [];
    }

    method Prune(now: int, window: int)
      modifies this
      ensures samples == Pruned(old(samples), now, window)
    {
      while samples != [] && now - samples[0].at > window
        invariant Pruned(samples, now, window) == Pruned(old(samples), now, window)
        decreases |samples|
      {
        samples := samples[1..];
      }
    }

    /** Keeps the pace for any clock readings; a sample is dropped only by being too soon or too old. */
    method Append(now: int, sample: Option<System>, throttle: nat, window: nat)
      requires Paced(samples, throttle, window)
      modifies this
      ensures Paced(samples, throttle, window)
      ensures sample.None? || TooSoon(old(samples), now, throttle) ==>
                forall x :: x in samples <==> x in old(samples) && now - x.at <= window
      ensures sample.Some? && !TooSoon(old(samples), now, throttle) ==>
                && samples != [] && samples[|samples| - 1] == Sample(now, sample.value)
                && (forall x :: x in samples <==>
                      x in old(samples) + [Sample(now, sample.value)] && now - x.at <= window)
    {
      if sample.None? || TooSoon(samples, now, throttle) {
        PruneKeepsPace(samples, now, throttle, window);
        Prune(now, window);
        return;
      }
      samples := samples + [Sample(now, sample.value)];
      PruneKeepsPace(samples, now, throttle, window);
      Prune(now, window);
    }
  }

  /**
    Pruning a paced buffer whose last sample is now, or whose samples fit a window, keeps exactly those within the
    window.
   */
  lemma {:induction false} PruneKeepsPace(s: seq<Sample>, now: int, throttle: nat, window: nat)
    requires Spaced(s, throttle)
    requires s != [] ==> s[|s| - 1].at - s[0].at <= window || s[|s| - 1].at == now
    ensures Paced(Pruned(s, now, window), throttle, window)
    ensures forall x :: x in Pruned(s, now, window) <==> x in s && now - x.at <= window
    ensures s != [] && s[|s| - 1].at == now ==>
              Pruned(s, now, window) != [] && Pruned(s, now, window)[|Pruned(s, now, window)| - 1] == s[|s| - 1]
  {
    var k := PrunedIsASuffix(s, now, window);
    forall i, j | 0 <= i <= j < |s| ensures s[i].at <= s[j].at { Apart(s[i..], throttle, j - i); }
    assert k < |s| ==> s[k..][|s| - k - 1] == s[|s| - 1];
    forall x | x in s && now - x.at <= window ensures x in s[k..] {
      var i :| 0 <= i < |s| && s[i] == x;
      assert s[k..][i - k] == x;
    }
  }

  /** Exactly the old samples at the front go. */
  lemma {:induction false} PrunedIsASuffix(s: seq<Sample>, now: int, window: int) returns (k: nat)
    ensures k <= |s| && Pruned(s, now, window) == s[k..]
    ensures forall i :: 0 <= i < k ==> now - s[i].at > window
    ensures k < |s| ==> now - s[k].at <= window
    decreases |s|
  {
    if s != [] && now - s[0].at > window {
      k := PrunedIsASuffix(s[1..], now, window);
      k := k + 1;
    } else {
      k := 0;
    }
  }

  /** i samples on, at least i throttles have passed. */
  lemma {:induction false} Apart(s: seq<Sample>, throttle: nat, i: nat)
    requires Spaced(s, throttle) && i < |s|
    ensures s[i].at - s[0].at >= i * throttle >= 0
    decreases i
  {
    if i > 0 {
      Apart(s, throttle, i - 1);
      assert i * throttle == (i - 1) * throttle + throttle;
    }
  }

  /** The buffer cannot grow beyond what the throttle lets into one window. */
  lemma BufferIsBounded(s: seq<Sample>, throttle: nat, window: nat)
    requires Paced(s, throttle, window) && s != []
    ensures (|s| - 1) * throttle <= window
  {
    Apart(s, throttle, |s| - 1);
  }
}

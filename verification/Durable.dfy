/**
  Operations that write to a disk in several durable steps.

  A Run is one call of an operation: the disk after each of its durable writes,
  in order, and how the call ends. The process may die before the first write,
  between any two of them, or before it can report its outcome; CutAfter says what is then left on disk.
 */
module Durable {

  datatype Run<S, O> = Halt(outcome: O) | Step(next: S, rest: Run<S, O>)

  /** What is left of a call: the process died, or the call ended with an outcome. */
  datatype Cut<S, O> = Died(disk: S) | Ended(disk: S, outcome: O)

  /** The call, if the process dies once it has made `writes` durable writes and reaches for another. */
  function CutAfter<S, O>(disk: S, run: Run<S, O>, writes: nat): Cut<S, O>
    decreases run
  {
    match run
    case Halt(o) => Ended(disk, o)
    case Step(next, rest) => if writes == 0 then Died(disk) else CutAfter(next, rest, writes - 1)
  }

  /** The number of durable writes of an undisturbed call. */
  function Writes<S, O>(run: Run<S, O>): nat {
    match run
    case Halt(_) => 0
    case Step(_, rest) => 1 + Writes(rest)
  }

  /** The call, undisturbed. */
  function Complete<S, O>(disk: S, run: Run<S, O>): (S, O)
    decreases run
  {
    match run
    case Halt(o) => (disk, o)
    case Step(next, rest) => Complete(next, rest)
  }

  /** Every disk the call passes through, the one it starts from included, satisfies p. */
  ghost predicate Throughout<S(!new), O>(disk: S, run: Run<S, O>, p: S -> bool)
    decreases run
  {
    p(disk) && (run.Step? ==> Throughout(run.next, run.rest, p))
  }

  lemma {:induction false} CutKeeps<S(!new), O>(disk: S, run: Run<S, O>, writes: nat, p: S -> bool)
    requires Throughout(disk, run, p)
    ensures p(CutAfter(disk, run, writes).disk)
    decreases run
  {
    match run
    case Halt(_) =>
    case Step(next, rest) => if writes != 0 { CutKeeps(next, rest, writes - 1, p); }
  }

  lemma {:induction false} CompleteKeeps<S(!new), O>(disk: S, run: Run<S, O>, p: S -> bool)
    requires Throughout(disk, run, p)
    ensures p(Complete(disk, run).0)
    decreases run
  {
    match run
    case Halt(_) =>
    case Step(next, rest) => CompleteKeeps(next, rest, p);
  }

  lemma TwoSteps<S, O>(disk: S, first: S, second: S, rest: Run<S, O>)
    ensures Complete(disk, Step(first, Step(second, rest))) == Complete(second, rest)
  {
    assert Complete(first, Step(second, rest)) == Complete(second, rest);
  }

  /** A call that ends did everything the undisturbed call does: a crash is the only way to stop early. */
  lemma {:induction false} EndedIsComplete<S, O>(disk: S, run: Run<S, O>, writes: nat)
    ensures CutAfter(disk, run, writes).Ended? <==> Writes(run) <= writes
    ensures CutAfter(disk, run, writes).Ended? ==>
              var (d, o) := Complete(disk, run); CutAfter(disk, run, writes) == Ended(d, o)
    decreases run
  {
    match run
    case Halt(_) =>
    case Step(next, rest) => if writes != 0 { EndedIsComplete(next, rest, writes - 1); }
  }

  /** A call that ends is not changed by being allowed more writes. */
  lemma EndedStaysEnded<S, O>(disk: S, run: Run<S, O>, writes: nat, more: nat)
    requires CutAfter(disk, run, writes).Ended? && writes <= more
    ensures CutAfter(disk, run, more) == CutAfter(disk, run, writes)
  {
    EndedIsComplete(disk, run, writes);
    EndedIsComplete(disk, run, more);
  }
}

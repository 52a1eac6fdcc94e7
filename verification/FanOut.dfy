/** The bounded-concurrency fan-out over vaults. */
module FanOut {
  import opened Wrappers

  datatype Slot<T> = Result(vault: string, value: T) | Error(vault: string, message: string)

  /** How the task at an index ends: with a value, or with an error that is captured. */
  datatype Outcome<T> = Value(value: T) | Failure(message: string)

  function Captured<T>(vault: string, o: Outcome<T>): Slot<T> {
    match o
    case Value(v) => Result(vault, v)
    case Failure(m) => Error(vault, m)
  }

  function Max(a: int, b: int): int {
    if a >= b then a else b
  }

  function Min(a: int, b: int): int {
    if a <= b then a else b
  }

  /** The indices a fan-out has launched are `0..n`, each once. */
  function Upto(n: nat): seq<nat> {
    seq(n, i => i)
  }

  class FanOutRun<T> {
    const vaults: seq<string>
    const outcome: nat -> Outcome<T>
    const concurrency: nat
    var nextIndex: nat
    var inFlight: set<nat>
    var results: seq<Option<Slot<T>>>
    /** The indices in the order they were launched, and the most tasks ever in flight. */
    ghost var launched: seq<nat>
    ghost var peak: nat

    ghost predicate Valid()
      reads this
    {
      && concurrency >= 1 && nextIndex <= |vaults| == |results|
      && launched == Upto(nextIndex)
      && (forall i :: i in inFlight ==> i < nextIndex)
      && |inFlight| <= peak <= concurrency
      && (forall i :: 0 <= i < nextIndex && i !in inFlight ==> results[i] == Some(Captured(vaults[i], outcome(i))))
      && (peak == Min(concurrency, |vaults|) || |inFlight| == nextIndex == peak)
    }

    constructor (vaults: seq<string>, outcome: nat -> Outcome<T>, requested: Option<int>)
      ensures Valid() && this.vaults == vaults && this.outcome == outcome
      ensures concurrency == Max(1, if requested.Some? then requested.value else 1)
      ensures nextIndex == 0 && inFlight == {}
    {
      this.vaults, this.outcome := vaults, outcome;
      concurrency := Max(1, if requested.Some? then requested.value else 1);
      nextIndex, inFlight, results := 0, {}, seq(|vaults|, _ => None);
      launched, peak := [], 0;
    }

    /** Starts the next vault, if there is one and a free place for it. */
    method Launch() returns (started: bool)
      requires Valid() && |inFlight| < concurrency
      modifies this
      ensures Valid()
      ensures started <==> old(nextIndex) < |vaults|
      ensures started ==> nextIndex == old(nextIndex) + 1 && inFlight == old(inFlight) + {old(nextIndex)}
      ensures !started ==> nextIndex == old(nextIndex) && inFlight == old(inFlight)
    {
      if nextIndex >= |vaults| { return false; }
      var idx := nextIndex;
      nextIndex := nextIndex + 1;
      inFlight := inFlight + {idx};
      launched := launched + [idx];
      peak := Max(peak, |inFlight|);
      FewerThanLaunched(inFlight, nextIndex);
      started := true;
    }

    /** A task settles: its slot is filled, with the result or with the error that was caught. */
    method SettleOne(idx: nat)
      requires Valid() && idx in inFlight && peak == Min(concurrency, |vaults|)
      modifies this`inFlight, this`results
      ensures Valid() && inFlight == old(inFlight) - {idx}
    {
      results := results[idx := Some(Captured(vaults[idx], outcome(idx)))];
      inFlight := inFlight - {idx};
    }

    /** Any number of tasks settle before the loop goes on. */
    method Settle(done: set<nat>)
      requires Valid() && done <= inFlight && peak == Min(concurrency, |vaults|)
      modifies this`inFlight, this`results
      ensures Valid() && inFlight == old(inFlight) - done
    {
      var todo := done;
      while todo != {}
        invariant todo <= inFlight && inFlight - todo == old(inFlight) - done
        invariant Valid()
      {
        var idx :| idx in todo;
        SettleOne(idx);
        todo := todo - {idx};
      }
      assert inFlight - {} == inFlight;
    }

    /** Launches until the window is full or the input is exhausted. */
    method FillWindow()
      requires Valid()
      modifies this
      ensures Valid() && nextIndex >= old(nextIndex)
      ensures |inFlight| == concurrency || nextIndex == |vaults|
      ensures peak == Min(concurrency, |vaults|)
      ensures forall i :: i in inFlight ==> i in old(inFlight) || old(nextIndex) <= i < nextIndex
      ensures nextIndex == old(nextIndex) ==> inFlight == old(inFlight)
    {
      while |inFlight| < concurrency && nextIndex < |vaults|
        invariant Valid() && nextIndex >= old(nextIndex)
        invariant forall i :: i in inFlight ==> i in old(inFlight) || old(nextIndex) <= i < nextIndex
        invariant nextIndex == old(nextIndex) ==> inFlight == old(inFlight)
        decreases |vaults| - nextIndex
      {
        var _ := Launch();
      }
      FewerThanLaunched(inFlight, nextIndex);
    }

    /** The whole run. Whatever order the tasks settle in, it terminates; every vault is launched
        exactly once, in order; never more than `concurrency` tasks are in flight, and no fewer than
        there can be; and each slot holds the result or the error of its own vault. */
    method Run() returns (final: seq<Slot<T>>)
      requires Valid() && nextIndex == 0 && inFlight == {}
      modifies this
      ensures Valid() && inFlight == {} && launched == Upto(|vaults|)
      ensures peak == Min(concurrency, |vaults|)
      ensures |final| == |vaults| && forall i :: 0 <= i < |vaults| ==> final[i] == Captured(vaults[i], outcome(i))
      ensures forall i :: 0 <= i < |vaults| ==>
        match outcome(i)
        case Value(v) => final[i] == Result(vaults[i], v)
        case Failure(m) => final[i] == Error(vaults[i], m)
    {
      FillWindow();
      while inFlight != {}
        invariant Valid() && peak == Min(concurrency, |vaults|)
        invariant inFlight == {} ==> nextIndex == |vaults|
        decreases |vaults| - nextIndex, inFlight
      {
        var done: set<nat> :| done <= inFlight && done != {};
        Settle(done);
        FillWindow();
      }
      final := seq(|vaults|, i requires 0 <= i < |results| && results[i].Some? reads this => results[i].value);
    }
  }

  /** A set of indices below `n` has at most `n` members. */
  lemma {:induction false} FewerThanLaunched(s: set<nat>, n: nat)
    requires forall i :: i in s ==> i < n
    ensures |s| <= n
  {
    if n == 0 {
      assert s == {};
    } else {
      FewerThanLaunched(s - {n - 1}, n - 1);
      assert |s| <= |s - {n - 1}| + 1;
    }
  }
}

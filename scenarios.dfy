/** The concrete runs the repository's tests pin down, over integer and string values. */
module Scenarios {
  import opened Wrappers
  import opened Detectors
  import opened DetectorRuns
  import opened Branching

  function Successor(v: int): Option<int> {
    Some(v + 1)
  }

  /** Positions of the list "one, two, three, one, two, three, ...": equal names every third position. */
  function SameInPeriodThree(a: int, b: int): bool {
    a % 3 == b % 3
  }

  /** The positions 0, 1, ..., n. */
  function Positions(n: nat): (xs: seq<int>)
    ensures |xs| == n + 1 && forall i :: 0 <= i <= n ==> xs[i] == i
  {
    seq(n + 1, i => i)
  }

  /** The period-3 detector the repository's first test builds. */
  function PeriodThreeDetector(): (d: Detector<int>)
    ensures d.IsInitial(0) && d.next == Some(Successor) && d.compare == Some(SameInPeriodThree)
  {
    NewDetector(0, Some(Successor), Some(SameInPeriodThree)).value
  }

  /** The period-3 run follows the chain 0, 1, 2, ... and its first matching checkpoint is the third. */
  lemma PeriodThreeChain(n: nat)
    requires n <= 6
    ensures Chain(Successor, Positions(n))
    ensures NoMatchUpTo(SameInPeriodThree, Positions(6), 2)
    ensures MatchAt(SameInPeriodThree, Positions(6), 3)
  {
  }

  /**
   * Driving `Hare` with 1, 2, 3, ... over a period-3 list finds the cycle at hare count 6 and
   * tortoise count 3, and not before.
   */
  lemma PeriodThreeFoundAtSix()
    ensures HareRun(PeriodThreeDetector(), Positions(5)[1..]).ok
    ensures var r := HareRun(PeriodThreeDetector(), Positions(6)[1..]);
      !r.ok && r.hareCount == 6 && r.tortoiseCount == 3
  {
    var d0 := PeriodThreeDetector();
    var xs := Positions(6);
    PeriodThreeChain(6);
    assert HareRun(d0, Positions(5)[1..]).ok by {
      HareDrivenRun(d0, xs, 5);
      assert xs[1..6] == Positions(5)[1..];
    }
    assert xs[1..7] == Positions(6)[1..];
    HareDrivenRun(d0, xs, 6);
    StopsAtFirstMatch(HareRun(d0, xs[1..7]), xs, 6, 3);
  }

  function Zero(v: int): Option<int> {
    Some(0)
  }

  function AlwaysSame(a: int, b: int): bool {
    true
  }

  /**
   * A compare that always matches is not special-cased at position zero: one `Hare` leaves `ok`
   * true at hare count 1, a second reports the cycle at hare count 2, and a single `Tortoise`
   * reports it at once.
   */
  lemma AlwaysMatchingCompare()
    ensures NewDetector(0, Some(Zero), Some(AlwaysSame)).Success?
    ensures var d0 := NewDetector(0, Some(Zero), Some(AlwaysSame)).value;
      && d0.Hare(0).ok && !d0.Hare(0).done
      && d0.Hare(0).hareCount == 1 && d0.Hare(0).tortoiseCount == 1
      && !d0.Hare(0).Hare(0).ok && !d0.Hare(0).Hare(0).done
      && d0.Hare(0).Hare(0).hareCount == 2 && d0.Hare(0).Hare(0).tortoiseCount == 1
      && !d0.Tortoise(0).ok && !d0.Tortoise(0).done
      && d0.Tortoise(0).hareCount == 2 && d0.Tortoise(0).tortoiseCount == 1
  {
  }

  /** Successor within a list of `len` positions: the last position has no successor. */
  function SuccessorBelow(len: int): int -> Option<int> {
    (v: int) => if v + 1 >= len then None else Some(v + 1)
  }

  function SameInPeriodFour(a: int, b: int): bool {
    a % 4 == b % 4
  }

  /**
   * Mixing the two calls: `Tortoise` after an odd number of hare steps first completes the
   * pending hare step, so one `Hare` and one `Tortoise` leave counts 2 and 4; after another pair
   * they are 4 and 8 and the period-4 list has matched.
   */
  lemma MixedHareAndTortoise()
    ensures NewDetector(0, Some(SuccessorBelow(28)), Some(SameInPeriodFour)).Success?
    ensures var d0 := NewDetector(0, Some(SuccessorBelow(28)), Some(SameInPeriodFour)).value;
      var d1 := d0.Hare(1).Tortoise(2);
      var d2 := d1.Hare(5);
      var d3 := d2.Tortoise(4);
      && d1.tortoiseCount == 2 && d1.hareCount == 4 && d1.hare == 4 && d1.tortoise == 2 && d1.ok
      && d2.tortoiseCount == 3 && d2.hareCount == 5 && d2.hare == 5 && d2.tortoise == 3 && d2.ok
      && d3.tortoiseCount == 4 && d3.hareCount == 8 && d3.hare == 8 && d3.tortoise == 4
      && !d3.ok && !d3.done
  {
  }

  /**
   * `Tortoise` keeps partial progress when `next` runs out: over positions 0..3 the second call
   * keeps its tortoise value and the one hare step that succeeded before marking the detector done.
   */
  lemma TortoiseExhaustsMidway()
    ensures NewDetector(0, Some(SuccessorBelow(4)), None).Success?
    ensures var d0 := NewDetector(0, Some(SuccessorBelow(4)), None).value;
      var d1 := d0.Tortoise(1);
      var d2 := d1.Tortoise(2);
      && d1.hare == 2 && d1.hareCount == 2 && !d1.done && d1.ok
      && d2.tortoise == 2 && d2.tortoiseCount == 2 && d2.hare == 3 && d2.hareCount == 3
      && d2.done && d2.ok
  {
  }

  /** The list 0..len with the bounded successor is a chain, and no checkpoint matches under equality. */
  lemma CountingChain(len: nat)
    ensures Chain(SuccessorBelow(len + 1), Positions(len))
    ensures NoMatchUpTo(CompareEquality, Positions(len), len / 2)
  {
    var xs := Positions(len);
    var next := SuccessorBelow(len + 1);
    forall i | 0 <= i < |xs| - 1
      ensures StepAt(next, xs, i)
    {
    }
  }

  /**
   * The repository's tortoise-driven run over the list 0..20 without a cycle: ten `Tortoise` calls
   * bring the hare to the end of the list, and the eleventh runs out at once, leaving the hare at
   * position 20 and hare count 20, with `ok` still true.
   */
  lemma TortoiseRunsOffTheEnd()
    ensures NewDetector(0, Some(SuccessorBelow(21)), None).Success?
    ensures var d0 := NewDetector(0, Some(SuccessorBelow(21)), None).value;
      var r := TortoiseRun(d0, Positions(20)[1..11]);
      && r.ok && !r.done && r.hareCount == 20 && r.hare == 20 && r.tortoise == 10
      && var e := r.Tortoise(11);
      e.done && e.ok && e.hareCount == 20 && e.hare == 20 && e.tortoise == 11 && e.tortoiseCount == 11
  {
    var d0 := NewDetector(0, Some(SuccessorBelow(21)), None).value;
    var xs := Positions(20);
    CountingChain(20);
    TortoiseDrivenRun(d0, xs, 10);
  }

  /**
   * The repository's tortoise-driven run over the list 0..21: ten calls fit, and the eleventh
   * keeps one hare step before running out, leaving the hare at 21 with hare count 21.
   */
  lemma TortoiseOddLengthRunsOut()
    ensures NewDetector(0, Some(SuccessorBelow(22)), None).Success?
    ensures var d0 := NewDetector(0, Some(SuccessorBelow(22)), None).value;
      var e := TortoiseRun(d0, Positions(21)[1..11]).Tortoise(11);
      e.done && e.ok && e.hareCount == 21 && e.hare == 21 && e.tortoise == 11 && e.tortoiseCount == 11
  {
    var d0 := NewDetector(0, Some(SuccessorBelow(22)), None).value;
    var xs := Positions(21);
    CountingChain(21);
    TortoiseRunsOut(d0, xs, 11);
  }

  function Never(v: int): Option<int> {
    None
  }

  /** `Hare` on a fresh detector whose `next` has nothing changes only `done`. */
  lemma HareExhaustsAtOnce()
    ensures NewDetector(23, Some(Never), None).Success?
    ensures var d0 := NewDetector(23, Some(Never), None).value;
      d0.Hare(241) == d0.(done := true)
  {
  }

  function AlwaysSameText(a: string, b: string): bool {
    true
  }

  /**
   * A branching detector passes its compare on: with one that always matches, the first hare
   * step is fine and the second reports a cycle; with the default, the tortoise trails one value
   * behind after two steps.
   */
  lemma BranchingScenarios(grew: bool)
    ensures var b := NewBranchingDetector("1", Some(AlwaysSameText));
      && b.AfterHare("2", grew).f.ok
      && !b.AfterHare("2", grew).AfterHare("3", grew).f.ok
      && !b.AfterHare("2", grew).AfterHare("3", grew).f.done
    ensures var b := NewBranchingDetector("0", None).AfterHare("1", grew).AfterHare("2", grew);
      && b.f.tortoise == "1" && b.f.hare == "2" && b.queue == ["2"] && b.f.ok
  {
  }

  /** A traversal path of the repository's single-cycle test: start 0, then 2, 1, 2, 1. */
  const BackEdgePath: seq<int> := [0, 2, 1, 2, 1]

  /** Append outcomes for n calls, none of which grew the buffer. */
  function NoGrowth(n: nat): (g: seq<bool>)
    ensures |g| == n
  {
    seq(n, _ => false)
  }

  /** The repository's single-cycle traversal: the path 0, 2, 1, 2 shows no cycle yet. */
  lemma BackEdgeNotYetReported()
    ensures var b := BranchRun(NewBranchingDetector(0, None), BackEdgePath[1..4], NoGrowth(3));
      b.f.ok && b.f.hareCount == 3 && b.f.tortoise == 1 && b.queue == [2]
  {
    var b0 := NewBranchingDetector(0, None);
    BranchingRun(b0, BackEdgePath, 3, NoGrowth(3));
    assert NoMatchUpTo(b0.f.compare.value, BackEdgePath, 1);
  }

  /**
   * Along the path 0, 2, 1, 2, 1 the cycle is reported at the fourth hare step, with the tortoise
   * at the second path value and the hare at the fourth.
   */
  lemma BackEdgeReported()
    ensures var b := BranchRun(NewBranchingDetector(0, None), BackEdgePath[1..5], NoGrowth(4));
      && !b.f.ok && !b.f.done && b.f.hareCount == 4 && b.f.tortoiseCount == 2
      && b.f.tortoise == 1 && b.f.hare == 1
  {
    var b0 := NewBranchingDetector(0, None);
    var xs := BackEdgePath;
    BranchingRun(b0, xs, 4, NoGrowth(4));
    assert NoMatchUpTo(b0.f.compare.value, xs, 1);
    StopsAtFirstMatch(BranchRun(b0, xs[1..5], NoGrowth(4)).f, xs, 4, 2);
  }
}

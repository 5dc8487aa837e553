/**
 * What a detector has computed after a sequence of calls: the counter relation kept by every
 * mix of `Hare` and `Tortoise`, and the first-phase result of Floyd's algorithm when the caller
 * feeds the values of a chain x0, x1 = next(x0), x2 = next(x1), ...
 */
module DetectorRuns {
  import opened Wrappers
  import opened Detectors

  /** One call a caller makes on a detector. */
  datatype Call<T> = HareCall(step: T) | TortoiseCall(step: T)

  function Apply<T>(d: Detector<T>, c: Call<T>): (r: Detector<T>)
    requires d.Valid()
    ensures r.Valid() && r.next == d.next && r.compare == d.compare
  {
    match c
    case HareCall(s) => d.Hare(s)
    case TortoiseCall(s) => d.Tortoise(s)
  }

  /** The detector value obtained by threading `d` through `calls`, in order. */
  function Run<T>(d: Detector<T>, calls: seq<Call<T>>): (r: Detector<T>)
    requires d.Valid()
    ensures r.Valid() && r.next == d.next && r.compare == d.compare
    decreases |calls|
  {
    if |calls| == 0 then d else Apply(Run(d, calls[..|calls| - 1]), calls[|calls| - 1])
  }

  /** Only `Hare` calls, with the given hare values. */
  function HareRun<T>(d: Detector<T>, steps: seq<T>): (r: Detector<T>)
    requires d.Valid()
    ensures r.Valid() && r.next == d.next && r.compare == d.compare
    decreases |steps|
  {
    if |steps| == 0 then d else HareRun(d, steps[..|steps| - 1]).Hare(steps[|steps| - 1])
  }

  /** Only `Tortoise` calls, with the given tortoise values. */
  function TortoiseRun<T>(d: Detector<T>, steps: seq<T>): (r: Detector<T>)
    requires d.Valid()
    ensures r.Valid() && r.next == d.next && r.compare == d.compare
    decreases |steps|
  {
    if |steps| == 0 then d else TortoiseRun(d, steps[..|steps| - 1]).Tortoise(steps[|steps| - 1])
  }

  /**
   * The counters of a live detector: the tortoise has taken ceil(hareCount / 2) steps, and a
   * cycle is only ever reported at an even hare count.
   */
  ghost predicate CountersAgree<T>(d: Detector<T>) {
    && (d.done || d.tortoiseCount == (d.hareCount + 1) / 2)
    && (!d.ok ==> d.hareCount % 2 == 0)
  }

  lemma HareKeepsCounters<T>(d: Detector<T>, step: T)
    requires d.Valid() && CountersAgree(d)
    ensures CountersAgree(d.Hare(step))
  {
  }

  /** After a `Tortoise` call that did not run out, the hare has taken exactly twice the tortoise's steps. */
  lemma TortoiseKeepsCounters<T>(d: Detector<T>, step: T)
    requires d.Valid() && CountersAgree(d)
    ensures CountersAgree(d.Tortoise(step))
    ensures !d.Tortoise(step).done ==> d.Tortoise(step).hareCount == 2 * d.Tortoise(step).tortoiseCount
  {
  }

  /** From the constructor, any mix of calls keeps the counter relation. */
  lemma {:induction false} RunKeepsCounters<T>(d0: Detector<T>, start: T, calls: seq<Call<T>>)
    requires d0.IsInitial(start)
    ensures CountersAgree(Run(d0, calls))
    decreases |calls|
  {
    if |calls| > 0 {
      RunKeepsCounters(d0, start, calls[..|calls| - 1]);
      var p := Run(d0, calls[..|calls| - 1]);
      match calls[|calls| - 1]
      case HareCall(s) => HareKeepsCounters(p, s);
      case TortoiseCall(s) => TortoiseKeepsCounters(p, s);
    }
  }

  /**
   * Counters never go down, a reported cycle is never withdrawn, exhaustion is permanent, and a
   * finished detector is left as it is.
   */
  lemma {:induction false} RunIsMonotone<T>(d: Detector<T>, calls: seq<Call<T>>)
    requires d.Valid()
    ensures var r := Run(d, calls);
      && r.hareCount >= d.hareCount && r.tortoiseCount >= d.tortoiseCount
      && (r.ok ==> d.ok) && (d.done ==> r.done)
      && (!d.Active() ==> r == d)
    decreases |calls|
  {
    if |calls| > 0 {
      RunIsMonotone(d, calls[..|calls| - 1]);
    }
  }

  /** `xs` is a run of the step function: every element but the last has the next one as successor. */
  ghost predicate Chain<T>(next: T -> Option<T>, xs: seq<T>) {
    forall i :: 0 <= i < |xs| - 1 ==> StepAt(next, xs, i)
  }

  /** Element i + 1 of `xs` is what `next` gives for element i. */
  ghost predicate StepAt<T>(next: T -> Option<T>, xs: seq<T>, i: nat)
    requires i + 1 < |xs|
  {
    next(xs[i]) == Some(xs[i + 1])
  }

  /** Checkpoint j: the tortoise at x_j matches the hare at x_2j. */
  ghost predicate MatchAt<T>(cmp: (T, T) -> bool, xs: seq<T>, j: nat)
    requires 2 * j < |xs|
  {
    cmp(xs[j], xs[2 * j])
  }

  /** No checkpoint j in 1..k matches. */
  ghost predicate NoMatchUpTo<T>(cmp: (T, T) -> bool, xs: seq<T>, k: nat)
    requires 2 * k < |xs|
  {
    forall j :: 1 <= j <= k ==> !MatchAt(cmp, xs, j)
  }

  /**
   * The state Floyd's first phase is in once the hare has been offered x_1..x_n: either no
   * checkpoint matched and the hare is at x_n with the tortoise at x_ceil(n/2), or the detector
   * stopped at the first checkpoint j, with the tortoise at x_j and the hare at x_2j.
   */
  ghost predicate Reached<T>(d: Detector<T>, xs: seq<T>, n: nat)
    requires d.Valid()
    requires n < |xs|
  {
    && !d.done
    && d.hareCount <= n
    && d.tortoiseCount == (d.hareCount + 1) / 2
    && d.hare == xs[d.hareCount]
    && d.tortoise == xs[d.tortoiseCount]
    && (d.ok ==> d.hareCount == n)
    && (d.ok <==> NoMatchUpTo(d.compare.value, xs, n / 2))
    && (!d.ok ==>
          && d.hareCount % 2 == 0
          && 1 <= d.tortoiseCount
          && MatchAt(d.compare.value, xs, d.tortoiseCount)
          && NoMatchUpTo(d.compare.value, xs, d.tortoiseCount - 1))
  }

  /** Checkpoint k extends the checkpoints before it. */
  lemma NoMatchExtends<T>(cmp: (T, T) -> bool, xs: seq<T>, k: nat)
    requires 1 <= k && 2 * k < |xs|
    ensures NoMatchUpTo(cmp, xs, k) <==> NoMatchUpTo(cmp, xs, k - 1) && !MatchAt(cmp, xs, k)
  {
  }

  /** Two checkpoints that are each the first to match are the same checkpoint. */
  lemma FirstMatchIsUnique<T>(cmp: (T, T) -> bool, xs: seq<T>, a: nat, b: nat)
    requires 1 <= a && 1 <= b && 2 * a < |xs| && 2 * b < |xs|
    requires MatchAt(cmp, xs, a) && NoMatchUpTo(cmp, xs, a - 1)
    requires MatchAt(cmp, xs, b) && NoMatchUpTo(cmp, xs, b - 1)
    ensures a == b
  {
  }

  /** A reported cycle stays in place when more of the chain is considered. */
  lemma StoppedStaysReached<T>(d: Detector<T>, xs: seq<T>, n: nat)
    requires d.Valid() && n + 1 < |xs|
    requires Reached(d, xs, n) && !d.ok
    ensures Reached(d, xs, n + 1)
  {
    assert MatchAt(d.compare.value, xs, d.tortoiseCount);
  }

  /**
   * One `Hare` call with x_n from a live state after x_1..x_(n-1). The tortoise advance that an
   * even hare count asks for must yield the next chain element; nothing else of `next` is used.
   */
  lemma HareStepReached<T>(p: Detector<T>, xs: seq<T>, n: nat)
    requires p.Valid() && 1 <= n < |xs|
    requires Reached(p, xs, n - 1)
    requires p.ok && (n - 1) % 2 == 0 ==> p.Advance(p.tortoise) == Some(xs[p.tortoiseCount + 1])
    ensures Reached(p.Hare(xs[n]), xs, n)
  {
    if !p.ok {
      StoppedStaysReached(p, xs, n - 1);
    } else if (n - 1) % 2 == 1 {
      NoMatchExtends(p.compare.value, xs, n / 2);
    }
  }

  /**
   * The first checkpoint: when checkpoints 1..k-1 do not match and checkpoint k does, a state
   * reached after 2k or more chain elements reports the cycle with tortoise count k and hare
   * count 2k, at the tortoise x_k and the hare x_2k.
   */
  lemma StopsAtFirstMatch<T>(d: Detector<T>, xs: seq<T>, n: nat, k: nat)
    requires d.Valid() && n < |xs| && Reached(d, xs, n)
    requires 1 <= k && 2 * k <= n
    requires NoMatchUpTo(d.compare.value, xs, k - 1) && MatchAt(d.compare.value, xs, k)
    ensures !d.ok && d.tortoiseCount == k && d.hareCount == 2 * k
    ensures d.tortoise == xs[k] && d.hare == xs[2 * k]
  {
    var cmp := d.compare.value;
    assert !NoMatchUpTo(cmp, xs, n / 2) by {
      assert 1 <= k <= n / 2 && MatchAt(cmp, xs, k);
    }
    FirstMatchIsUnique(cmp, xs, d.tortoiseCount, k);
  }

  /** `HareStepReached` for a detector whose `next` follows the chain. */
  lemma HareChainStepReached<T>(p: Detector<T>, xs: seq<T>, n: nat)
    requires p.Valid() && 1 <= n < |xs| && Chain(p.next.value, xs)
    requires Reached(p, xs, n - 1)
    ensures Reached(p.Hare(xs[n]), xs, n)
  {
    assert StepAt(p.next.value, xs, p.tortoiseCount);
    HareStepReached(p, xs, n);
  }

  /** Feeding x_1..x_n is feeding x_1..x_(n-1) and then x_n. */
  lemma HareRunExtends<T>(d0: Detector<T>, xs: seq<T>, n: nat)
    requires 1 <= n < |xs| && d0.Valid()
    ensures HareRun(d0, xs[1..n + 1]) == HareRun(d0, xs[1..n]).Hare(xs[n])
  {
    assert xs[1..n + 1][..n - 1] == xs[1..n];
  }

  /** Extending the chain by one element extends the reached state by one `Hare` call. */
  lemma HareRunStep<T>(d0: Detector<T>, xs: seq<T>, n: nat)
    requires 1 <= n < |xs| && d0.Valid() && Chain(d0.next.value, xs)
    requires Reached(HareRun(d0, xs[1..n]), xs, n - 1)
    ensures Reached(HareRun(d0, xs[1..n + 1]), xs, n)
  {
    HareRunExtends(d0, xs, n);
    HareChainStepReached(HareRun(d0, xs[1..n]), xs, n);
  }

  /**
   * Hare-driven detection: feeding x_1..x_n to `Hare` on a fresh detector whose `next` follows
   * the chain reaches the state Floyd's first phase describes.
   */
  lemma {:induction false} HareDrivenRun<T>(d0: Detector<T>, xs: seq<T>, n: nat)
    requires n < |xs|
    requires d0.IsInitial(xs[0]) && Chain(d0.next.value, xs)
    ensures Reached(HareRun(d0, xs[1..n + 1]), xs, n)
    decreases n
  {
    if n == 0 {
      assert xs[1..1] == [];
    } else {
      HareDrivenRun(d0, xs, n - 1);
      HareRunStep(d0, xs, n);
    }
  }

  /** One `Tortoise` call with the next chain element, from a live state after k - 1 such calls. */
  lemma TortoiseStepReached<T>(p: Detector<T>, xs: seq<T>, k: nat)
    requires p.Valid() && 1 <= k && 2 * k < |xs| && Chain(p.next.value, xs)
    requires Reached(p, xs, 2 * k - 2)
    ensures Reached(p.Tortoise(xs[k]), xs, 2 * k)
  {
    if !p.ok {
      StoppedStaysReached(p, xs, 2 * k - 2);
      StoppedStaysReached(p, xs, 2 * k - 1);
    } else {
      assert StepAt(p.next.value, xs, 2 * k - 2) && StepAt(p.next.value, xs, 2 * k - 1);
      NoMatchExtends(p.compare.value, xs, k);
    }
  }

  /** Feeding x_1..x_k is feeding x_1..x_(k-1) and then x_k. */
  lemma TortoiseRunExtends<T>(d0: Detector<T>, xs: seq<T>, k: nat)
    requires 1 <= k < |xs| && d0.Valid()
    ensures TortoiseRun(d0, xs[1..k + 1]) == TortoiseRun(d0, xs[1..k]).Tortoise(xs[k])
  {
    assert xs[1..k + 1][..k - 1] == xs[1..k];
  }

  /** Extending the tortoise values by one chain element extends the reached state by one `Tortoise` call. */
  lemma TortoiseRunStep<T>(d0: Detector<T>, xs: seq<T>, k: nat)
    requires 1 <= k && 2 * k < |xs| && d0.Valid() && Chain(d0.next.value, xs)
    requires Reached(TortoiseRun(d0, xs[1..k]), xs, 2 * k - 2)
    ensures Reached(TortoiseRun(d0, xs[1..k + 1]), xs, 2 * k)
  {
    TortoiseRunExtends(d0, xs, k);
    TortoiseStepReached(TortoiseRun(d0, xs[1..k]), xs, k);
  }

  /**
   * Tortoise-driven detection: feeding x_1..x_k to `Tortoise` on a fresh detector, with a chain
   * long enough for the hare's 2k steps, reaches the same state, at hare count 2k.
   */
  lemma {:induction false} TortoiseDrivenRun<T>(d0: Detector<T>, xs: seq<T>, k: nat)
    requires 2 * k < |xs|
    requires d0.IsInitial(xs[0]) && Chain(d0.next.value, xs)
    ensures Reached(TortoiseRun(d0, xs[1..k + 1]), xs, 2 * k)
    decreases k
  {
    if k == 0 {
      assert xs[1..1] == [];
    } else {
      TortoiseDrivenRun(d0, xs, k - 1);
      TortoiseRunStep(d0, xs, k);
    }
  }

  /**
   * A tortoise-driven run over a finite chain without a matching checkpoint: after the
   * floor((|xs| - 1) / 2) calls that fit, one more call runs `next` off the end of the chain. The
   * detector is then done with `ok` still true, the hare at the last chain value and the hare
   * count |xs| - 1, whichever the parity of the chain's length; on an odd count one hare step of
   * the final call is kept.
   */
  lemma TortoiseRunsOut<T>(d0: Detector<T>, xs: seq<T>, last: T)
    requires 1 <= |xs| && d0.IsInitial(xs[0]) && Chain(d0.next.value, xs)
    requires d0.Advance(xs[|xs| - 1]).None?
    requires NoMatchUpTo(d0.compare.value, xs, (|xs| - 1) / 2)
    ensures var m := (|xs| - 1) / 2;
      var r := TortoiseRun(d0, xs[1..m + 1]).Tortoise(last);
      && r.done && r.ok && r.hareCount == |xs| - 1 && r.hare == xs[|xs| - 1]
      && r.tortoise == last && r.tortoiseCount == m + 1
  {
    var m := (|xs| - 1) / 2;
    TortoiseDrivenRun(d0, xs, m);
    RunsOutFrom(TortoiseRun(d0, xs[1..m + 1]), xs, last);
  }

  /** The final call of `TortoiseRunsOut`, from the live state reached after 2m chain values. */
  lemma RunsOutFrom<T>(p: Detector<T>, xs: seq<T>, last: T)
    requires 1 <= |xs| && p.Valid() && Chain(p.next.value, xs)
    requires p.Advance(xs[|xs| - 1]).None?
    requires NoMatchUpTo(p.compare.value, xs, (|xs| - 1) / 2)
    requires Reached(p, xs, 2 * ((|xs| - 1) / 2))
    ensures var r := p.Tortoise(last);
      && r.done && r.ok && r.hareCount == |xs| - 1 && r.hare == xs[|xs| - 1]
      && r.tortoise == last && r.tortoiseCount == (|xs| - 1) / 2 + 1
  {
    var m := (|xs| - 1) / 2;
    assert p.ok && p.hareCount == 2 * m;
    if 2 * m + 1 < |xs| {
      assert StepAt(p.next.value, xs, 2 * m);
    }
  }
}

/**
 * The branching detector: a `Detector` driven only through `Hare`, whose tortoise is fed from a
 * queue of earlier hare values instead of calling the caller back.
 */
module Branching {
  import opened Wrappers
  import opened Detectors
  import opened DetectorRuns

  /** The step function of a branching detector between calls: it always reports exhaustion. */
  function EmptyNext<T>(v: T): Option<T> {
    None
  }

  /** The front of a queue, as `logNext` hands it out. */
  function Front<T>(q: seq<T>): Option<T> {
    if |q| > 0 then Some(q[0]) else None
  }

  /** The step function installed for one `Hare` call: whatever it is asked, it answers the queue's front. */
  function QueueNext<T>(q: seq<T>): T -> Option<T> {
    (v: T) => Front(q)
  }

  /**
   * Which slots of the path buffer a value's release nulls: none (a constructed value), only the
   * slot its own `Hare` call appended, or its whole buffer, when that append had to grow the storage.
   */
  datatype Release = NoRelease | ReleaseLast | ReleaseAll

  /** The wrapped detector, the queue of hare values the tortoise has not reached yet (Go's `next` slice) and the release. */
  datatype BranchingDetector<!T> = BranchingDetector(f: Detector<T>, queue: seq<T>, release: Release)
  {
    function Ok(): bool
      requires f.Valid()
    {
      f.Ok()
    }

    function Done(): bool
      requires f.Valid()
    {
      f.Done()
    }

    function HareCount(): nat
      requires f.Valid()
    {
      f.HareCount()
    }

    function TortoiseCount(): nat
      requires f.Valid()
    {
      f.TortoiseCount()
    }

    /**
     * The value one `Hare` call returns: `step` joins the queue, the wrapped detector takes a hare
     * step whose tortoise advance (on an even count) takes the queue's front, and that front is
     * dropped exactly when the tortoise advanced. `grew` says whether appending to the buffer
     * reallocated it, which only the release depends on.
     */
    function AfterHare(step: T, grew: bool): (r: BranchingDetector<T>)
      requires f.Valid()
      ensures r.f.Valid() && r.f.compare == f.compare
      ensures !f.Active() ==> r == this
      ensures f.Active() ==>
        && !r.f.done && r.f.next == Some(EmptyNext)
        && r.f.hare == step && r.f.hareCount == f.hareCount + 1
        && r.release == (if grew then ReleaseAll else ReleaseLast)
        && (r.f.ok <==> r.f.hareCount % 2 == 1 || !r.f.Matches(r.f.tortoise, step))
      ensures f.Active() && f.hareCount % 2 == 0 ==>
        && r.f.tortoise == (queue + [step])[0] && r.f.tortoiseCount == f.tortoiseCount + 1
        && r.queue == (queue + [step])[1..]
      ensures f.Active() && f.hareCount % 2 == 1 ==>
        && r.f.tortoise == f.tortoise && r.f.tortoiseCount == f.tortoiseCount
        && r.queue == queue + [step]
    {
      if !f.ok || f.done then this
      else
        var q := queue + [step];
        var advanced := f.(next := Some(QueueNext(q))).Hare(step);
        BranchingDetector(
          advanced.(next := Some(EmptyNext)),
          if f.hareCount % 2 == 0 then q[1..] else q,
          if grew then ReleaseAll else ReleaseLast)
    }

    /**
     * One hare step, done as the source does it: a fresh updater holds the extended queue, the
     * wrapped detector's step pops from it, and the updater then hands its queue to the result.
     */
    method Hare(step: T, grew: bool) returns (r: BranchingDetector<T>)
      requires f.Valid()
      ensures r == AfterHare(step, grew)
    {
      if !f.ok || f.done {
        return this;
      }
      var updater := new NextUpdater(queue + [step]);
      var q := updater.next;
      var advanced := f.(next := Some(QueueNext(q))).Hare(step);
      if f.hareCount % 2 == 0 {
        // The wrapped detector asked its step function once, for the tortoise: that call is the
        // updater's logNext, which pops the front it answered with.
        var popped := LogNext(updater, f.tortoise);
        assert popped == Front(q);
      }
      r := UpdateNext(updater, BranchingDetector(advanced, queue, if grew then ReleaseAll else ReleaseLast));
    }

    /**
     * Releases this value's slots of the shared path buffer. `slots[lo..hi]` is the part of the
     * buffer the release was built over: the slice holding this value's `queue`, as it stood after
     * the tortoise's pop. A constructed value has no release and leaves the buffer alone.
     */
    method Clear(slots: array<Option<T>>, lo: nat, hi: nat)
      requires lo <= hi <= slots.Length
      modifies slots
      ensures release == NoRelease ==> slots[..] == old(slots[..])
      ensures release != NoRelease ==>
        forall i :: 0 <= i < slots.Length ==>
          slots[i] == if lo <= i < hi && (release == ReleaseAll || i == hi - 1) then None else old(slots[i])
    {
      if release == NoRelease {
        return;
      }
      ClearSlots(slots, lo, hi, release == ReleaseAll);
    }
  }

  /** A branching detector at `start`; its wrapped detector never gets a usable step function from the caller. */
  function NewBranchingDetector<T(==)>(start: T, compare: Option<(T, T) -> bool>): (r: BranchingDetector<T>)
    ensures r.f.IsInitial(start) && r.queue == [] && r.release == NoRelease
    ensures compare.Some? ==> r.f.compare == compare
    ensures compare.None? ==> r.f.compare == Some(CompareEquality)
    ensures r.f.next == Some(EmptyNext)
  {
    BranchingDetector(NewDetector(start, Some(EmptyNext), compare).value, [], NoRelease)
  }

  /** Holds the queue while one `Hare` call is in progress. */
  class NextUpdater<T> {
    var next: seq<T>

    constructor (next: seq<T>)
      ensures this.next == next
    {
      this.next := next;
    }
  }

  /** The step function a `Hare` call installs: pops and returns the queue's front; a nil updater or an empty queue reports exhaustion. */
  method LogNext<T>(u: NextUpdater?<T>, v: T) returns (step: Option<T>)
    modifies u
    ensures u == null ==> step == None
    ensures u != null ==> step == Front(old(u.next))
    ensures u != null ==> u.next == if |old(u.next)| > 0 then old(u.next)[1..] else old(u.next)
  {
    if u == null {
      return None;
    }
    if |u.next| > 0 {
      step := Some(u.next[0]);
      u.next := u.next[1..];
    } else {
      step := None;
    }
  }

  /** Moves the updater's queue into `b`, empties the updater and puts back the always-exhausted step function. */
  method UpdateNext<T>(u: NextUpdater?<T>, b: BranchingDetector<T>) returns (r: BranchingDetector<T>)
    modifies u
    ensures u == null ==> r == b
    ensures u != null ==> r == b.(queue := old(u.next), f := b.f.(next := Some(EmptyNext))) && u.next == []
  {
    if u == null {
      return b;
    }
    r := b.(queue := u.next, f := b.f.(next := Some(EmptyNext)));
    u.next := [];
  }

  /**
   * The release closure `genClear` builds, run on the buffer window `slots[lo..hi]`: with `all`
   * it nulls every slot of the window, otherwise only its last; an empty window is left alone.
   */
  method ClearSlots<T>(slots: array<Option<T>>, lo: nat, hi: nat, all: bool)
    requires lo <= hi <= slots.Length
    modifies slots
    ensures forall i :: 0 <= i < slots.Length ==>
      slots[i] == if lo <= i < hi && (all || i == hi - 1) then None else old(slots[i])
  {
    if lo == hi {
      return;
    }
    if all {
      var i := lo;
      while i < hi
        invariant lo <= i <= hi
        invariant forall k :: 0 <= k < slots.Length ==>
          slots[k] == if lo <= k < i then None else old(slots[k])
      {
        slots[i] := None;
        i := i + 1;
      }
      return;
    }
    slots[hi - 1] := None;
  }

  /** The value after `Hare` calls with the given values; `grows[i]` is the append growth outcome of call i. */
  function BranchRun<T>(b: BranchingDetector<T>, steps: seq<T>, grows: seq<bool>): (r: BranchingDetector<T>)
    requires b.f.Valid() && |steps| <= |grows|
    ensures r.f.Valid() && r.f.compare == b.f.compare
    decreases |steps|
  {
    if |steps| == 0 then b
    else BranchRun(b, steps[..|steps| - 1], grows).AfterHare(steps[|steps| - 1], grows[|steps| - 1])
  }

  /**
   * After the path x_1..x_n (with x_0 the start): the wrapped detector is where a linear detector
   * fed the same path would be, it has never run out, its step function is the exhausted one, and
   * the queue holds exactly the path values past the tortoise up to the hare.
   */
  ghost predicate PathReached<T>(b: BranchingDetector<T>, xs: seq<T>, n: nat)
    requires b.f.Valid() && n < |xs|
  {
    && Reached(b.f, xs, n)
    && b.queue == xs[b.f.tortoiseCount + 1..b.f.hareCount + 1]
    && b.f.next == Some(EmptyNext)
  }

  /** The step function a `Hare` call installs answers with the path value just past the tortoise. */
  lemma QueueNextAnswersFront<T>(p: BranchingDetector<T>, xs: seq<T>, n: nat)
    requires p.f.Valid() && 1 <= n < |xs|
    requires PathReached(p, xs, n - 1) && p.f.ok
    ensures p.queue + [xs[n]] == xs[p.f.tortoiseCount + 1..n + 1]
    ensures QueueNext(p.queue + [xs[n]])(p.f.tortoise) == Some(xs[p.f.tortoiseCount + 1])
  {
  }

  /** The wrapped detector of one `Hare` call advances as a linear detector fed the same path. */
  lemma BranchStepDetector<T>(p: BranchingDetector<T>, xs: seq<T>, n: nat, grew: bool)
    requires p.f.Valid() && 1 <= n < |xs|
    requires PathReached(p, xs, n - 1) && p.f.ok
    ensures Reached(p.AfterHare(xs[n], grew).f, xs, n)
  {
    var q := p.queue + [xs[n]];
    QueueNextAnswersFront(p, xs, n);
    var w := p.f.(next := Some(QueueNext(q)));
    assert Reached(w, xs, n - 1);
    HareStepReached(w, xs, n);
    assert p.AfterHare(xs[n], grew).f == w.Hare(xs[n]).(next := Some(EmptyNext));
  }

  /** The queue of one `Hare` call from a live state still runs from past the tortoise up to the hare. */
  lemma BranchStepQueue<T>(p: BranchingDetector<T>, xs: seq<T>, n: nat, grew: bool)
    requires p.f.Valid() && 1 <= n < |xs|
    requires PathReached(p, xs, n - 1) && p.f.ok
    ensures var r := p.AfterHare(xs[n], grew);
      r.queue == xs[r.f.tortoiseCount + 1..r.f.hareCount + 1]
  {
    QueueNextAnswersFront(p, xs, n);
    var r := p.AfterHare(xs[n], grew);
    var t := p.f.tortoiseCount;
    if (n - 1) % 2 == 0 {
      assert r.f.tortoiseCount == t + 1 && r.queue == xs[t + 1..n + 1][1..];
    } else {
      assert r.f.tortoiseCount == t && r.queue == xs[t + 1..n + 1];
    }
  }

  /** One `Hare` call with the next path value, from the state after x_1..x_(n-1). */
  lemma BranchStepReached<T>(p: BranchingDetector<T>, xs: seq<T>, n: nat, grew: bool)
    requires p.f.Valid() && 1 <= n < |xs|
    requires PathReached(p, xs, n - 1)
    ensures PathReached(p.AfterHare(xs[n], grew), xs, n)
  {
    if !p.f.ok {
      StoppedStaysReached(p.f, xs, n - 1);
    } else {
      BranchStepDetector(p, xs, n, grew);
      BranchStepQueue(p, xs, n, grew);
    }
  }

  /** `BranchStepReached` for a value `r` known to be the result of the call. */
  lemma StepReachedAs<T>(p: BranchingDetector<T>, r: BranchingDetector<T>, xs: seq<T>, n: nat, grew: bool)
    requires p.f.Valid() && 1 <= n < |xs|
    requires PathReached(p, xs, n - 1) && r == p.AfterHare(xs[n], grew)
    ensures r.f.Valid() && PathReached(r, xs, n)
  {
    BranchStepReached(p, xs, n, grew);
  }

  /** Following x_1..x_n is following x_1..x_(n-1) and then x_n. */
  lemma BranchRunExtends<T>(b0: BranchingDetector<T>, xs: seq<T>, n: nat, grows: seq<bool>)
    requires 1 <= n < |xs| && n <= |grows| && b0.f.Valid()
    ensures BranchRun(b0, xs[1..n + 1], grows) == BranchRun(b0, xs[1..n], grows).AfterHare(xs[n], grows[n - 1])
  {
    assert xs[1..n + 1][..n - 1] == xs[1..n];
  }

  /** Extending the path by one value extends the reached state by one `Hare` call. */
  lemma BranchRunStep<T>(b0: BranchingDetector<T>, xs: seq<T>, n: nat, grows: seq<bool>)
    requires 1 <= n < |xs| && n <= |grows| && b0.f.Valid()
    requires PathReached(BranchRun(b0, xs[1..n], grows), xs, n - 1)
    ensures PathReached(BranchRun(b0, xs[1..n + 1], grows), xs, n)
  {
    var p := BranchRun(b0, xs[1..n], grows);
    var r := BranchRun(b0, xs[1..n + 1], grows);
    BranchRunExtends(b0, xs, n, grows);
    StepReachedAs(p, r, xs, n, grows[n - 1]);
  }

  /** The queue holds one value per two hare steps. */
  lemma QueueLength<T>(b: BranchingDetector<T>, xs: seq<T>, n: nat)
    requires b.f.Valid() && n < |xs| && PathReached(b, xs, n)
    ensures |b.queue| == b.f.hareCount / 2
  {
  }

  /**
   * The branching detector along one recursion path x_1..x_n from `start`: the state Floyd's first
   * phase describes, never `done`, the queue is x_(t+1)..x_h for tortoise count t and hare count h
   * (so it holds h / 2 values), and the wrapped step function is reset to `EmptyNext`.
   */
  lemma BranchingRun<T>(b0: BranchingDetector<T>, xs: seq<T>, n: nat, grows: seq<bool>)
    requires n < |xs| && n <= |grows|
    requires b0.f.IsInitial(xs[0]) && b0.queue == [] && b0.f.next == Some(EmptyNext)
    ensures PathReached(BranchRun(b0, xs[1..n + 1], grows), xs, n)
    ensures |BranchRun(b0, xs[1..n + 1], grows).queue| == BranchRun(b0, xs[1..n + 1], grows).f.hareCount / 2
  {
    BranchingPath(b0, xs, n, grows);
    QueueLength(BranchRun(b0, xs[1..n + 1], grows), xs, n);
  }

  /** The induction behind `BranchingRun`: the path state after x_1..x_n. */
  lemma {:induction false} BranchingPath<T>(b0: BranchingDetector<T>, xs: seq<T>, n: nat, grows: seq<bool>)
    requires n < |xs| && n <= |grows|
    requires b0.f.IsInitial(xs[0]) && b0.queue == [] && b0.f.next == Some(EmptyNext)
    ensures PathReached(BranchRun(b0, xs[1..n + 1], grows), xs, n)
    decreases n
  {
    if n == 0 {
      BranchRunStart(b0, xs, grows);
    } else {
      BranchingPath(b0, xs, n - 1, grows);
      BranchRunStep(b0, xs, n, grows);
    }
  }

  /** Before any call, a constructed branching detector is at the start of its path. */
  lemma BranchRunStart<T>(b0: BranchingDetector<T>, xs: seq<T>, grows: seq<bool>)
    requires 0 < |xs|
    requires b0.f.IsInitial(xs[0]) && b0.queue == [] && b0.f.next == Some(EmptyNext)
    ensures PathReached(BranchRun(b0, xs[1..1], grows), xs, 0)
  {
    assert xs[1..1] == [];
  }
}

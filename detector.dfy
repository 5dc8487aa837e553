/**
 * The linear cycle detector: an incremental encoding of the first phase of Floyd's
 * tortoise-and-hare algorithm as a value that every operation copies and returns.
 */
module Detectors {
  import opened Wrappers

  /** Why a constructor or setter refused its argument (Go panics with a message naming the function). */
  datatype Error = NilNext | NilCompare

  /**
   * The detector state. `next` and `compare` are the caller's capabilities; `None` models a nil
   * Go function value, which only a value built without the constructor can hold.
   */
  datatype Detector<!T> = Detector(
    next: Option<T -> Option<T>>,
    compare: Option<(T, T) -> bool>,
    tortoise: T,
    hare: T,
    ok: bool,
    done: bool,
    hareCount: nat,
    tortoiseCount: nat)
  {
    /** The check every Go method starts with: both capabilities are present. */
    predicate Valid() {
      next.Some? && compare.Some?
    }

    /** A state exactly as the constructor returns it. */
    ghost predicate IsInitial(start: T) {
      Valid() && tortoise == start && hare == start && ok && !done && hareCount == 0 && tortoiseCount == 0
    }

    /** A state in which no cycle has been seen and the step function has not run out. */
    predicate Active() {
      ok && !done
    }

    /** One call of the step capability. */
    function Advance(v: T): Option<T>
      requires Valid()
    {
      next.value(v)
    }

    /** One call of the compare capability, tortoise first. */
    function Matches(t: T, h: T): bool
      requires Valid()
    {
      compare.value(t, h)
    }

    function Ok(): bool
      requires Valid()
    {
      ok
    }

    function Done(): bool
      requires Valid()
    {
      done
    }

    function HareCount(): nat
      requires Valid()
    {
      hareCount
    }

    function TortoiseCount(): nat
      requires Valid()
    {
      tortoiseCount
    }

    /** Whether the state is still cycle-free after comparing tortoise and hare; a lost `ok` stays lost. */
    function Check(): (r: bool)
      requires Valid()
      ensures r ==> ok
      ensures ok ==> (r <==> !Matches(tortoise, hare))
    {
      if !ok then false else !Matches(tortoise, hare)
    }

    function SetNext(next': Option<T -> Option<T>>): (r: Result<Detector<T>, Error>)
      requires Valid()
      ensures r.Failure? <==> next'.None?
      ensures r.Failure? ==> r.error == NilNext
      ensures r.Success? ==> r.value == this.(next := next') && r.value.Valid()
    {
      if next'.None? then Failure(NilNext) else Success(this.(next := next'))
    }

    function SetCompare(compare': Option<(T, T) -> bool>): (r: Result<Detector<T>, Error>)
      requires Valid()
      ensures r.Failure? <==> compare'.None?
      ensures r.Failure? ==> r.error == NilCompare
      ensures r.Success? ==> r.value == this.(compare := compare') && r.value.Valid()
    {
      if compare'.None? then Failure(NilCompare) else Success(this.(compare := compare'))
    }

    /** Registers one hare value and compares when the new hare count is even. */
    function RegisterHare(step: T): (r: Detector<T>)
      requires Valid()
    {
      var g := this.(hare := step, hareCount := hareCount + 1);
      if g.hareCount % 2 == 0 then g.(ok := g.Check()) else g
    }

    /**
     * Moves the hare to the caller's `step`; on an even hare count the tortoise first takes one
     * step of its own through `next`, and a `next` that runs out only marks the state done.
     */
    function Hare(step: T): (r: Detector<T>)
      requires Valid()
      ensures r.Valid() && r.next == next && r.compare == compare
      ensures !Active() ==> r == this
      ensures r.ok ==> ok
      ensures done ==> r.done
      ensures Active() && hareCount % 2 == 0 && Advance(tortoise).None? ==> r == this.(done := true)
      ensures Active() && !(hareCount % 2 == 0 && Advance(tortoise).None?) ==>
        && !r.done
        && r.hare == step
        && r.hareCount == hareCount + 1
        && r.tortoise == (if hareCount % 2 == 0 then Advance(tortoise).value else tortoise)
        && r.tortoiseCount == (if hareCount % 2 == 0 then tortoiseCount + 1 else tortoiseCount)
        && (r.ok <==> r.hareCount % 2 == 1 || !Matches(r.tortoise, r.hare))
    {
      if !ok || done then this
      else if hareCount % 2 == 0 then
        match Advance(tortoise)
        case None => this.(done := true)
        case Some(t) => this.(tortoise := t, tortoiseCount := tortoiseCount + 1).RegisterHare(step)
      else
        RegisterHare(step)
    }

    /**
     * Sets the tortoise to `step` and drives the hare two steps through `next`, comparing at the end.
     * Whatever was done before `next` ran out is kept: the new tortoise, and a first hare step.
     */
    function TortoisePair(step: T): (r: Detector<T>)
      requires Valid()
      ensures r.Valid() && r.next == next && r.compare == compare
      ensures r.tortoise == step && r.tortoiseCount == tortoiseCount + 1
      ensures Advance(hare).None? ==>
        r == this.(tortoise := step, tortoiseCount := tortoiseCount + 1, done := true)
      ensures Advance(hare).Some? && Advance(Advance(hare).value).None? ==>
        r == this.(tortoise := step, tortoiseCount := tortoiseCount + 1,
                   hare := Advance(hare).value, hareCount := hareCount + 1, done := true)
      ensures Advance(hare).Some? && Advance(Advance(hare).value).Some? ==>
        && r.done == done
        && r.hare == Advance(Advance(hare).value).value
        && r.hareCount == hareCount + 2
        && (r.ok <==> ok && !Matches(step, r.hare))
    {
      var g := this.(tortoise := step, tortoiseCount := tortoiseCount + 1);
      match g.Advance(g.hare)
      case None => g.(done := true)
      case Some(h1) =>
        var g1 := g.(hare := h1, hareCount := g.hareCount + 1);
        match g1.Advance(h1)
        case None => g1.(done := true)
        case Some(h2) =>
          var g2 := g1.(hare := h2, hareCount := g1.hareCount + 1);
          g2.(ok := g2.Check())
    }

    /**
     * Moves the tortoise to the caller's `step` and the hare two steps through `next`. An odd hare
     * count left by an earlier `Hare` is first completed by one more hare step and a comparison,
     * which ends the call on a match.
     */
    function Tortoise(step: T): (r: Detector<T>)
      requires Valid()
      ensures r.Valid() && r.next == next && r.compare == compare
      ensures !Active() ==> r == this
      ensures r.ok ==> ok
      ensures done ==> r.done
      ensures Active() && hareCount % 2 == 0 ==> r == TortoisePair(step)
      ensures Active() && hareCount % 2 == 1 && Advance(hare).None? ==> r == this.(done := true)
      ensures Active() && hareCount % 2 == 1 && Advance(hare).Some? && Matches(tortoise, Advance(hare).value) ==>
        r == this.(hare := Advance(hare).value, hareCount := hareCount + 1, ok := false)
      ensures Active() && hareCount % 2 == 1 && Advance(hare).Some? && !Matches(tortoise, Advance(hare).value) ==>
        r == this.(hare := Advance(hare).value, hareCount := hareCount + 1).TortoisePair(step)
    {
      if !ok || done then this
      else if hareCount % 2 != 0 then
        match Advance(hare)
        case None => this.(done := true)
        case Some(h) =>
          var g := this.(hare := h, hareCount := hareCount + 1);
          var g' := g.(ok := g.Check());
          if !g'.ok then g' else g'.TortoisePair(step)
      else
        TortoisePair(step)
    }
  }

  /** The default comparison: plain equality. */
  function CompareEquality<T(==)>(a: T, b: T): bool {
    a == b
  }

  /**
   * Builds a detector at `start`; a missing `next` is refused and a missing `compare`
   * falls back to equality.
   */
  function NewDetector<T(==)>(start: T, next: Option<T -> Option<T>>, compare: Option<(T, T) -> bool>)
    : (r: Result<Detector<T>, Error>)
    ensures r.Failure? <==> next.None?
    ensures r.Failure? ==> r.error == NilNext
    ensures r.Success? ==> r.value.IsInitial(start) && r.value.next == next
    ensures r.Success? && compare.Some? ==> r.value.compare == compare
    ensures r.Success? && compare.None? ==> r.value.compare == Some(CompareEquality)
  {
    if next.None? then Failure(NilNext)
    else
      var cmp := if compare.Some? then compare.value else CompareEquality;
      Success(Detector(next, Some(cmp), start, start, true, false, 0, 0))
  }

  /** Without a caller-supplied compare, a constructed detector reports a match exactly for equal values. */
  lemma DefaultCompareIsEquality<T>(start: T, next: T -> Option<T>, a: T, b: T)
    ensures NewDetector(start, Some(next), None).Success?
    ensures NewDetector(start, Some(next), None).value.Matches(a, b) <==> a == b
  {
  }
}

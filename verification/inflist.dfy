/** `infList(slice(start, stop, step))` (inflist.py:2-7): starting from
    `start`, step and yield the new value for as long as `stop` lies ahead of
    the value before the step. The start itself is never yielded, and the
    last value may reach or pass `stop`. */
module InfList {

  /** `stop` lies ahead of v in the direction of travel: `stop > v` for a
      positive step, `stop < v` otherwise (a zero step uses `<`). */
  predicate Ahead(stop: int, v: int, step: int)
  {
    if step > 0 then stop > v else stop < v
  }

  /** The loop from value v: the k-th value is v + (k+1)*step, and it is
      yielded exactly when `stop` still lay ahead of v + k*step. A zero step
      never moves, so it is a finite loop only when `stop < v` fails at
      once. */
  function From(v: int, stop: int, step: int): (r: seq<int>)
    requires step != 0 || stop >= v
    ensures forall k :: 0 <= k < |r| ==> r[k] == v + (k + 1) * step
    ensures forall k: nat :: k < |r| <==> Ahead(stop, v + k * step, step)
    decreases if step > 0 then stop - v else v - stop
  {
    if Ahead(stop, v, step) then
      var t := From(v + step, stop, step);
      OneMore(v, stop, step, t, [v + step] + t);
      [v + step] + t
    else
      NeverAhead(v, stop, step);
      []
  }

  /** `infList(slice(start, stop, step))`: start + step, start + 2*step,
      ..., the (k+1)-th of them yielded exactly when start + k*step had not
      reached stop. */
  function Values(start: int, stop: int, step: int): (r: seq<int>)
    requires step != 0 || stop >= start
    ensures forall k :: 0 <= k < |r| ==> r[k] == start + (k + 1) * step
    ensures forall k: nat :: k < |r| <==> Ahead(stop, start + k * step, step)
  {
    From(start, stop, step)
  }

  lemma Step(v: int, k: int, step: int)
    ensures v + step + k * step == v + (k + 1) * step
  {
  }

  /** One step of the loop: prefixing the next value to the loop from it. */
  lemma OneMore(v: int, stop: int, step: int, t: seq<int>, r: seq<int>)
    requires Ahead(stop, v, step) && r == [v + step] + t
    requires forall k :: 0 <= k < |t| ==> t[k] == v + step + (k + 1) * step
    requires forall k: nat :: k < |t| <==> Ahead(stop, v + step + k * step, step)
    ensures forall k :: 0 <= k < |r| ==> r[k] == v + (k + 1) * step
    ensures forall k: nat :: k < |r| <==> Ahead(stop, v + k * step, step)
  {
    var w := v + step;
    forall k | 0 <= k < |r| ensures r[k] == v + (k + 1) * step {
      if k > 0 {
        Step(v, k, step);
      }
    }
    forall k: nat ensures k < |r| <==> Ahead(stop, v + k * step, step) {
      if k > 0 {
        Step(v, k - 1, step);
        assert k - 1 < |t| <==> Ahead(stop, w + (k - 1) * step, step);
      }
    }
  }

  /** Once stop is not ahead, it never is again. */
  lemma NeverAhead(v: int, stop: int, step: int)
    requires !Ahead(stop, v, step)
    ensures forall k: nat :: !Ahead(stop, v + k * step, step)
  {
    forall k: nat ensures !Ahead(stop, v + k * step, step) {
      Reach(v, step, k);
    }
  }

  /** Moving in the step's direction only takes v further past stop. */
  lemma Reach(v: int, step: int, k: nat)
    ensures step > 0 ==> v <= v + k * step
    ensures step <= 0 ==> v + k * step <= v
  {
    if step > 0 {
      assert k * step >= 0;
    } else {
      assert k * step <= 0;
    }
  }

  /** Nothing is yielded when `stop` does not lie ahead of the start; in
      particular for a zero step. */
  lemma ValuesEmpty(start: int, stop: int, step: int)
    requires step != 0 || stop >= start
    ensures Values(start, stop, step) == [] <==> !Ahead(stop, start, step)
  {
  }

  /** Every value but the last is still short of stop; the last has
      reached or passed it. */
  lemma ValuesBounds(start: int, stop: int, step: int)
    requires step != 0
    ensures var r := Values(start, stop, step);
      forall k :: 0 <= k < |r| - 1 ==> Ahead(stop, r[k], step)
    ensures var r := Values(start, stop, step);
      |r| > 0 ==> !Ahead(stop, r[|r| - 1], step)
  {
    var r := Values(start, stop, step);
    forall k | 0 <= k < |r| - 1 ensures Ahead(stop, r[k], step) {
      assert k + 1 < |r|;
    }
    if |r| > 0 {
      assert !(|r| < |r|);
    }
  }

  /** A negative step mirrors a positive one: the values are the negated
      values of the mirrored progression. */
  lemma {:induction false} Mirror(v: int, stop: int, step: int)
    requires step < 0
    ensures |From(v, stop, step)| == |From(-v, -stop, -step)|
    ensures forall k :: 0 <= k < |From(v, stop, step)| ==> From(v, stop, step)[k] == -From(-v, -stop, -step)[k]
    decreases v - stop
  {
    if Ahead(stop, v, step) {
      Mirror(v + step, stop, step);
      assert -v + -step == -(v + step);
    }
  }
}

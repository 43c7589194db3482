/**
 * The range generator `arange` of the matrix header: the values `start`,
 * `start + step`, `start + 2 * step`, ... up to and including `end`.
 */
module Ranges {
  import opened Grids

  /** How many values the range holds when `start < end` and the step is positive. */
  function Count(start: int, end: int, step: int): nat
    requires start < end && 0 < step
  {
    (end - start) / step + 1
  }

  /** The values of the range, in the order they are produced. */
  function Values(start: int, end: int, step: int): seq<int>
    requires start < end && 0 < step
  {
    seq(Count(start, end, step), k requires 0 <= k => start + k * step)
  }

  /** For a positive divisor, `a` steps of `b` fit in `c` exactly when `a` is at most `c / b`. */
  lemma DivBound(a: nat, b: int, c: nat)
    requires 0 < b
    ensures a * b <= c <==> a <= c / b
  {
    var q, r := c / b, c % b;
    assert c == q * b + r && 0 <= r < b;
    if a <= q {
      assert (q - a) * b >= 0;
    } else {
      assert (a - (q + 1)) * b >= 0;
    }
  }

  /** The range starts at `start`, rises by `step` and never passes `end`. */
  lemma ValuesIncreasing(start: int, end: int, step: int)
    requires start < end && 0 < step
    ensures Values(start, end, step)[0] == start
    ensures forall k :: 0 <= k < |Values(start, end, step)| - 1 ==>
      Values(start, end, step)[k + 1] == Values(start, end, step)[k] + step
    ensures forall k :: 0 <= k < |Values(start, end, step)| ==> Values(start, end, step)[k] <= end
  {
    var v := Values(start, end, step);
    forall k | 0 <= k < |v|
      ensures v[k] <= end
    {
      DivBound(k, step, end - start);
    }
  }

  /** The range stops at the last step that fits: one more step would pass `end`. */
  lemma ValuesMaximal(start: int, end: int, step: int)
    requires start < end && 0 < step
    ensures Values(start, end, step)[|Values(start, end, step)| - 1] + step > end
  {
    DivBound(Count(start, end, step), step, end - start);
  }

  /** A whole number of steps divides by the step without remainder. */
  lemma MulDivExact(k: nat, step: int)
    requires 0 < step
    ensures (k * step) / step == k && (k * step) % step == 0
  {
    var q, r := (k * step) / step, (k * step) % step;
    assert (k - q) * step == r && 0 <= r < step;
    // a nonzero k - q would make the remainder at least `step` or negative
    if k - q >= 1 {
      assert false;
    } else if k - q <= -1 {
      assert false;
    }
  }

  /** Every value of the range lies between `start` and `end` on a step boundary. */
  lemma ValuesOnGrid(start: int, end: int, step: int, k: nat)
    requires start < end && 0 < step && k < Count(start, end, step)
    ensures start <= Values(start, end, step)[k] <= end
    ensures (Values(start, end, step)[k] - start) % step == 0
  {
    DivBound(k, step, end - start);
    MulDivExact(k, step);
  }

  /** Every number between `start` and `end` on a step boundary is in the range. */
  lemma ValuesCoverGrid(start: int, end: int, step: int, x: int)
    requires start < end && 0 < step
    requires start <= x <= end && (x - start) % step == 0
    ensures x in Values(start, end, step)
  {
    var k := (x - start) / step;
    assert k * step == x - start;
    DivBound(k, step, end - start);
    assert Values(start, end, step)[k] == x;
  }

  /** A number is in the range exactly when it lies between `start` and `end` on a step boundary. */
  lemma ValuesMembership(start: int, end: int, step: int, x: int)
    requires start < end && 0 < step
    ensures x in Values(start, end, step) <==> start <= x <= end && (x - start) % step == 0
  {
    var v := Values(start, end, step);
    if x in v {
      var k :| 0 <= k < |v| && v[k] == x;
      ValuesOnGrid(start, end, step, k);
    } else if start <= x <= end && (x - start) % step == 0 {
      ValuesCoverGrid(start, end, step, x);
    }
  }

  /** `arange(0, 10, 2)` holds the six values 0, 2, 4, 6, 8 and 10. */
  lemma ValuesExample()
    ensures Values(0, 10, 2) == [0, 2, 4, 6, 8, 10]
  {
    assert Count(0, 10, 2) == 6;
  }

  /**
   * The range as a fresh buffer of reals, or None when `start >= end`. A zero
   * step makes the header divide by zero when it sizes the buffer; a negative
   * start or step makes its unsigned loop counter wrap around. Both are left
   * to the caller.
   */
  method ARange(start: int, end: int, step: int) returns (r: Option<array<real>>)
    requires start < end ==> 0 <= start && 0 < step
    ensures r.None? <==> start >= end
    ensures r.Some? ==> fresh(r.value) && r.value.Length == Count(start, end, step)
    ensures r.Some? ==> forall k :: 0 <= k < r.value.Length ==> r.value[k] == Values(start, end, step)[k] as real
  {
    if start >= end {
      return None;
    }
    var n := Count(start, end, step);
    var marange := new real[n];
    var idx := 0;
    var i := start;
    while i <= end
      invariant 0 <= idx <= n
      invariant i == start + idx * step
      invariant forall k :: 0 <= k < idx ==> marange[k] == (start + k * step) as real
      decreases end - i
    {
      DivBound(idx, step, end - start);
      marange[idx] := i as real;
      idx := idx + 1;
      i := i + step;
    }
    DivBound(idx, step, end - start);
    r := Some(marange);
  }

  /** The buffer size the header allocates: `(start + end) / step` slots. */
  function CapacityAsWritten(start: int, end: int, step: int): int
    requires 0 <= start && 0 <= end && 0 < step
  {
    (start + end) / step
  }

  /** Starting from zero, the header's buffer is one slot short of the values it writes. */
  lemma CapacityTooSmall(end: int, step: int)
    requires 0 < end && 0 < step
    ensures CapacityAsWritten(0, end, step) < Count(0, end, step)
    ensures CapacityAsWritten(0, 10, 2) == 5 && Count(0, 10, 2) == 6
  {
  }
}

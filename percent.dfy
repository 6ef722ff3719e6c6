/**
 * `contentTotalDonePercent = Math.floor(done / estimated * 100)`, on exact
 * integers: as the expression evaluates in JavaScript, and with the
 * zero-estimated case given a number.
 */
module Percent {

  /** The JavaScript numbers the expression can evaluate to. */
  datatype JsNumber = Finite(value: int) | NaN | PositiveInfinity

  /**
   * The expression as written: `0 / 0` is NaN, `d / 0` with `d > 0` is
   * Infinity, and `Math.floor` keeps both; otherwise the floor of the
   * exact quotient times 100.
   */
  function DonePercentAsWritten(done: nat, estimated: nat): (r: JsNumber)
    ensures r.Finite? <==> estimated > 0
    ensures r.Finite? ==> r.value * estimated <= done * 100 < (r.value + 1) * estimated
  {
    if estimated == 0 then (if done == 0 then NaN else PositiveInfinity)
    else Finite(done * 100 / estimated)
  }

  /** A lesson without estimated items yields no number at all. */
  lemma NoEstimatedItemsIsNotANumber(done: nat)
    ensures DonePercentAsWritten(done, 0) == (if done == 0 then NaN else PositiveInfinity)
    ensures !DonePercentAsWritten(done, 0).Finite?
  {
  }

  /**
   * `percent` is the whole percentage of `done` over `estimated`: the
   * largest whole number not above `done / estimated * 100`, and 0 when
   * nothing is estimated.
   */
  ghost predicate IsDonePercent(percent: int, done: nat, estimated: nat)
  {
    && (estimated == 0 ==> percent == 0)
    && (estimated > 0 ==> percent * estimated <= done * 100 < (percent + 1) * estimated)
  }

  /**
   * The percentage with an explicit policy for a lesson without estimated
   * items: 0%. Otherwise it is the largest whole percentage not above
   * `done / estimated`.
   */
  function DonePercent(done: nat, estimated: nat): (p: nat)
    ensures IsDonePercent(p, done, estimated)
  {
    if estimated == 0 then 0 else done * 100 / estimated
  }

  /** Wherever the expression as written yields a number, the corrected one yields the same. */
  lemma DonePercentAgrees(done: nat, estimated: nat)
    requires estimated > 0
    ensures DonePercentAsWritten(done, estimated) == Finite(DonePercent(done, estimated))
  {
  }

  /** Nothing done is 0%, all estimated items done is 100%, and at most all of them is at most 100%. */
  lemma DonePercentBounds(done: nat, estimated: nat)
    ensures done == 0 ==> DonePercent(done, estimated) == 0
    ensures done == estimated > 0 ==> DonePercent(done, estimated) == 100
    ensures done <= estimated ==> DonePercent(done, estimated) <= 100
  {
  }

  /** The percentage never decreases as more items are done. */
  lemma DonePercentMonotone(done: nat, more: nat, estimated: nat)
    requires done <= more
    ensures DonePercent(done, estimated) <= DonePercent(more, estimated)
  {
    if estimated > 0 {
      var p, q := DonePercent(done, estimated), DonePercent(more, estimated);
      if p > q {
        MulMonotone(q + 1, p, estimated);
        assert false;
      }
    }
  }

  /** The floor relation pins the percentage down: no other number satisfies it. */
  lemma {:induction false} DonePercentUnique(done: nat, estimated: nat, p: int)
    requires IsDonePercent(p, done, estimated)
    ensures p == DonePercent(done, estimated)
  {
    var q := DonePercent(done, estimated);
    if estimated == 0 {
    } else if p < q {
      MulMonotone(p + 1, q, estimated);
      assert false;
    } else if p > q {
      MulMonotone(q + 1, p, estimated);
      assert false;
    }
  }

  lemma MulMonotone(a: int, b: int, c: nat)
    requires a <= b
    ensures a * c <= b * c
  {
  }
}

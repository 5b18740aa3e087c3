/** Expansion of one bmk-space entry's concurrency range into the values the
    benchmark runs at: start at `conc-start`, multiply by the step size, and
    clamp an overshoot to `conc-end`, which is always the last value
    (get_test_sweep_configs.py, lines 118-145). */
module Concurrency {

  /** The ranges whose loop (lines 118-145) is modelled: empty or a single
      value, or starting positive with a step that really grows it. For
      `step >= 1` this is exactly when the loop stops: a step of 1, or a
      range with `start <= 0 < end` or `start < end <= 0`, repeats or
      decreases forever. Some ranges with `step <= 0` stop too, by
      alternating sign or reaching 0, and are left out. */
  predicate Terminates(start: int, end: int, step: int) {
    start >= end || (start >= 1 && step >= 2)
  }

  /** The value after `conc`: its product with the step, clamped to `end`. */
  function Next(conc: int, end: int, step: int): int {
    if conc * step > end then end else conc * step
  }

  /** A step from inside a terminating range moves strictly up and stays in range. */
  lemma NextGrows(conc: int, end: int, step: int)
    requires Terminates(conc, end, step) && conc < end
    ensures conc < Next(conc, end, step) <= end
    ensures Terminates(Next(conc, end, step), end, step)
  {
    var k := step - 2;
    assert conc * step == conc * 2 + conc * k;
    assert conc * k >= 0;
  }

  predicate Increasing(s: seq<int>) {
    forall i, j :: 0 <= i < j < |s| ==> s[i] < s[j]
  }

  /** The concurrency values emitted for one entry, in emission order. */
  function ConcSweep(conc: int, end: int, step: int): (r: seq<int>)
    requires Terminates(conc, end, step)
    ensures |r| == 0 <==> conc > end
    ensures |r| > 0 ==> r[0] == conc && r[|r| - 1] == end
    decreases end - conc
  {
    if conc > end then []
    else if conc == end then [conc]
    else
      NextGrows(conc, end, step);
      [conc] + ConcSweep(Next(conc, end, step), end, step)
  }

  /** The sweep stays within `[conc, end]`, strictly increases, and so
      reaches `end` only at its last value: nothing follows `end`. */
  lemma {:induction false} SweepShape(conc: int, end: int, step: int)
    requires Terminates(conc, end, step)
    ensures forall i :: 0 <= i < |ConcSweep(conc, end, step)| ==> conc <= ConcSweep(conc, end, step)[i] <= end
    ensures Increasing(ConcSweep(conc, end, step))
    ensures forall i :: 0 <= i < |ConcSweep(conc, end, step)| && ConcSweep(conc, end, step)[i] == end ==>
              i == |ConcSweep(conc, end, step)| - 1
    decreases end - conc
  {
    var r := ConcSweep(conc, end, step);
    if conc < end {
      var next := Next(conc, end, step);
      NextGrows(conc, end, step);
      SweepShape(next, end, step);
      var rest := ConcSweep(next, end, step);
      assert r == [conc] + rest;
      assert forall i :: 0 < i < |r| ==> r[i] == rest[i - 1];
    }
  }

  /** One turn of the loop: a range that is not yet exhausted emits its
      start and continues from the next value. */
  lemma SweepUnfold(conc: int, end: int, step: int)
    requires Terminates(conc, end, step) && conc < end
    ensures ConcSweep(conc, end, step) == [conc] + ConcSweep(Next(conc, end, step), end, step)
    ensures conc < Next(conc, end, step) <= end && Terminates(Next(conc, end, step), end, step)
  {
    NextGrows(conc, end, step);
  }

  /** A range that starts at its end has exactly one value. */
  lemma SingleValueRange(conc: int, step: int)
    ensures ConcSweep(conc, conc, step) == [conc]
  {
  }

  /** Each value after the first is its predecessor times the step, or
      `end` when that product overshoots. */
  predicate Geometric(r: seq<int>, end: int, step: int) {
    forall i :: 0 < i < |r| ==> r[i] == Next(r[i - 1], end, step)
  }

  lemma {:induction false} SweepSteps(conc: int, end: int, step: int)
    requires Terminates(conc, end, step)
    ensures Geometric(ConcSweep(conc, end, step), end, step)
    decreases end - conc
  {
    if conc < end {
      var next := Next(conc, end, step);
      NextGrows(conc, end, step);
      SweepSteps(next, end, step);
      var r := ConcSweep(conc, end, step);
      var rest := ConcSweep(next, end, step);
      assert r == [conc] + rest;
      forall i | 0 < i < |r|
        ensures r[i] == Next(r[i - 1], end, step)
      {
        if i > 1 {
          assert r[i] == rest[i - 1] && r[i - 1] == rest[i - 2];
        }
      }
    }
  }

  function Pow(b: int, n: nat): int {
    if n == 0 then 1 else b * Pow(b, n - 1)
  }

  function Min(a: int, b: int): int {
    if a <= b then a else b
  }

  lemma PowStep(conc: int, step: int, i: nat)
    ensures (conc * step) * Pow(step, i) == conc * Pow(step, i + 1)
  {
    assert Pow(step, i + 1) == step * Pow(step, i);
    assert (conc * step) * Pow(step, i) == conc * (step * Pow(step, i));
  }

  /** `r` is the sweep from `conc` to `end` in closed form: the `i`-th value
      is `conc * step^i` clamped to `end`, and `r` is exactly as long as it
      takes that product to reach `end`. These determine `r` completely. */
  predicate ClosedForm(r: seq<int>, conc: int, end: int, step: int) {
    && |r| > 0
    && (forall i :: 0 <= i < |r| ==> r[i] == Min(conc * Pow(step, i), end))
    && (forall i :: 0 <= i < |r| - 1 ==> conc * Pow(step, i) < end)
    && conc * Pow(step, |r| - 1) >= end
  }

  lemma {:induction false} SweepClosedForm(conc: int, end: int, step: int)
    requires Terminates(conc, end, step) && conc <= end
    ensures ClosedForm(ConcSweep(conc, end, step), conc, end, step)
    decreases end - conc
  {
    var r := ConcSweep(conc, end, step);
    if conc < end {
      var next := Next(conc, end, step);
      NextGrows(conc, end, step);
      var rest := ConcSweep(next, end, step);
      assert r == [conc] + rest;
      SweepClosedForm(next, end, step);
      if conc * step >= end {
        assert rest == [end];
        assert Pow(step, 1) == step;
      } else {
        forall i | 0 <= i < |r|
          ensures r[i] == Min(conc * Pow(step, i), end)
        {
          if i > 0 {
            assert r[i] == rest[i - 1];
            PowStep(conc, step, i - 1);
          }
        }
        forall i | 0 <= i < |r| - 1
          ensures conc * Pow(step, i) < end
        {
          if i > 0 {
            PowStep(conc, step, i - 1);
          }
        }
        PowStep(conc, step, |r| - 2);
      }
    }
  }

  /** Conversely, the closed form admits only the sweep itself. */
  lemma ClosedFormUnique(r: seq<int>, conc: int, end: int, step: int)
    requires Terminates(conc, end, step) && conc <= end
    requires ClosedForm(r, conc, end, step)
    ensures r == ConcSweep(conc, end, step)
  {
    var s := ConcSweep(conc, end, step);
    SweepClosedForm(conc, end, step);
    assert |r| == |s|;
  }

  /** The loop of lines 118-145 as written, with its early `break`. */
  method SweepLoop(start: int, end: int, step: int) returns (values: seq<int>)
    requires Terminates(start, end, step)
    ensures values == ConcSweep(start, end, step)
  {
    values := [];
    var conc := start;
    while conc <= end
      invariant Terminates(conc, end, step)
      invariant values + ConcSweep(conc, end, step) == ConcSweep(start, end, step)
      decreases end - conc
    {
      ghost var before := values;
      values := values + [conc];
      if conc == end {
        assert ConcSweep(conc, end, step) == [conc];
        break;
      }
      SweepUnfold(conc, end, step);
      ghost var rest := ConcSweep(Next(conc, end, step), end, step);
      assert values + rest == before + ([conc] + rest);
      conc := conc * step;
      if conc > end {
        conc := end;
      }
    }
  }

  /** Worked examples: a doubling sweep, a clamped overshoot, a single value and an empty range. */
  lemma WorkedExamples()
    ensures ConcSweep(2, 16, 2) == [2, 4, 8, 16]
    ensures ConcSweep(3, 10, 2) == [3, 6, 10]
    ensures ConcSweep(5, 5, 2) == [5]
    ensures ConcSweep(6, 5, 2) == []
  {
  }
}

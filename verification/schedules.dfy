/** The two schedules of the training loop (ai/ai_trainer.py): the
    exploration rate, lowered once per episode but never below its floor, and
    the steps at which the online estimator's weights are copied into the
    target estimator. */
module Schedules {
  import opened Results

  /** The exploration rate for the next episode: the current one times the
      decay, but at least the floor. */
  function NextEpsilon(epsilon: real, decay: real, minEpsilon: real): (e: real)
    ensures e >= minEpsilon && e >= epsilon * decay
    ensures e == minEpsilon || e == epsilon * decay
  {
    if minEpsilon >= epsilon * decay then minEpsilon else epsilon * decay
  }

  /** The exploration rate of episode `n` (counting from zero), starting from
      `epsilon0`: the update is applied before every episode, the first one
      included. */
  function EpsilonAt(epsilon0: real, decay: real, minEpsilon: real, n: nat): (e: real)
    ensures e >= minEpsilon
  {
    var before := if n == 0 then epsilon0 else EpsilonAt(epsilon0, decay, minEpsilon, n - 1);
    NextEpsilon(before, decay, minEpsilon)
  }

  /** `epsilon0` multiplied by `decay` `n` times. */
  function Decayed(epsilon0: real, decay: real, n: nat): real
  {
    if n == 0 then epsilon0 else Decayed(epsilon0, decay, n - 1) * decay
  }

  function MaxReal(a: real, b: real): real
  {
    if a >= b then a else b
  }

  /** For a decay in [0, 1] and a non-negative floor, the schedule is the
      plain geometric decay cut off at the floor. */
  lemma {:induction false} EpsilonClosedForm(epsilon0: real, decay: real, minEpsilon: real, n: nat)
    requires 0.0 <= decay <= 1.0 && minEpsilon >= 0.0
    ensures EpsilonAt(epsilon0, decay, minEpsilon, n) == MaxReal(minEpsilon, Decayed(epsilon0, decay, n + 1))
  {
    if n == 0 {
      EpsilonBase(epsilon0, decay, minEpsilon);
    } else {
      EpsilonClosedForm(epsilon0, decay, minEpsilon, n - 1);
      DecayedStep(epsilon0, decay, n);
      StepClosed(EpsilonAt(epsilon0, decay, minEpsilon, n - 1), Decayed(epsilon0, decay, n),
                 Decayed(epsilon0, decay, n + 1), decay, minEpsilon);
    }
  }

  /** The base case of the closed form: the first update decays once. */
  lemma EpsilonBase(epsilon0: real, decay: real, minEpsilon: real)
    ensures EpsilonAt(epsilon0, decay, minEpsilon, 0) == MaxReal(minEpsilon, Decayed(epsilon0, decay, 1))
  {
  }

  /** The induction step of the closed form, over plain values. */
  lemma StepClosed(previous: real, g: real, x: real, decay: real, minEpsilon: real)
    requires 0.0 <= decay <= 1.0 && minEpsilon >= 0.0
    requires previous == MaxReal(minEpsilon, g) && x == g * decay
    ensures NextEpsilon(previous, decay, minEpsilon) == MaxReal(minEpsilon, x)
  {
    NextOfFloored(g, decay, minEpsilon);
  }

  /** One more update of a rate already cut off at the floor is the decayed
      rate cut off at the floor. */
  lemma NextOfFloored(g: real, decay: real, minEpsilon: real)
    requires 0.0 <= decay <= 1.0 && minEpsilon >= 0.0
    ensures NextEpsilon(MaxReal(minEpsilon, g), decay, minEpsilon) == MaxReal(minEpsilon, g * decay)
  {
    NextIsMax(MaxReal(minEpsilon, g), decay, minEpsilon);
    ScaleMax(minEpsilon, g, decay);
    ScaleBelow(minEpsilon, decay);
    MaxAbsorbs(minEpsilon, minEpsilon * decay, g * decay);
  }

  lemma DecayedStep(epsilon0: real, decay: real, n: nat)
    ensures Decayed(epsilon0, decay, n + 1) == Decayed(epsilon0, decay, n) * decay
  {
  }

  lemma NextIsMax(e: real, d: real, m: real)
    ensures NextEpsilon(e, d, m) == MaxReal(m, e * d)
  {
  }

  lemma MaxAbsorbs(m: real, a: real, b: real)
    requires a <= m
    ensures MaxReal(m, MaxReal(a, b)) == MaxReal(m, b)
  {
  }

  /** Scaling by a non-negative factor distributes over the larger of two. */
  lemma ScaleMax(a: real, b: real, d: real)
    requires d >= 0.0
    ensures MaxReal(a, b) * d == MaxReal(a * d, b * d)
  {
    if a >= b {
      MonotoneScale(b, a, d);
    } else {
      MonotoneScale(a, b, d);
    }
  }

  lemma MonotoneScale(lo: real, hi: real, d: real)
    requires lo <= hi && d >= 0.0
    ensures lo * d <= hi * d
  {
    assert hi * d - lo * d == (hi - lo) * d;
  }

  /** A non-negative floor scaled by a factor in [0, 1] stays below the floor. */
  lemma ScaleBelow(m: real, d: real)
    requires m >= 0.0 && 0.0 <= d <= 1.0
    ensures m * d <= m
  {
    MonotoneScale(d, 1.0, m);
  }

  /** Whether the target estimator is overwritten after the given step of an
      episode: the step count is a multiple of `copyStep`. A zero `copyStep`
      fails, as taking a remainder by zero does. */
  function ShouldCopy(iteration: int, copyStep: int): (r: Result<bool>)
    ensures r.Err? <==> copyStep == 0
    ensures r.Err? ==> r.error == DivisionByZero
    ensures r.Ok? ==> (r.value <==> iteration == (iteration / copyStep) * copyStep)
  {
    if copyStep == 0 then Err(DivisionByZero) else Ok(iteration % copyStep == 0)
  }

  /** The steps 1..n of an episode after which the weights are copied. */
  function CopySteps(n: nat, copyStep: int): (steps: seq<nat>)
    requires copyStep != 0
    ensures forall k :: 0 <= k < |steps| ==> 1 <= steps[k] <= n
    ensures forall j, k :: 0 <= j < k < |steps| ==> steps[j] < steps[k]
  {
    if n == 0 then []
    else CopySteps(n - 1, copyStep) + (if ShouldCopy(n, copyStep).value then [n] else [])
  }

  /** Copies happen exactly at the multiples of `copyStep`. */
  lemma {:induction false} CopyStepsAreMultiples(n: nat, copyStep: int, k: nat)
    requires copyStep != 0
    ensures k in CopySteps(n, copyStep) <==> 1 <= k <= n && k % copyStep == 0
  {
    if n > 0 {
      CopyStepsAreMultiples(n - 1, copyStep, k);
    }
  }

  /** In an episode of `n` steps the weights are copied `n / copyStep` times. */
  lemma {:induction false} CopyCount(n: nat, copyStep: nat)
    requires copyStep > 0
    ensures |CopySteps(n, copyStep)| == n / copyStep
  {
    if n > 0 {
      CopyCount(n - 1, copyStep);
      DivStep(n, copyStep);
    }
  }

  /** The step count restarts with every episode, so an episode shorter than
      `copyStep` never copies the weights. */
  lemma ShortEpisodeNeverCopies(n: nat, copyStep: nat)
    requires 0 < copyStep && n < copyStep
    ensures CopySteps(n, copyStep) == []
  {
    CopyCount(n, copyStep);
  }

  /** Stepping a numerator by one raises the quotient exactly when the new
      numerator is a multiple. */
  lemma DivStep(n: nat, c: nat)
    requires n >= 1 && c > 0
    ensures n / c == (n - 1) / c + (if n % c == 0 then 1 else 0)
  {
    var q := (n - 1) / c;
    var r := (n - 1) % c;
    assert n - 1 == q * c + r && 0 <= r < c;
    if r == c - 1 {
      assert n == (q + 1) * c + 0;
      DivUnique(n, c, q + 1, 0);
    } else {
      assert n == q * c + (r + 1);
      DivUnique(n, c, q, r + 1);
    }
  }

  lemma DivUnique(n: int, c: int, q: int, r: int)
    requires c > 0 && 0 <= r < c && n == q * c + r
    ensures n / c == q && n % c == r
  {
    var q' := n / c;
    var r' := n % c;
    assert n == q' * c + r' && 0 <= r' < c;
    if q' > q {
      MulAtLeast(q' - q, c);
    } else if q' < q {
      MulAtLeast(q - q', c);
    }
  }

  lemma MulAtLeast(a: int, c: int)
    requires a >= 1 && c > 0
    ensures a * c >= c
  {
    assert a * c == (a - 1) * c + c;
    assert (a - 1) * c >= 0;
  }
}

/** One swept field of range mode (app/pktgen-range.c:27-229) and what its values do over time. */
module RangeCycle {
  import opened Arithmetic

  /** The configured start, bounds and increment of a field. */
  datatype Span = Span(start: nat, min: nat, max: nat, inc: nat)

  /** The next value of a field held in a temporary of `modulus` values. */
  function Next(s: Span, modulus: nat, v: nat): nat
    requires modulus > 0
  {
    if s.inc == 0 then s.start
    else
      var p := (v + s.inc) % modulus;
      if p < s.min then s.max else if p > s.max then s.min else p
  }

  /** The bounds and the increment fit the temporary; the bounds are in order. */
  ghost predicate Swept(s: Span, modulus: nat) {
    0 < s.inc < modulus && s.min <= s.max < modulus
  }

  /** The value after k packets. */
  function Run(s: Span, modulus: nat, v: nat, k: nat): nat
    requires modulus > 0
  {
    if k == 0 then v else Next(s, modulus, Run(s, modulus, v, k - 1))
  }

  /** From the first packet on, a swept field is within its bounds, whatever wraps. */
  lemma StaysInBounds(s: Span, modulus: nat, v: nat, k: nat)
    requires Swept(s, modulus) && k > 0
    ensures s.min <= Run(s, modulus, v, k) <= s.max
  {
    assert Run(s, modulus, v, k) == Next(s, modulus, Run(s, modulus, v, k - 1));
  }

  /** A field without an increment is its start from the first packet on, whatever it held. */
  lemma FixedFromTheFirst(s: Span, modulus: nat, v: nat, k: nat)
    requires modulus > 0 && s.inc == 0 && k > 0
    ensures Run(s, modulus, v, k) == s.start
  {
    assert Run(s, modulus, v, k) == Next(s, modulus, Run(s, modulus, v, k - 1));
  }

  /** The number of grid values min, min + inc, ... up to max. */
  function Period(s: Span): (p: nat)
    ensures p > 0
  {
    if s.inc == 0 || s.max < s.min then 1 else (s.max - s.min) / s.inc + 1
  }

  function Grid(s: Span, j: nat): nat {
    s.min + j * s.inc
  }

  lemma GridBounds(s: Span, modulus: nat, j: nat)
    requires Swept(s, modulus)
    ensures j < Period(s) ==> Grid(s, j) <= s.max
    ensures j >= Period(s) ==> Grid(s, j) > s.max
  {
    var d := s.max - s.min;
    var q := d / s.inc;
    assert d == s.inc * q + d % s.inc;
    if j <= q {
      ScaleNat(j, q, s.inc);
    } else {
      ScaleNat(q + 1, j, s.inc);
      assert (q + 1) * s.inc == s.inc * q + s.inc;
    }
  }

  /** Stepping walks the grid and goes from its last value back to the first. */
  ghost predicate Cycles(s: Span, modulus: nat)
    requires modulus > 0
  {
    forall j: nat :: j < Period(s) ==> Next(s, modulus, Grid(s, j)) == Grid(s, (j + 1) % Period(s))
  }

  /** What a caller can check: the step past the last grid value must not wrap, or must wrap
      exactly onto min, or the grid has one value. */
  predicate NoHarmfulWrap(s: Span, modulus: nat) {
    var beyond := Grid(s, Period(s));
    beyond < modulus || s.min == s.max || beyond - modulus == s.min
  }

  lemma StepUp(s: Span, modulus: nat, v: nat)
    requires Swept(s, modulus) && s.min <= v && v + s.inc < modulus
    ensures Next(s, modulus, v) == if v + s.inc > s.max then s.min else v + s.inc
  {
    DivModUnique(v + s.inc, modulus, 0, v + s.inc);
  }

  lemma GridStep(s: Span, j: nat)
    ensures Grid(s, j + 1) == Grid(s, j) + s.inc && s.min <= Grid(s, j)
  {
  }

  lemma StepInside(s: Span, modulus: nat, j: nat)
    requires Swept(s, modulus) && j + 1 < Period(s)
    ensures Next(s, modulus, Grid(s, j)) == Grid(s, (j + 1) % Period(s)) == Grid(s, j + 1)
  {
    GridBounds(s, modulus, j + 1);
    GridStep(s, j);
    StepUp(s, modulus, Grid(s, j));
    DivModUnique(j + 1, Period(s), 0, j + 1);
  }

  lemma StepAtEnd(s: Span, modulus: nat)
    requires Swept(s, modulus)
    ensures Next(s, modulus, Grid(s, Period(s) - 1)) == s.min <==> NoHarmfulWrap(s, modulus)
  {
    var last := Grid(s, Period(s) - 1);
    GridBounds(s, modulus, Period(s) - 1);
    GridBounds(s, modulus, Period(s));
    var beyond := Grid(s, Period(s));
    assert beyond == last + s.inc;
    if beyond >= modulus {
      DivModUnique(beyond, modulus, 1, beyond - modulus);
    } else {
      DivModUnique(beyond, modulus, 0, beyond);
    }
  }

  /** A swept field cycles through its grid exactly when its last step does no harmful wrap. */
  lemma CyclesIff(s: Span, modulus: nat)
    requires Swept(s, modulus)
    ensures Cycles(s, modulus) <==> NoHarmfulWrap(s, modulus)
  {
    var p := Period(s);
    StepAtEnd(s, modulus);
    assert Grid(s, 0) == s.min && p % p == 0;
    if NoHarmfulWrap(s, modulus) {
      forall j: nat | j < p
        ensures Next(s, modulus, Grid(s, j)) == Grid(s, (j + 1) % p)
      {
        if j + 1 < p {
          StepInside(s, modulus, j);
        }
      }
    } else {
      assert Next(s, modulus, Grid(s, p - 1)) != Grid(s, (p - 1 + 1) % p);
    }
  }

  lemma SuccessorModulo(a: nat, p: nat)
    requires p > 0
    ensures (a % p + 1) % p == (a + 1) % p
  {
    NextModulo(a, p);
    if a % p + 1 < p {
      DivModUnique(a % p + 1, p, 0, a % p + 1);
    } else {
      DivModUnique(p, p, 1, 0);
    }
  }

  /** The k-th value of a field that starts at grid value j. */
  lemma {:induction false} CycleValue(s: Span, modulus: nat, j: nat, k: nat)
    requires Swept(s, modulus) && NoHarmfulWrap(s, modulus) && j < Period(s)
    ensures Run(s, modulus, Grid(s, j), k) == Grid(s, (j + k) % Period(s))
  {
    if k == 0 {
      DivModUnique(j, Period(s), 0, j);
    } else {
      CycleValue(s, modulus, j, k - 1);
      CyclesIff(s, modulus);
      SuccessorModulo(j + k - 1, Period(s));
    }
  }

  // --- from any starting value

  lemma {:induction false} RunOn(s: Span, modulus: nat, v: nat, a: nat, b: nat)
    requires modulus > 0
    ensures Run(s, modulus, v, a + b) == Run(s, modulus, Run(s, modulus, v, a), b)
  {
    if b > 0 {
      RunOn(s, modulus, v, a, b - 1);
    }
  }

  /** Steps from v before it would pass max. */
  function Climb(s: Span, v: nat): nat
    requires s.inc > 0 && v <= s.max
  {
    (s.max - v) / s.inc
  }

  lemma ClimbBounds(s: Span, v: nat, k: nat)
    requires s.inc > 0 && v <= s.max
    ensures v + k * s.inc <= s.max <==> k <= Climb(s, v)
  {
    var q := Climb(s, v);
    assert s.max - v == s.inc * q + (s.max - v) % s.inc;
    if k <= q {
      ScaleNat(k, q, s.inc);
    } else {
      ScaleNat(q + 1, k, s.inc);
      assert (q + 1) * s.inc == s.inc * q + s.inc;
    }
  }

  lemma OneMore(v: nat, k: nat, inc: nat)
    ensures v + k * inc + inc == v + (k + 1) * inc
  {
  }

  lemma {:induction false} Climbs(s: Span, modulus: nat, v: nat, k: nat)
    requires Swept(s, modulus) && s.min <= v <= s.max && k <= Climb(s, v)
    ensures Run(s, modulus, v, k) == v + k * s.inc
  {
    if k > 0 {
      Climbs(s, modulus, v, k - 1);
      ClimbBounds(s, v, k);
      OneMore(v, k - 1, s.inc);
      StepUp(s, modulus, v + (k - 1) * s.inc);
    }
  }

  lemma ReachesMin(s: Span, modulus: nat, v: nat)
    requires Swept(s, modulus) && s.max + s.inc < modulus && s.min <= v <= s.max
    ensures Run(s, modulus, v, Climb(s, v) + 1) == s.min == Grid(s, 0)
  {
    var c := Climb(s, v);
    Climbs(s, modulus, v, c);
    ClimbBounds(s, v, c);
    ClimbBounds(s, v, c + 1);
    OneMore(v, c, s.inc);
    StepUp(s, modulus, v + c * s.inc);
  }

  /** Without a wrap past max, any value within the bounds, on the grid or off it, climbs by inc
      until it would pass max and then follows the grid from min, forever. */
  lemma JoinsGrid(s: Span, modulus: nat, v: nat, k: nat)
    requires Swept(s, modulus) && s.max + s.inc < modulus && s.min <= v <= s.max
    ensures Run(s, modulus, v, Climb(s, v) + 1 + k) == Grid(s, k % Period(s))
  {
    var c := Climb(s, v);
    ReachesMin(s, modulus, v);
    RunOn(s, modulus, v, c + 1, k);
    GridBounds(s, modulus, Period(s) - 1);
    GridStep(s, Period(s) - 1);
    CycleValue(s, modulus, 0, k);
  }

  /** Two grid positions hold the same value only when they are the same. */
  lemma GridIsInjective(s: Span, i: nat, j: nat)
    requires s.inc > 0
    ensures Grid(s, i) == Grid(s, j) <==> i == j
  {
    MulMonoStrict(i, j, s.inc);
    MulMonoStrict(j, i, s.inc);
  }

  lemma AddKeepsResidue(j: nat, k: nat, p: nat)
    requires j < p
    ensures (j + k) % p == j <==> k % p == 0
  {
    var q, r := k / p, k % p;
    assert k == p * q + r;
    if j + r < p {
      DivModUnique(j + k, p, q, j + r);
    } else {
      assert p * (q + 1) == p * q + p;
      DivModUnique(j + k, p, q + 1, j + r - p);
    }
  }

  /** A swept field on the grid shows its starting value again exactly at the multiples of its
      period. */
  lemma RepeatsIff(s: Span, modulus: nat, j: nat, k: nat)
    requires Swept(s, modulus) && NoHarmfulWrap(s, modulus) && j < Period(s)
    ensures Run(s, modulus, Grid(s, j), k) == Grid(s, j) <==> k % Period(s) == 0
  {
    CycleValue(s, modulus, j, k);
    GridIsInjective(s, (j + k) % Period(s), j);
    AddKeepsResidue(j, k, Period(s));
  }
}

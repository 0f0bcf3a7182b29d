/**
 * The bisection root finder of Peirce's criterion, `PeirceCriteria.PeirceBisect`.
 *
 * Given (N, n, m) it brackets a root of f(N, n, m, .) between 0.1 and
 * sqrt((N - m) / n) - 2e-12, requires a sign change at the two ends, and
 * bisects for at most 100 steps until |f| <= 2e-12. Every failure is `None`.
 * The square root of the source is a parameter `sqrt`; nothing below depends
 * on what it computes.
 */
module PeirceRootFinder {
  import opened Wrappers
  import opened PeirceObjective

  /** Convergence tolerance, also subtracted from the upper end of the bracket. */
  const Eps: real := 0.000000000002

  /** Lower end of the bracket. */
  const XLow: real := 0.1

  /** Iteration budget of the bisection loop. */
  const MaxIters: nat := 100

  /** |f| <= eps: the loop's exit test (an infinity never converges). */
  predicate Converged(e: Ext)
  {
    e.Finite? && -Eps <= e.v <= Eps
  }

  /** (N - m) / n, the square of the upper end before the tolerance is subtracted. */
  function UpperSquare(N: int, n: int, m: int): real
    requires n != 0
  {
    (N - m) as real / n as real
  }

  /** Upper end of the bracket: sqrt((N - m) / n) - eps. */
  function UpperEnd(sqrt: real -> real, N: int, n: int, m: int): real
    requires n != 0
  {
    sqrt(UpperSquare(N, n, m)) - Eps
  }

  /** f is finite at both ends of the bracket and does not have the same strict sign at both. */
  predicate SignChangeAtEnds(formula: Formula, sqrt: real -> real, N: int, n: int, m: int)
    requires n != 0
  {
    var fl := PeirceFunc(formula, N, n, m, XLow);
    var fr := PeirceFunc(formula, N, n, m, UpperEnd(sqrt, N, n, m));
    fl.Finite? && fr.Finite? && fl.v * fr.v <= 0.0
  }

  /** 2^k, for the width of the bracket after k halvings. */
  function Pow2(k: nat): (p: real)
    ensures p >= 1.0
  {
    if k == 0 then 1.0 else 2.0 * Pow2(k - 1)
  }

  /**
   * The loop state: the bracket [xl, xr], the value f(xl) kept in `fxl`,
   * the midpoint `xo` with its value `fxo`, and the steps done so far.
   */
  datatype Bracket = Bracket(xl: real, fxl: real, xr: real, xo: real, fxo: Ext, iters: nat)

  /** One bisection step: keep the half whose ends still differ in sign of f. */
  function Step(formula: Formula, N: int, n: int, m: int, b: Bracket): Bracket
    requires b.fxo.Finite?
  {
    var (xl, fxl, xr) :=
      if b.fxl * b.fxo.v < 0.0 then (b.xl, b.fxl, b.xo) else (b.xo, b.fxo.v, b.xr);
    var xo := (xl + xr) / 2.0;
    Bracket(xl, fxl, xr, xo, PeirceFunc(formula, N, n, m, xo), b.iters + 1)
  }

  /**
   * What holds of the loop state at every step, for a bracket that started as
   * [XLow, top]: the ends are ordered with the midpoint strictly inside, the
   * stored values are f at those points, f(xr) is finite, the width is the
   * initial width halved once per step, and, unless f(XLow) was exactly zero,
   * f(xl) is non-zero and f changes sign across the bracket.
   */
  ghost predicate BracketInv(formula: Formula, N: int, n: int, m: int, top: real, b: Bracket)
  {
    && XLow <= b.xl < b.xo < b.xr <= top
    && b.xo == (b.xl + b.xr) / 2.0
    && PeirceFunc(formula, N, n, m, b.xl) == Finite(b.fxl)
    && PeirceFunc(formula, N, n, m, b.xr).Finite?
    && b.fxo == PeirceFunc(formula, N, n, m, b.xo)
    && b.iters <= MaxIters
    && (b.xr - b.xl) * Pow2(b.iters) == top - XLow
    && (PeirceFunc(formula, N, n, m, XLow) != Finite(0.0) ==>
          b.fxl != 0.0 && b.fxl * PeirceFunc(formula, N, n, m, b.xr).v <= 0.0)
  }

  /** Sign bookkeeping: if a and b have the same strict sign, b * c has the sign of a * c. */
  lemma SameSignCarries(a: real, b: real, c: real)
    requires a * b > 0.0
    requires a * c <= 0.0
    ensures b * c <= 0.0
  {
    if a > 0.0 {
      assert b > 0.0;
      assert c <= 0.0;
    } else {
      assert b < 0.0;
      assert c >= 0.0;
    }
  }

  /** Halving the width and doubling 2^k leaves their product unchanged. */
  lemma HalvedWidth(w: real, p: real)
    ensures (w / 2.0) * (2.0 * p) == w * p
  {
  }

  /**
   * A step taken by the loop keeps the bracket invariant, never moves xl down
   * or xr up, and halves the width.
   */
  lemma StepKeepsBracket(formula: Formula, N: int, n: int, m: int, top: real, b: Bracket)
    requires BracketInv(formula, N, n, m, top, b)
    requires !Converged(b.fxo) && b.iters < MaxIters && b.fxo.Finite?
    ensures BracketInv(formula, N, n, m, top, Step(formula, N, n, m, b))
    ensures b.xl <= Step(formula, N, n, m, b).xl
    ensures Step(formula, N, n, m, b).xr <= b.xr
    ensures Step(formula, N, n, m, b).xr - Step(formula, N, n, m, b).xl == (b.xr - b.xl) / 2.0
  {
    var b' := Step(formula, N, n, m, b);
    HalvedWidth(b.xr - b.xl, Pow2(b.iters));
    if b.fxl * b.fxo.v < 0.0 {
      assert b'.xl == b.xl && b'.fxl == b.fxl && b'.xr == b.xo;
    } else {
      assert b'.xl == b.xo && b'.fxl == b.fxo.v && b'.xr == b.xr;
      if PeirceFunc(formula, N, n, m, XLow) != Finite(0.0) {
        assert b.fxl * b.fxo.v > 0.0;
        SameSignCarries(b.fxl, b.fxo.v, PeirceFunc(formula, N, n, m, b.xr).v);
      }
    }
  }

  /** The bisection loop from a given state, as a function; the budget bounds its recursion. */
  function BisectFrom(formula: Formula, N: int, n: int, m: int, b: Bracket): Option<real>
    requires b.iters <= MaxIters
    decreases MaxIters - b.iters
  {
    if !Converged(b.fxo) && b.iters < MaxIters then
      if !b.fxo.Finite? then None
      else BisectFrom(formula, N, n, m, Step(formula, N, n, m, b))
    else if b.iters >= MaxIters && !Converged(b.fxo) then None
    else Some(b.xo)
  }

  /** `PeirceBisect(N, n, m)` as a function: the guards, the end check and the loop. */
  function Bisection(formula: Formula, sqrt: real -> real, N: int, n: int, m: int): Option<real>
  {
    if n <= 0 || N - m <= 0 then None
    else if UpperSquare(N, n, m) <= 0.0 then None
    else if UpperSquare(N, n, m) <= XLow * XLow then None
    else
      var xr := UpperEnd(sqrt, N, n, m);
      if XLow >= xr then None
      else
        var fl := PeirceFunc(formula, N, n, m, XLow);
        var fr := PeirceFunc(formula, N, n, m, xr);
        if !fl.Finite? || !fr.Finite? || fl.v * fr.v > 0.0 then None
        else
          var xo := (XLow + xr) / 2.0;
          BisectFrom(formula, N, n, m, Bracket(XLow, fl.v, xr, xo, PeirceFunc(formula, N, n, m, xo), 0))
  }

  /** The bracket the loop starts from, when every guard has passed. */
  lemma InitialBracket(formula: Formula, sqrt: real -> real, N: int, n: int, m: int)
    requires n > 0 && N - m > 0 && UpperSquare(N, n, m) > XLow * XLow
    requires XLow < UpperEnd(sqrt, N, n, m)
    requires SignChangeAtEnds(formula, sqrt, N, n, m)
    ensures var xr := UpperEnd(sqrt, N, n, m);
            var xo := (XLow + xr) / 2.0;
            BracketInv(formula, N, n, m, xr,
                       Bracket(XLow, PeirceFunc(formula, N, n, m, XLow).v, xr, xo, PeirceFunc(formula, N, n, m, xo), 0))
  {
  }

  /**
   * Whatever the loop returns from a bracket lies strictly inside it and is a
   * point where |f| <= eps.
   */
  lemma {:induction false} BisectFromSound(formula: Formula, N: int, n: int, m: int, top: real, b: Bracket)
    requires BracketInv(formula, N, n, m, top, b)
    ensures var r := BisectFrom(formula, N, n, m, b);
            r.Some? ==> b.xl < r.value < b.xr && Converged(PeirceFunc(formula, N, n, m, r.value))
    decreases MaxIters - b.iters
  {
    if !Converged(b.fxo) && b.iters < MaxIters && b.fxo.Finite? {
      StepKeepsBracket(formula, N, n, m, top, b);
      BisectFromSound(formula, N, n, m, top, Step(formula, N, n, m, b));
    }
  }

  /**
   * A threshold R returned by the root finder satisfies |f(R)| <= eps and lies
   * strictly between 0.1 and sqrt((N - m) / n) - eps; and f is evaluated there
   * by the closed form, not by a guard.
   */
  lemma BisectionSound(formula: Formula, sqrt: real -> real, N: int, n: int, m: int)
    ensures var r := Bisection(formula, sqrt, N, n, m);
            r.Some? ==>
              && n > 0 && N - m > 0
              && XLow < r.value < UpperEnd(sqrt, N, n, m)
              && Converged(PeirceFunc(formula, N, n, m, r.value))
              && PeirceFunc(formula, N, n, m, r.value) == formula(N, n, m, r.value)
  {
    var r := Bisection(formula, sqrt, N, n, m);
    if r.Some? {
      var xr := UpperEnd(sqrt, N, n, m);
      InitialBracket(formula, sqrt, N, n, m);
      var xo := (XLow + xr) / 2.0;
      BisectFromSound(formula, N, n, m, xr,
                      Bracket(XLow, PeirceFunc(formula, N, n, m, XLow).v, xr, xo, PeirceFunc(formula, N, n, m, xo), 0));
      FiniteBelowUsesFormula(formula, N, n, m, xr, r.value);
    }
  }

  /**
   * No threshold exists for a suspect count outside the objective's integer
   * domain: n <= 0, N <= 0, n >= N, or n >= N - m.
   */
  lemma NoRootOutsideDomain(formula: Formula, sqrt: real -> real, N: int, n: int, m: int)
    requires n <= 0 || N <= 0 || N - n <= 0 || N - m - n <= 0
    ensures Bisection(formula, sqrt, N, n, m) == None
  {
    if n > 0 && N - m > 0 {
      assert PeirceFunc(formula, N, n, m, XLow) == PosInf;
    }
  }

  /**
   * `PeirceBisect(N, n, m)`: the guards, the sign check at the ends, and the
   * bisection loop. `steps` is the number of loop iterations run.
   */
  method PeirceBisect(formula: Formula, sqrt: real -> real, N: int, n: int, m: int)
    returns (r: Option<real>, ghost steps: nat)
    ensures r == Bisection(formula, sqrt, N, n, m)
    ensures steps <= MaxIters
    ensures n <= 0 || N - m <= 0 ==> r == None
    ensures n > 0 && N - m > 0 && UpperSquare(N, n, m) <= XLow * XLow ==> r == None
    ensures n > 0 && UpperEnd(sqrt, N, n, m) <= XLow ==> r == None
    ensures n > 0 && !SignChangeAtEnds(formula, sqrt, N, n, m) ==> r == None
    ensures r.Some? ==> XLow < r.value < UpperEnd(sqrt, N, n, m) && Converged(PeirceFunc(formula, N, n, m, r.value))
  {
    BisectionSound(formula, sqrt, N, n, m);
    var eps := Eps;
    var xl := XLow;
    if n <= 0 || N - m <= 0 {
      return None, 0;
    }
    var sqNum := N - m;
    var sqDen := n as real;
    if sqNum as real / sqDen <= 0.0 {
      return None, 0;
    }
    var sq := sqNum as real / sqDen;
    if sq <= xl * xl {
      return None, 0;
    }
    var xr := sqrt(sq) - eps;
    if xl >= xr {
      return None, 0;
    }
    var fl := PeirceFunc(formula, N, n, m, xl);
    var fr := PeirceFunc(formula, N, n, m, xr);
    if !fl.Finite? || !fr.Finite? || fl.v * fr.v > 0.0 {
      return None, 0;
    }
    ghost var top := xr;
    InitialBracket(formula, sqrt, N, n, m);
    var fxl := fl.v;
    var xo := (xl + xr) / 2.0;
    var fxo := PeirceFunc(formula, N, n, m, xo);
    var iter := 0;
    while !Converged(fxo) && iter < MaxIters
      invariant BracketInv(formula, N, n, m, top, Bracket(xl, fxl, xr, xo, fxo, iter))
      invariant BisectFrom(formula, N, n, m, Bracket(xl, fxl, xr, xo, fxo, iter)) == Bisection(formula, sqrt, N, n, m)
      decreases MaxIters - iter
    {
      if !fxo.Finite? {
        return None, iter;
      }
      ghost var b := Bracket(xl, fxl, xr, xo, fxo, iter);
      StepKeepsBracket(formula, N, n, m, top, b);
      if fxl * fxo.v < 0.0 {
        xr := xo;
      } else {
        xl := xo;
        fxl := fxo.v;
      }
      xo := (xl + xr) / 2.0;
      fxo := PeirceFunc(formula, N, n, m, xo);
      iter := iter + 1;
      assert Bracket(xl, fxl, xr, xo, fxo, iter) == Step(formula, N, n, m, b);
    }
    if iter >= MaxIters && !Converged(fxo) {
      return None, iter;
    }
    r, steps := Some(xo), iter;
  }
}

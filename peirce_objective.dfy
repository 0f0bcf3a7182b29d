/**
 * The objective function of Peirce's criterion, `PeirceCriteria.PeirceFunc`.
 *
 * Only the domain guards are modelled. The closed-form body (logarithms, the
 * complementary error function and a square root, evaluated in floating point)
 * is a parameter `formula`, consulted only once every guard has passed.
 */
module PeirceObjective {

  /** A floating-point result that may have overflowed: a finite value, +inf or -inf. */
  datatype Ext = Finite(v: real) | PosInf | NegInf

  /** The closed-form body f(N, n, m, R), evaluated in floating point by the source. */
  type Formula = (int, int, int, real) -> Ext

  /**
   * The region where the closed form is defined: at least one and fewer than N
   * suspects, a positive sample size, and a positive numerator and denominator
   * for lambda squared = (N - m - n R^2) / (N - m - n).
   */
  predicate InDomain(N: int, n: int, m: int, R: real)
  {
    && 0 < n
    && n < N
    && 0 < N
    && n as real * R * R < (N - m) as real
    && n < N - m
  }

  /** f(N, n, m, R): +inf outside the domain, the closed form inside it. */
  function PeirceFunc(formula: Formula, N: int, n: int, m: int, R: real): (r: Ext)
    ensures !InDomain(N, n, m, R) ==> r == PosInf
    ensures InDomain(N, n, m, R) ==> r == formula(N, n, m, R)
  {
    if n <= 0 || N - n <= 0 || N <= 0 then PosInf
    else if (N - m) as real - n as real * R * R <= 0.0 || N - m - n <= 0 then PosInf
    else formula(N, n, m, R)
  }

  /** The domain is closed downwards in R: a smaller non-negative R stays inside it. */
  lemma DomainDownwardClosed(N: int, n: int, m: int, R: real, R': real)
    requires InDomain(N, n, m, R)
    requires 0.0 <= R' <= R
    ensures InDomain(N, n, m, R')
  {
    assert R' * R' <= R * R by {
      assert R' * R' <= R' * R;
      assert R' * R <= R * R;
    }
    assert n as real * (R' * R') <= n as real * (R * R);
  }

  /**
   * A finite value at R means the guards passed there, so every R' in [0, R]
   * is evaluated by the closed form itself and never by a guard.
   */
  lemma FiniteBelowUsesFormula(formula: Formula, N: int, n: int, m: int, R: real, R': real)
    requires PeirceFunc(formula, N, n, m, R).Finite?
    requires 0.0 <= R' <= R
    ensures PeirceFunc(formula, N, n, m, R') == formula(N, n, m, R')
  {
    DomainDownwardClosed(N, n, m, R, R');
  }
}

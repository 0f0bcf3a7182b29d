/**
 * The rejection loop of Peirce's criterion, `PeirceCriteria.__init__`.
 *
 * The residuals |x_i - xbar| are computed once from the original sample. Round
 * k suspects n = k points, asks the root finder for the threshold R, and
 * rejects every point whose residual exceeds sigma * R. A round is committed
 * only when it rejects strictly more points than the last committed one; the
 * loop stops at the half-sample limit N / 2 <= n, when no threshold is found,
 * or when the count stalls. The mean `xbar` and the standard deviation `sigma`
 * are inputs.
 */
module PeirceRejection {
  import opened Wrappers
  import opened PeirceObjective
  import opened PeirceRootFinder

  /** A committed round: the suspect count n, its threshold R and how many points it rejected. */
  datatype Commit = Commit(n: int, r: real, count: nat)

  /** The sample and the statistics computed once from it. */
  datatype Sample = Sample(x: seq<real>, xbar: real, sigma: real)

  function Abs(a: real): real
  {
    if a < 0.0 then -a else a
  }

  /** delta_i = |x_i - xbar|, element by element. */
  function Residuals(x: seq<real>, xbar: real): (delta: seq<real>)
    ensures |delta| == |x|
  {
    seq(|x|, i requires 0 <= i < |x| => Abs(x[i] - xbar))
  }

  /** The mask `delta > t`. */
  function RejectMask(delta: seq<real>, t: real): (mask: seq<bool>)
    ensures |mask| == |delta|
  {
    seq(|delta|, i requires 0 <= i < |delta| => delta[i] > t)
  }

  /** The residual a round with threshold R tolerates: sigma * R. */
  function Limit(s: Sample, R: real): real
  {
    s.sigma * R
  }

  /** The mask of round R over the sample: residual > sigma * R. */
  function RoundMask(s: Sample, R: real): (mask: seq<bool>)
    ensures |mask| == |s.x|
  {
    RejectMask(Residuals(s.x, s.xbar), Limit(s, R))
  }

  /** A mask of n equal entries. */
  function Constant(n: nat, b: bool): (mask: seq<bool>)
    ensures |mask| == n
  {
    seq(n, _ => b)
  }

  /** The number of true entries of a mask (`np.sum`). */
  function CountTrue(mask: seq<bool>): (c: nat)
    ensures c <= |mask|
  {
    if mask == [] then 0 else (if mask[0] then 1 else 0) + CountTrue(mask[1..])
  }

  /** `np.logical_not`. */
  function Negate(mask: seq<bool>): (neg: seq<bool>)
    ensures |neg| == |mask|
  {
    seq(|mask|, i requires 0 <= i < |mask| => !mask[i])
  }

  /** `x[keep]`: the entries whose mask entry is true, in their original order. */
  function Select(x: seq<real>, keep: seq<bool>): seq<real>
    requires |x| == |keep|
  {
    if x == [] then [] else (if keep[0] then [x[0]] else []) + Select(x[1..], keep[1..])
  }

  /** |x[keep]| is the number of kept entries. */
  lemma {:induction false} SelectLength(x: seq<real>, keep: seq<bool>)
    requires |x| == |keep|
    ensures |Select(x, keep)| == CountTrue(keep)
  {
    if x != [] {
      SelectLength(x[1..], keep[1..]);
    }
  }

  /** Keeping every entry keeps the sample as it is. */
  lemma {:induction false} SelectAll(x: seq<real>)
    ensures Select(x, Constant(|x|, true)) == x
  {
    if x != [] {
      assert Constant(|x|, true)[1..] == Constant(|x| - 1, true);
      SelectAll(x[1..]);
    }
  }

  /** A mask and its complement split the sample: their counts add up to its size. */
  lemma {:induction false} NegateCount(mask: seq<bool>)
    ensures CountTrue(mask) + CountTrue(Negate(mask)) == |mask|
  {
    if mask != [] {
      assert Negate(mask)[1..] == Negate(mask[1..]);
      NegateCount(mask[1..]);
    }
  }

  /** A mask with no true entry counts zero. */
  lemma {:induction false} CountNone(mask: seq<bool>)
    requires forall i :: 0 <= i < |mask| ==> !mask[i]
    ensures CountTrue(mask) == 0
  {
    if mask != [] {
      CountNone(mask[1..]);
    }
  }

  /** A mask that is true wherever another one is counts at least as many true entries. */
  lemma {:induction false} CountMono(a: seq<bool>, b: seq<bool>)
    requires |a| == |b|
    requires forall k :: 0 <= k < |a| ==> a[k] ==> b[k]
    ensures CountTrue(a) <= CountTrue(b)
  {
    if a != [] {
      CountMono(a[1..], b[1..]);
    }
  }

  /** A lower threshold rejects every residual a higher one rejects. */
  lemma ThresholdOrder(delta: seq<real>, t1: real, t2: real)
    requires t1 <= t2
    ensures forall i :: 0 <= i < |delta| ==> RejectMask(delta, t2)[i] ==> RejectMask(delta, t1)[i]
  {
  }

  /**
   * Two masks over the same residuals are nested: a threshold that rejects
   * more residuals rejects every residual the other one rejects.
   */
  lemma RejectNested(delta: seq<real>, t1: real, t2: real, k: int)
    requires CountTrue(RejectMask(delta, t1)) < CountTrue(RejectMask(delta, t2))
    requires 0 <= k < |delta|
    ensures RejectMask(delta, t1)[k] ==> RejectMask(delta, t2)[k]
  {
    if t1 <= t2 {
      ThresholdOrder(delta, t1, t2);
      CountMono(RejectMask(delta, t2), RejectMask(delta, t1));
      assert false;
    }
  }

  /**
   * Two rounds' masks over the same sample are nested: a round that rejects
   * more points rejects every point the other one rejects.
   */
  lemma MaskNested(s: Sample, r1: real, r2: real, k: int)
    requires CountTrue(RoundMask(s, r1)) < CountTrue(RoundMask(s, r2))
    requires 0 <= k < |s.x|
    ensures RoundMask(s, r1)[k] ==> RoundMask(s, r2)[k]
  {
    RejectNested(Residuals(s.x, s.xbar), Limit(s, r1), Limit(s, r2), k);
  }

  /** The root finder's threshold for each suspect count, on a sample of N points with m unknowns. */
  function Thresholds(formula: Formula, sqrt: real -> real, N: int, m: int): (T: int -> Option<real>)
  {
    n => Bisection(formula, sqrt, N, n, m)
  }

  /**
   * The rounds committed from suspect count n on, when the last committed
   * count is `prev`: the rejection loop as a function.
   */
  function Rounds(s: Sample, T: int -> Option<real>, n: int, prev: nat): seq<Commit>
    decreases |s.x| / 2 - n
  {
    if |s.x| / 2 <= n then []
    else match T(n)
      case None => []
      case Some(R) =>
        var count := CountTrue(RoundMask(s, R));
        if count > prev then [Commit(n, R, count)] + Rounds(s, T, n + 1, count)
        else []
  }

  /**
   * What every committed history satisfies, when it starts at suspect count n
   * after a committed count `prev`: round j suspects n + j points, stays below
   * the half-sample limit, uses the root finder's threshold for that count,
   * rejects exactly the points beyond sigma * R, and rejects strictly more
   * points than the round before it.
   */
  ghost predicate WellCommitted(s: Sample, T: int -> Option<real>, n: int, prev: nat, cs: seq<Commit>)
  {
    && (forall j :: 0 <= j < |cs| ==> cs[j].n == n + j && cs[j].n < |s.x| / 2)
    && (forall j :: 0 <= j < |cs| ==> T(cs[j].n) == Some(cs[j].r))
    && (forall j :: 0 <= j < |cs| ==> cs[j].count == CountTrue(RoundMask(s, cs[j].r)))
    && (forall j :: 0 <= j < |cs| ==> prev < cs[j].count)
    && (forall i, j :: 0 <= i < j < |cs| ==> cs[i].count < cs[j].count)
  }

  /** The committed history is well committed. */
  lemma {:induction false} RoundsWellCommitted(s: Sample, T: int -> Option<real>, n: int, prev: nat)
    ensures WellCommitted(s, T, n, prev, Rounds(s, T, n, prev))
    decreases |s.x| / 2 - n
  {
    var cs := Rounds(s, T, n, prev);
    if cs != [] {
      var R := T(n).value;
      var count := CountTrue(RoundMask(s, R));
      RoundsWellCommitted(s, T, n + 1, count);
      var rest := Rounds(s, T, n + 1, count);
      assert cs == [Commit(n, R, count)] + rest;
      forall j | 1 <= j < |cs|
        ensures cs[j] == rest[j - 1]
      {
      }
    }
  }

  /** Fewer rounds than the half-sample limit leaves room for: at most N / 2 - n of them. */
  lemma {:induction false} RoundsBound(s: Sample, T: int -> Option<real>, n: int, prev: nat)
    ensures |Rounds(s, T, n, prev)| <= if n <= |s.x| / 2 then |s.x| / 2 - n else 0
    decreases |s.x| / 2 - n
  {
    if |s.x| / 2 > n && T(n).Some? {
      var count := CountTrue(RoundMask(s, T(n).value));
      RoundsBound(s, T, n + 1, count);
    }
  }

  /** One round of the loop that commits: the history continues with it. */
  lemma RoundsCommit(s: Sample, T: int -> Option<real>, n: int, prev: nat, R: real)
    requires n < |s.x| / 2
    requires T(n) == Some(R)
    requires CountTrue(RoundMask(s, R)) > prev
    ensures Rounds(s, T, n, prev)
         == [Commit(n, R, CountTrue(RoundMask(s, R)))] + Rounds(s, T, n + 1, CountTrue(RoundMask(s, R)))
  {
  }

  /** A round that does not commit ends the history: what was committed so far is all of it. */
  lemma RoundsEnd(s: Sample, T: int -> Option<real>, done: seq<Commit>, n: int, prev: nat)
    requires done + Rounds(s, T, n, prev) == Rounds(s, T, 1, 0)
    requires || |s.x| / 2 <= n
             || T(n) == None
             || CountTrue(RoundMask(s, T(n).value)) <= prev
    ensures done == Rounds(s, T, 1, 0)
  {
    assert Rounds(s, T, n, prev) == [];
    assert done + [] == done;
  }

  /** The loop's history invariant survives a committed round. */
  lemma HistoryExtends(s: Sample, T: int -> Option<real>, done: seq<Commit>, n: int, prev: nat, R: real)
    requires done + Rounds(s, T, n, prev) == Rounds(s, T, 1, 0)
    requires n < |s.x| / 2
    requires T(n) == Some(R)
    requires CountTrue(RoundMask(s, R)) > prev
    ensures var count := CountTrue(RoundMask(s, R));
            done + [Commit(n, R, count)] + Rounds(s, T, n + 1, count) == Rounds(s, T, 1, 0)
  {
    var count := CountTrue(RoundMask(s, R));
    var rest := Rounds(s, T, n + 1, count);
    RoundsCommit(s, T, n, prev, R);
    assert done + [Commit(n, R, count)] + rest == done + ([Commit(n, R, count)] + rest);
  }

  /** The count of the last committed round, or `prev` when none was committed. */
  function LastCount(prev: nat, cs: seq<Commit>): nat
  {
    if cs == [] then prev else cs[|cs| - 1].count
  }

  /**
   * Why the loop stopped after its last committed round: the next suspect
   * count reached the half-sample limit, or the root finder found no
   * threshold for it, or that threshold rejects no more points than the last
   * committed round did.
   */
  lemma {:induction false} RoundsStop(s: Sample, T: int -> Option<real>, n: int, prev: nat)
    ensures var cs := Rounds(s, T, n, prev);
            var next := n + |cs|;
            || |s.x| / 2 <= next
            || T(next) == None
            || CountTrue(RoundMask(s, T(next).value)) <= LastCount(prev, cs)
    decreases |s.x| / 2 - n
  {
    var cs := Rounds(s, T, n, prev);
    if cs != [] {
      var R := T(n).value;
      var count := CountTrue(RoundMask(s, R));
      var rest := Rounds(s, T, n + 1, count);
      RoundsStop(s, T, n + 1, count);
      assert cs == [Commit(n, R, count)] + rest;
      assert LastCount(prev, cs) == LastCount(count, rest);
    }
  }

  /**
   * A committed round never gives a point back: a point rejected in committed
   * round i is still rejected in every later committed round j.
   */
  lemma NestedRejections(s: Sample, T: int -> Option<real>, n: int, prev: nat, i: int, j: int, k: int)
    requires 0 <= i < j < |Rounds(s, T, n, prev)|
    requires 0 <= k < |s.x|
    ensures var cs := Rounds(s, T, n, prev);
            RoundMask(s, cs[i].r)[k] ==> RoundMask(s, cs[j].r)[k]
  {
    var cs := Rounds(s, T, n, prev);
    RoundsWellCommitted(s, T, n, prev);
    assert cs[i].count < cs[j].count;
    MaskNested(s, cs[i].r, cs[j].r, k);
  }

  /** A sample of at most three points never loses a point: N / 2 <= 1 from the first round. */
  lemma SmallSampleRejectsNothing(s: Sample, T: int -> Option<real>)
    requires |s.x| <= 3
    ensures Rounds(s, T, 1, 0) == []
  {
  }

  /**
   * A sample whose points all equal the mean (sigma >= 0) never loses a point:
   * every threshold is positive, so no residual exceeds sigma * R.
   */
  lemma IdenticalValuesRejectNothing(s: Sample, m: int, formula: Formula, sqrt: real -> real)
    requires forall i :: 0 <= i < |s.x| ==> s.x[i] == s.xbar
    requires s.sigma >= 0.0
    ensures Rounds(s, Thresholds(formula, sqrt, |s.x|, m), 1, 0) == []
  {
    var N := |s.x|;
    if N / 2 > 1 {
      BisectionSound(formula, sqrt, N, 1, m);
      var r := Bisection(formula, sqrt, N, 1, m);
      if r.Some? {
        var mask := RoundMask(s, r.value);
        assert Limit(s, r.value) >= 0.0;
        CountNone(mask);
      }
    }
  }

  /**
   * A sample of fewer than m + 2 points never loses a point: already one
   * suspect leaves N - m - n <= 0, so the root finder finds no threshold.
   */
  lemma TooFewForMRejectsNothing(s: Sample, m: int, formula: Formula, sqrt: real -> real)
    requires |s.x| < m + 2
    ensures Rounds(s, Thresholds(formula, sqrt, |s.x|, m), 1, 0) == []
  {
    NoRootOutsideDomain(formula, sqrt, |s.x|, 1, m);
  }

  /**
   * The state the rejection loop leaves behind: `kept`, `rej` and `acc` are the
   * accepted sample and the two masks of the last committed round in `done`,
   * or of the all-accepting default when no round was committed.
   */
  ghost predicate Outcome(s: Sample, done: seq<Commit>, rej: seq<bool>, acc: seq<bool>, kept: seq<real>)
  {
    && |rej| == |s.x| && |acc| == |s.x|
    && (forall i :: 0 <= i < |s.x| ==> acc[i] == !rej[i])
    && kept == Select(s.x, acc) && |kept| == CountTrue(acc)
    && (done == [] ==> rej == Constant(|s.x|, false) && acc == Constant(|s.x|, true) && kept == s.x)
    && (done != [] ==> rej == RoundMask(s, done[|done| - 1].r) && CountTrue(rej) == done[|done| - 1].count)
  }

  /** The masks the loop maintains, after the reset for a history with no committed round, are its outcome. */
  lemma OutcomeAfterLoop(s: Sample, done: seq<Commit>, prev: nat, rej: seq<bool>, acc: seq<bool>, kept: seq<real>)
    requires prev == LastCount(0, done) && (done != [] ==> prev > 0)
    requires |rej| == |s.x| && acc == Negate(rej) && kept == Select(s.x, acc)
    requires done == [] ==> rej == Constant(|s.x|, false) && acc == Constant(|s.x|, true) && kept == s.x
    requires done != [] ==> rej == RoundMask(s, done[|done| - 1].r) && prev == CountTrue(rej)
    ensures Outcome(s, done, rej, acc, kept)
  {
    SelectLength(s.x, acc);
  }

  /**
   * The outcome of Peirce's criterion on a sample. `commits` records the
   * committed rounds in order.
   */
  class PeirceCriteria {
    /** The sample restricted to the accepted points. */
    var x2: seq<real>
    /** True where a point was rejected as an outlier. */
    var rejVec: seq<bool>
    /** True where a point was accepted. */
    var acceptVec: seq<bool>
    ghost var commits: seq<Commit>

    /**
     * Runs the criterion on sample `x` with `m` unknowns, mean `xbar` and
     * standard deviation `sigma`. The result is the last committed round, or
     * everything accepted when no round was committed.
     */
    constructor (x: seq<real>, m: int, xbar: real, sigma: real, formula: Formula, sqrt: real -> real)
      ensures commits == Rounds(Sample(x, xbar, sigma), Thresholds(formula, sqrt, |x|, m), 1, 0)
      ensures Outcome(Sample(x, xbar, sigma), commits, rejVec, acceptVec, x2)
    {
      var s := Sample(x, xbar, sigma);
      var N := |x|;
      var prev: nat := 0;
      var n := 1;
      var kept := x;
      var rej := Constant(N, false);
      var acc := Constant(N, true);
      ghost var T := Thresholds(formula, sqrt, N, m);
      ghost var done: seq<Commit> := [];
      SelectAll(x);
      assert acc == Negate(rej);
      while true
        invariant 1 <= n <= N / 2 + 1
        invariant n == |done| + 1
        invariant done + Rounds(s, T, n, prev) == Rounds(s, T, 1, 0)
        invariant prev == LastCount(0, done)
        invariant done != [] ==> prev > 0
        invariant |rej| == N && acc == Negate(rej) && kept == Select(x, acc)
        invariant done == [] ==> rej == Constant(N, false)
        invariant done != [] ==> rej == RoundMask(s, done[|done| - 1].r) && prev == CountTrue(rej)
        decreases N / 2 + 1 - n
      {
        if N / 2 <= n {
          RoundsEnd(s, T, done, n, prev);
          break;
        }
        var threshold, _ := PeirceBisect(formula, sqrt, N, n, m);
        assert threshold == T(n);
        if threshold.None? {
          RoundsEnd(s, T, done, n, prev);
          break;
        }
        var current := RoundMask(s, threshold.value);
        var count := CountTrue(current);
        if count > prev {
          rej := current;
          acc := Negate(rej);
          kept := Select(x, acc);
          HistoryExtends(s, T, done, n, prev, threshold.value);
          done := done + [Commit(n, threshold.value, count)];
          prev := count;
          n := n + 1;
        } else {
          RoundsEnd(s, T, done, n, prev);
          break;
        }
      }
      if prev == 0 {
        kept := x;
        rej := Constant(N, false);
        acc := Constant(N, true);
      }
      OutcomeAfterLoop(s, done, prev, rej, acc, kept);
      x2, rejVec, acceptVec, commits := kept, rej, acc, done;
    }
  }
}

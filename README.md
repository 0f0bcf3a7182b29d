# Peirce's criterion and the plot-form validators, in Dafny

This project models two parts of a small plotting web application.

**Peirce's criterion** (`plots/ash_plot/ASH/peirce.py`) rejects outliers from a
sample. It has three layers:

- `PeirceFunc` is the objective f(N, n, m, R). Its domain guards return +inf.
  Its closed-form body (logarithms, erfc, a square root) is a parameter
  `formula` of type `Formula`. It returns an extended real, `Ext`.
- `PeirceBisect` searches for a root of f by bisection. It builds the bracket
  [0.1, sqrt((N - m) / n) - 2e-12], needs a sign change at its ends, and
  bisects for at most 100 steps. It yields `None` on every failure. It is a
  method with a `while` loop, proved equal to the function `Bisection`. The
  floating-point square root used for the upper end is a parameter `sqrt`.
- `PeirceCriteria.__init__` is the rejection loop, a class constructor. It
  raises the suspect count n by one per committed round. Each round turns the
  threshold R into the mask `|x_i - xbar| > sigma * R`. A round is committed
  only when its reject count strictly increases. The committed rounds equal
  the function `Rounds`, kept in the ghost field `commits`. The lemmas about
  `Rounds` state what the loop promises.

**The form validators** (`plots/form_valid.py`) are pure functions:

- `DataSplit` models `data_split`: `str.strip`, then `re.split(r'[\s,]+', ...)`,
  then a filter that drops empty pieces. It is proved equal to an independent
  description. Every text has a layout as separator-only gaps around non-empty
  separator-free words. `data_split` returns the words of that layout, and
  every layout of the text has those same words.
- The validators `DataLength`, `DataLengthEqual` and `DataFloat` are
  datatypes holding their configuration. Their `__call__` methods are functions
  returning `Pass` or `Fail(message)`.
- `PyText` models the Python string built-ins they use: `isspace`, `strip`,
  `title` and `%i`.

Modules:

| file | module |
|---|---|
| `wrappers.dfy` | `Wrappers` (`Option`) |
| `peirce_objective.dfy` | `PeirceObjective` |
| `peirce_root_finder.dfy` | `PeirceRootFinder` |
| `peirce_rejection.dfy` | `PeirceRejection` |
| `py_text.dfy` | `PyText` |
| `form_valid.dfy` | `FormValid` |

## Model

| member | source | states |
|---|---|---|
| `PeirceObjective.PeirceFunc` | plots/ash_plot/ASH/peirce.py:224-235 | f is +inf outside the domain 0 < n < N, N > 0, n R^2 < N - m, n < N - m. Inside the domain, f is the closed-form body. |
| `PeirceObjective.DomainDownwardClosed` | plots/ash_plot/ASH/peirce.py:231-235 | A point inside the domain stays inside when R shrinks towards 0. So the λ² guard only cuts R off from above. |
| `PeirceObjective.FiniteBelowUsesFormula` | plots/ash_plot/ASH/peirce.py:224-235 | If f is finite at R, then every R' in [0, R] is evaluated by the closed form, not by a guard. |
| `PeirceRootFinder.Step` | plots/ash_plot/ASH/peirce.py:321-329 | One pass of the loop body: keep the half [xl, xo] when f(xl)·f(xo) < 0, else move xl (and func_xl) to xo; then take the new midpoint, evaluate f there and count the iteration. |
| `PeirceRootFinder.BisectFrom` | plots/ash_plot/ASH/peirce.py:318-334 | The loop from a given state: it runs while \|f(xo)\| > 2e-12 and fewer than 100 iterations have run, gives up on a non-finite f(xo), and after the loop returns xo unless 100 iterations ran without convergence. |
| `PeirceRootFinder.Bisection` | plots/ash_plot/ASH/peirce.py:289-334 | `PeirceBisect` as a function: the guards on n, N - m and (N-m)/n, the upper end sqrt((N-m)/n) - 2e-12, the finite sign-change check at both ends, then `BisectFrom` from the first midpoint. |
| `PeirceRootFinder.InitialBracket` | plots/ash_plot/ASH/peirce.py:301-314 | Once every guard passes, the starting state is a valid bracket. It satisfies 0.1 < xo < xr, xo is the midpoint, func_xl = f(0.1), f finite at both ends, and f(xl)·f(xr) <= 0. |
| `PeirceRootFinder.StepKeepsBracket` | plots/ash_plot/ASH/peirce.py:318-329 | One bisection step keeps the bracket invariant: 0.1 <= xl < xo < xr <= top, func_xl == f(xl), the sign change is kept, and at most 100 steps are run. xl never decreases, xr never increases, and the width halves. |
| `PeirceRootFinder.BisectFromSound` | plots/ash_plot/ASH/peirce.py:318-334 | A value returned by the loop lies strictly inside the bracket it started from, and \|f\| <= 2e-12 there. |
| `PeirceRootFinder.BisectionSound` | plots/ash_plot/ASH/peirce.py:289-334 | A returned R has n > 0 and N - m > 0. It lies strictly between 0.1 and sqrt((N-m)/n) - 2e-12. \|f(R)\| <= 2e-12, and f(R) is the closed form, not a guard's +inf. |
| `PeirceRootFinder.NoRootOutsideDomain` | plots/ash_plot/ASH/peirce.py:292-311 | If n <= 0, N <= 0, n >= N or n >= N - m, no root is found: a guard or the end check fails. |
| `PeirceRootFinder.PeirceBisect` | plots/ash_plot/ASH/peirce.py:289-334 | The loop returns exactly `Bisection` and runs at most 100 iterations. It returns `None` when n <= 0 or N - m <= 0, when (N-m)/n <= 0.1², when xr <= 0.1, and when an end value is non-finite or f(xl)·f(xr) > 0. A returned R lies in (0.1, xr) with \|f(R)\| <= 2e-12. |
| `PeirceRejection.Residuals` | plots/ash_plot/ASH/peirce.py:111 | delta_i = \|x_i - xbar\|, one residual per point. |
| `PeirceRejection.RoundMask` | plots/ash_plot/ASH/peirce.py:151 | The mask delta > σR, one entry per point. |
| `PeirceRejection.Constant` | plots/ash_plot/ASH/peirce.py:125-126 | `np.zeros` / `np.ones` of dtype bool: N equal entries. |
| `PeirceRejection.CountTrue` | plots/ash_plot/ASH/peirce.py:152 | `np.sum` of a mask: the number of true entries, at most its length. |
| `PeirceRejection.Negate` | plots/ash_plot/ASH/peirce.py:160 | `np.logical_not`: same length, every entry flipped. |
| `PeirceRejection.Select` | plots/ash_plot/ASH/peirce.py:161 | `x[AcceptVec]`: the entries whose mask entry is true, in their original order. |
| `PeirceRejection.Rounds` | plots/ash_plot/ASH/peirce.py:128-169 | The loop as a function: from suspect count n with last committed count prev, stop at N//2 <= n, stop when the root finder returns None, commit (n, R, count) and go on with n + 1 when count > prev, else stop. |
| `PeirceRejection.SelectLength` | plots/ash_plot/ASH/peirce.py:161 | \|x[AcceptVec]\| is the number of accepted points. |
| `PeirceRejection.SelectAll` | plots/ash_plot/ASH/peirce.py:124-126 | Restricting the sample to an all-true mask gives the sample back. |
| `PeirceRejection.NegateCount` | plots/ash_plot/ASH/peirce.py:159-160 | A mask and its `logical_not` split the sample: the rejected count plus the accepted count is N. |
| `PeirceRejection.RoundsWellCommitted` | plots/ash_plot/ASH/peirce.py:128-169 | Committed round j suspects n = 1 + j, stays below N//2, and uses the root finder's threshold for that n. It rejects exactly the points with residual > σR. Its count is positive and strictly larger than that of every earlier round. |
| `PeirceRejection.RoundsBound` | plots/ash_plot/ASH/peirce.py:133-165 | At most N//2 - 1 rounds are committed, because n starts at 1, grows by one per commit and stops at N//2. |
| `PeirceRejection.RoundsCommit` | plots/ash_plot/ASH/peirce.py:150-165 | A round below N//2 with a threshold and a larger count is committed, and the loop continues from n + 1 with that count. |
| `PeirceRejection.RoundsEnd` | plots/ash_plot/ASH/peirce.py:133-169 | Reaching N//2, finding no threshold, or a stalled count ends the history. Nothing committed earlier is undone. |
| `PeirceRejection.HistoryExtends` | plots/ash_plot/ASH/peirce.py:157-165 | A committed round appends one commit to the history already built. The history then still extends to the whole `Rounds`. |
| `PeirceRejection.RoundsStop` | plots/ash_plot/ASH/peirce.py:133-169 | After the last committed round, the next suspect count has reached N//2, or has no threshold, or rejects no more points than the last commit. |
| `PeirceRejection.CountMono` | plots/ash_plot/ASH/peirce.py:152 | A mask true wherever another is has at least as many true entries. |
| `PeirceRejection.RejectNested` | plots/ash_plot/ASH/peirce.py:151-152 | Over the same residuals, a threshold that rejects more points rejects every point the other one rejects. |
| `PeirceRejection.MaskNested` | plots/ash_plot/ASH/peirce.py:151-157 | Of two rounds over the same sample, the one that rejects more points rejects every point the other rejects. |
| `PeirceRejection.NestedRejections` | plots/ash_plot/ASH/peirce.py:150-165 | A point rejected in committed round i is still rejected in every later committed round j: a commit never gives a point back. |
| `PeirceRejection.SmallSampleRejectsNothing` | plots/ash_plot/ASH/peirce.py:133-135 | For N <= 3 no round is committed, so by the constructor's outcome every point is accepted. |
| `PeirceRejection.TooFewForMRejectsNothing` | plots/ash_plot/ASH/peirce.py:139-143 | A sample of fewer than m + 2 points commits no round, so by the constructor's outcome every point is accepted: with one suspect N - m - 1 <= 0 and the root finder returns None. |
| `PeirceRejection.IdenticalValuesRejectNothing` | plots/ash_plot/ASH/peirce.py:151-157 | If every point equals the mean and σ >= 0, no round is committed: a threshold is always above 0.1, so no residual exceeds σR. |
| `PeirceRejection.OutcomeAfterLoop` | plots/ash_plot/ASH/peirce.py:172-175 | What the loop maintains, after the reset for a run with no commit, is the documented outcome (see the next row). |
| `PeirceRejection.PeirceCriteria.constructor` | plots/ash_plot/ASH/peirce.py:101-180 | `commits` is `Rounds` over the sample with the root finder's thresholds. RejVec and AcceptVec have length N, are complementary, and x2 = x[AcceptVec] with \|x2\| = #accepted. With no commit, nothing is rejected and x2 = x. Otherwise RejVec is the last committed round's mask, and its count is that round's count. |
| `PyText.IsSpace` | plots/form_valid.py:110 | `str.isspace` on one character (also the class `\s`): the ASCII controls 9-13 and 28-31, the space and the Unicode space separators. |
| `PyText.IsAllSpace` | plots/form_valid.py:110 | `data_string.isspace()`: non-empty and white space only. |
| `PyText.TrimStart` | plots/form_valid.py:115 | `lstrip()`: a suffix of s; every dropped character is white space, and the result is empty or starts with a non-space. |
| `PyText.TrimEnd` | plots/form_valid.py:115 | `rstrip()`: a prefix of s; every dropped character is white space, and the result is empty or ends with a non-space. |
| `PyText.Strip` | plots/form_valid.py:115 | `strip()`: the result is empty or neither starts nor ends with white space. |
| `PyText.ReplaceChar` | plots/form_valid.py:51 | `replace('_', ' ')`: same length, and no `_` is left. |
| `PyText.Title` | plots/form_valid.py:51 | `title()`: same length; see the next rows for what it does at each position. |
| `PyText.TitleAt` | plots/form_valid.py:51 | `title()` raises every letter that starts a word and lowers every letter inside a word, position by position. |
| `PyText.TitleIdempotent` | plots/form_valid.py:51 | `s.title().title() == s.title()`. |
| `PyText.IntToString` | plots/form_valid.py:31 | `'%i' % i`: a minus sign for negatives, then the decimal digits of \|i\| without leading zeros. |
| `PyText.IntToStringParses` | plots/form_valid.py:31 | `'%i' % i` is a minus sign for negatives followed by decimal digits, and reading it back gives i. |
| `FormValid.SplitRuns` | plots/form_valid.py:115 | `re.split(r'[\s,]+', t)`: the pieces between maximal separator runs, with an empty first or last piece where t starts or ends with a separator; never an empty list. |
| `FormValid.DropEmpty` | plots/form_valid.py:115 | The `if s` filter of the comprehension: drops the empty pieces and keeps the others in order. |
| `FormValid.DataSplit` | plots/form_valid.py:110-116 | `data_split`: [] for empty or white-space input, otherwise the non-empty pieces of splitting the stripped input at comma and white-space runs. No token is empty. |
| `FormValid.SplitRunsTokens` | plots/form_valid.py:115 | `re.split(r'[\s,]+', t)` with the empty pieces dropped is the list of maximal non-separator runs of t. |
| `FormValid.StripTokens` | plots/form_valid.py:115 | Stripping white space at both ends keeps the runs. |
| `FormValid.DataSplitIsTokens` | plots/form_valid.py:110-115 | `data_split(s)`, including its empty and blank guard, is the list of maximal runs of non-separators of s, in order. |
| `FormValid.DataSplitLayout` | plots/form_valid.py:110-115 | s has a layout of separator gaps around the words `data_split(s)`. Every layout of s has exactly those words. |
| `FormValid.DataSplitTokensClean` | plots/form_valid.py:115 | Every token is non-empty and contains no comma and no white space. |
| `FormValid.DataSplitEmpty` | plots/form_valid.py:110-115 | `data_split(s) == []` exactly when s is empty or consists of commas and white space only. |
| `FormValid.DataSplitOuterSeps` | plots/form_valid.py:115 | Separators added at the start or the end do not change the result. |
| `FormValid.DataSplitJoinRoundTrip` | plots/form_valid.py:115 | `data_split(','.join(data_split(s))) == data_split(s)`. |
| `FormValid.DataSplitRepeatedSeps` | tests/test_form_valid.py:32 | `"1, 2  3,,4"` splits into `1`, `2`, `3`, `4`. |
| `FormValid.DataSplitOuterCommas` | tests/test_form_valid.py:33 | `",1,2,3,"` splits into `1`, `2`, `3`. |
| `FormValid.DataSplitKeepsWords` | tests/test_form_valid.py:35 | `"1,hello,3.0"` splits into `1`, `hello`, `3.0`. Nothing numeric is checked. |
| `FormValid.NewDataLength` | plots/form_valid.py:27-32 | Keeps min and max. Uses the given message when it is not None and not empty, and otherwise the default naming both bounds as `%i` prints them. |
| `FormValid.CheckDataLength` | plots/form_valid.py:34-38 | Passes exactly when min <= count and (max == -1 or count <= max). Otherwise it fails with the validator's message. |
| `FormValid.DataLengthBounds` | plots/form_valid.py:37 | Both bounds are inclusive. max == -1 leaves only the lower bound. Separators added around the data never change the verdict. |
| `FormValid.FieldLabelClean` | plots/form_valid.py:51 | The field name shown in the default message contains no underscore. Labelling it again changes nothing. |
| `FormValid.NewDataLengthEqual` | plots/form_valid.py:47-52 | Keeps the field name. Uses the given message, or the default that embeds the name with `_` replaced by a space and then title-cased. |
| `FormValid.CheckDataLengthEqual` | plots/form_valid.py:54-67 | A field name missing from the form fails with the "Invalid field name" message. Otherwise it passes exactly when the two fields have the same token count, and fails with the validator's message when they do not. |
| `FormValid.DataLengthEqualSymmetric` | plots/form_valid.py:64-67 | Comparing a against b passes exactly when comparing b against a does. Two fields without tokens pass. |
| `FormValid.NewDataFloat` | plots/form_valid.py:76-79 | Uses the given message, or the default "All data points must be numbers (e.g., 3.14 or -42).". |
| `FormValid.CheckDataFloat` | plots/form_valid.py:81-88 | Passes exactly when every token is a number. Otherwise it fails with the validator's message. |
| `FormValid.DataFloatBlankPasses` | plots/form_valid.py:82-84 | Empty, blank or separator-only data passes. One non-numeric token makes it fail. |

## Left out

- The closed-form body of `PeirceFunc` (peirce.py:227-257) is not modelled: the logarithms, erfc, the square root and the 1e-300 underflow cut. It is the parameter `formula`, which may return any finite value, +inf or -inf. NaN is not represented. The bracket check rejects NaN exactly as it rejects an infinity, and the guards already send every point where the body would be undefined to +inf. Inside the loop the source treats NaN differently: `abs(func_xo) > eps` is false for NaN (peirce.py:318), so a NaN midpoint would end the loop, pass the test at :331 and be returned as R, which leaves the `isnan` test at :319 unreachable. The model gives up (`None`) on every non-finite midpoint instead. The difference cannot arise here: inside the guards the closed form is finite or -inf, never NaN.
- Floating-point arithmetic is not modelled; reals are exact. 0.1, 0.1² and 2e-12 are the exact decimals, not their doubles. The midpoint always lies strictly inside the bracket, which a double midpoint need not do once the bracket is two ulps wide. The float `sqrt` in the upper end is an unconstrained parameter, so nothing proved depends on it.
- `np.mean` and `np.std(ddof=1)` (peirce.py:104-105) are not modelled. `xbar` and `sigma` are inputs of the constructor.
- The `UnboundLocalError` fallback (peirce.py:176-180) is not modelled: `prev_rejected_count` is always bound there, so the handler never runs. The `__main__` demo is also left out.
- PeirceRejection.PeirceCriteria.constructor keeps the current masks and x2 in locals during the loop. It writes the fields `RejVec`, `AcceptVec` and `x2` once, after the loop. The source overwrites the fields in every committed round; the final state is the same.
- The float conversion inside `DataFloat` (`np.array(..., dtype=float)`) is not modelled. It is the parameter `isNumber`, applied to each token.
- A field's data that is `None` is modelled as the empty string. `data_split` treats both the same way.
- `getattr(form, name)` is modelled as a lookup in a map from field names to their text. Attributes of a form that are not fields are not modelled.
- Non-ASCII letters in `str.title` are not modelled. Only `A`-`Z` and `a`-`z` are cased; every other character is left unchanged and counts as uncased.
- Web routing, templating, plotting, the hex-colour `Regexp` validators and the WTForms classes are outside this model.

# Simplex tableau engine, modelled in Dafny

This project models the tableau core of a small Simplex solver for linear programs of the
form "maximize c·x subject to Ax ≤ b", written in Java as `SimplexMethod` in `Main.java`.
The core has four parts:

- **Rows.** The row class `SimplexTable.Row` has coefficients, a `result` and a `basicIndex`.
- **The table** (`SimplexTable`) holds an objective row `z` and a list of constraint rows
  `ineqs`. `leastNegativeIndex` picks the entering column.
- **`maximize`** negates `z` and then loops over the ratio test and the pivot.
- **The tableau-building half of `parseStream`.** It works over input lines that are
  already split into numbers.

The code is modelled as written, not as textbook Simplex, and its quirks are kept:

- `multiplyBy` leaves `result` unscaled.
- `plus` overwrites `result` instead of adding to it.
- The leaving basic index `basicLeaves` is also used as a row position (`getRow`) and as a
  column index.
- Slack 1 goes at column `m + i`, and the basic index starts at `m + i + 1`.

Two modules:

- **`Tableau`** (`tableau.dfy`) is the value model: rows as `RowState`, tableaux as `Table`,
  and pure functions that say what each step does to them, with the lemmas about them.
  - The entering-column rule: `LeastNegative`, specified by `IsLeastNegativeIndex`.
  - The ratio test: `MinRatioPos` / `LeavingVariable`, specified by `IsRatioChoice`.
  - The pivot, stage by stage: `Prepared`, `Reduced`, `Pivoted`.
  - The decision of one loop iteration: `Choose`.
  - The loop's run: `IsStep` and `IsTrace`.
  - The line logic of `parseStream`: `Terminator`, `ObjectiveRow`, `SlackRow`.
- **`Simplex`** (`simplex.dfy`) has the classes `Row`, `SimplexTable` and `SimplexMethod`.
  Their fields are updated in place by methods with loops, and each method is proved to
  leave the state that the matching `Tableau` function describes.
  - Constraint rows are distinct objects held in `ineqs: seq<Row>`.
  - The elimination loop of `maximize` reads the row at position `basicLeaves` as it stands
    at each turn, and may eliminate that row against itself. The model keeps this aliasing
    (`ElimPrefix`).

`maximize` can stop in several ways, modelled by the `Outcome` datatype:

- it finds no negative coefficient (`Optimal`);
- it throws "no valid ratio found" (`NoValidRatio`);
- `getRow` or `set` is out of range (`IndexOutOfRange`);
- it would divide by a zero `crossNumber` (`ZeroCrossNumber`);
- a fuel bound ends the loop (`OutOfFuel`), because the source loop has no termination
  argument.

The parse errors are `EndOfInput`, `NoEpsilon`, `NotEnoughResults`, `WrongInequality` and
`SlackOutOfRange`. Over text input, `NoEpsilon` and `SlackOutOfRange` cannot arise, because both
need an empty line of numbers (see "Left out").

The code departs from the textbook tableau method it sets out to implement, and the model
follows the code:

- **Pivot row.** The textbook pivots on the row whose basic variable leaves. The code takes
  the row at position `basicLeaves` (`getRow`).
- **Normalising.** The textbook divides the pivot row's right-hand side as well. The code
  does not (`multiplyBy`).
- **Elimination.** The textbook eliminates against a snapshot of the pivot row and zeroes
  the entering column. The code eliminates against the row as it currently stands, with
  multipliers stored in column `basicLeaves`. The objective's entering column becomes
  `z[e] - z[e] / cross`, not 0 (`PivotObjectiveEntering`).
- **Ratio test.** The textbook admits only positive coefficients. The code admits any
  nonzero coefficient whose ratio is positive, so a negative coefficient over a negative
  right-hand side also counts.
- **Slack columns.** The textbook puts slack columns after the `n` original columns. The
  code puts slack 1 at column `m + i`, with basic index `m + i + 1`.
  - As a result, every tableau `parseStream` builds stops before its first pivot
    (`FirstPivotOutOfRange`).
- **Right-hand-side width.** The reading loop tells the right-hand-side line apart from a
  constraint line only by the line after it, so that line must be exactly as wide as the
  objective. A problem is read as intended only when it has as many constraints as
  variables.
  - With two or more constraints and a different number of variables, the right-hand-side
    line gives `WrongInequality` (lines 200-203).
  - With one constraint over two or more variables, the one-entry right-hand-side line is
    taken for the precision line. The constraint line is then read as the right-hand
    sides, no constraint row is built (`m = 0`), and the right-hand side becomes the
    precision (lines 180, 198).
- **Short input.** Too few lines fail in `nextLine` (`EndOfInput`), not with the "not
  enough results" message, which is reserved for a short right-hand-side line.
- **Termination.** Unboundedness is the exception "no valid ratio found", not a result,
  and the loop has no iteration cap.

## Model

| member | source | states |
|---|---|---|
| `Tableau.Scaled` | Main.java:46-50 | every coefficient multiplied by `c`; `result` and `basicIndex` unchanged |
| `Tableau.Eliminated` | Main.java:131-146 | the eliminated row keeps its length, its basic index and its entry in column `col` |
| `Tableau.LeastNegativeUpTo` | Main.java:80-88 | the scan over the first `n` coefficients yields -1 or a position below `n` |
| `Tableau.LeastNegative` | Main.java:79-90 | `leastNegativeIndex` yields -1 or a position of `z` |
| `Tableau.LeastNegativeUpToSpec` | Main.java:79-90 | the scan over any prefix is -1 iff no entry of the prefix is negative; otherwise it is a minimal negative entry, the first one on ties |
| `Tableau.LeastNegativeSpec` | Main.java:79-90 | `leastNegativeIndex` is -1 iff every `z` coefficient is ≥ 0; otherwise it returns an in-range `k` with `z[k] < 0`, `z[k] ≤ z[j]` for all `j`, and `z[k] < z[j]` for every `j < k` |
| `Tableau.LeastNegativeUnique` | Main.java:79-90 | exactly one index satisfies that specification, namely the one the scan returns |
| `Tableau.MinRatioPosUpTo` | Main.java:108-116 | the ratio scan over the first `n` rows picks no row, or a row below `n` with a nonzero coefficient and a positive ratio in column `e` |
| `Tableau.MinRatioPos` | Main.java:108-116 | the ratio scan over all rows picks no row, or an eligible row |
| `Tableau.LeavingVariable` | Main.java:108-119 | `basicLeaves` is -1 exactly when the scan picks no row, and otherwise a basic index (never below 0) |
| `Tableau.MinRatioPosUpToSpec` | Main.java:108-116 | over any prefix of rows, the scan picks no row iff none has a nonzero coefficient with a positive ratio; otherwise it picks an eligible row with the least ratio, the first on ties |
| `Tableau.MinRatioPosSpec` | Main.java:108-116 | the same over all rows |
| `Tableau.LeavingVariableSpec` | Main.java:108-119 | `basicLeaves` is -1 iff no row is eligible (the "no valid ratio found" case); otherwise it is the basic index of a row that is the ratio test's choice |
| `Tableau.Normalized` | Main.java:121-122 | the row at position `leaves` has exactly 1 in column `enter` and its `result` unchanged; every other row is untouched |
| `Tableau.ObjectiveMultiplier` | Main.java:124 | `z[leaves]` becomes `-z[enter]/cross`; every other entry is kept |
| `Tableau.RowMultiplier` | Main.java:126-128 | a row basic in `leaves` is untouched; any other row gets `-row[enter]/cross` in column `leaves` and nothing else changes |
| `Tableau.WithMultipliers` | Main.java:125-129 | `RowMultiplier` applied to each row, in position |
| `Tableau.ElimPrefix` | Main.java:137-146 | the elimination loop over the first `k` rows, each eliminated against the row at position `col` as it then stands, keeps the number of rows and their common width |
| `Tableau.ElimPrefixFrame` | Main.java:137-146 | the elimination loop changes no basic index and no entry of column `leaves`, leaves rows basic in `leaves` alone, and does not touch rows it has not reached |
| `Tableau.Prepared` | Main.java:121-129 | the first half of the pivot keeps the tableau rectangular and its shape |
| `Tableau.Reduced` | Main.java:131-150 | the second half of the pivot keeps the tableau rectangular and its shape |
| `Tableau.Pivoted` | Main.java:121-150 | a pivot keeps the number of rows and columns and every row as wide as `z` |
| `Tableau.PivotReassigns` | Main.java:121-150 | after a pivot, the row at position `leaves` is basic in `enter` and no other row's basic index has changed |
| `Tableau.PivotKeepsMultiplierColumn` | Main.java:124-146 | after the pivot, `z[leaves] = -z[enter]/cross`, and every other row holds in column `leaves` the value lines 125-129 put there |
| `Tableau.PivotSkipsRowsBasicInLeaves` | Main.java:125-146 | a row at another position that is basic in `leaves` is left exactly as it was |
| `Tableau.PivotRowNormalized` | Main.java:121-150 | when the row at position `leaves` is basic in `leaves`, it ends as itself divided by `cross`, with 1 in column `enter`, `result` unscaled, and basic in `enter` |
| `Tableau.PivotObjectiveEntering` | Main.java:124-136 | for `enter != leaves`, the pivot leaves `z[enter] - z[enter]/cross` in the objective's entering column and adds `-result·z[enter]/cross` to its result |
| `Tableau.Choose` | Main.java:106-121 | when an iteration pivots, its column and row indices are in range and `crossNumber` is nonzero |
| `Tableau.ChooseOptimal` | Main.java:104-107 | the loop stops as optimal iff no objective coefficient is negative |
| `Tableau.ChooseNoValidRatio` | Main.java:106-119 | "no valid ratio found" is raised for column `e` iff `e` is the least-negative column and no row is eligible for the ratio test in it |
| `Tableau.ChoosePivotOn` | Main.java:106-121 | a pivot goes ahead on the least-negative column and on the basic index of the ratio test's row, and that index is in range for both the rows and `z` |
| `Tableau.IsStep` | Main.java:106-151 | one pivoting iteration: it happens only on a rectangular tableau whose decision is to pivot, and leaves a rectangular tableau of the same shape |
| `Tableau.IsTrace` | Main.java:106-152 | the tableaux of the `while` loop, each one pivot (`IsStep`) after the previous; its properties are `TraceKeepsShape`, `TracesAgree` and `FirstPivotOutOfRange` |
| `Tableau.TraceKeepsShape` | Main.java:106-152 | every tableau the loop passes through is rectangular, with the first tableau's numbers of rows and columns |
| `Tableau.TracesAgree` | Main.java:106-152 | the loop is deterministic: two runs from the same tableau agree step for step |
| `Tableau.FirstPivotOutOfRange` | Main.java:108-121 | when every basic index is at least the number of rows (as `parseStream` leaves them), the loop stops before any pivot with `Optimal`, `NoValidRatio`, or `IndexOutOfRange` on an index ≥ the row count |
| `Tableau.Terminator` | Main.java:174-205 | lines before the terminator are wider than one entry and as wide as the objective; the terminator is either at most one entry wide or of a different width |
| `Tableau.ObjectiveRow` | Main.java:189-190 | `z` is the objective followed by `m` zeros, with result 0 |
| `Tableau.SlackRow` | Main.java:192-196 | constraint row `i` is its line followed by `m` zeros, with 1 at column `m+i`, basic index `m+i+1` and result `rhs[i]` |
| `Tableau.SlackColumnsInRange` | Main.java:191-196 | every slack column `m+i` is in range iff `m = 0` or the unchecked first constraint line is non-empty |
| `Tableau.TruncateToInt` | Main.java:198 | `intValue` truncates toward zero |
| `Simplex.Row.constructor` | Main.java:23-26 | the row holds a copy of the given coefficients and result, with basic index 0 |
| `Simplex.Row.FromCoefficients` | Main.java:27-29 | the row holds the given coefficients, result 0 and basic index 0 |
| `Simplex.Row.Copy` | Main.java:30-32 | the row holds the other row's coefficients and result, but basic index 0 (the basic index is not copied) |
| `Simplex.Row.Get` | Main.java:51-53 | the coefficient at an in-range index |
| `Simplex.Row.Set` | Main.java:54-56 | one coefficient is replaced, nothing else changes |
| `Simplex.Row.ExtendWithNVariables` | Main.java:34-38 | the row grows by exactly `number` entries (none if negative), keeps its prefix, and every new entry is 0 |
| `Simplex.Row.Plus` | Main.java:40-45 | `coefs[i] += c·other[i]`, while `result` is set to `c·other.result` with no accumulation; `other` may be the row itself |
| `Simplex.Row.MultiplyBy` | Main.java:46-50 | `coefs[i] := c·coefs[i]`, with `result` unchanged |
| `Simplex.Row.EliminateUsing` | Main.java:131-146 | the in-place elimination loop leaves the row as `Eliminated` says, even when the pivot row is the row itself |
| `Simplex.SimplexTable.GetRow` | Main.java:91-93 | the row object at an in-range position of `ineqs`; in a valid table it is not `z` and sits at no other position |
| `Simplex.SimplexTable.LeastNegativeIndex` | Main.java:79-90 | the loop returns the index `LeastNegativeSpec` characterises |
| `Simplex.SimplexTable.RatioTest` | Main.java:108-116 | the loop returns the basic index of the row `MinRatioPosSpec` characterises, or -1 |
| `Simplex.SimplexTable.NextChoice` | Main.java:108-121 | once an entering column is found, the rest of one iteration's decision is exactly `Choose` |
| `Simplex.SimplexTable.Decide` | Main.java:106-121 | one iteration's decision, from `leastNegativeIndex` on, is exactly `Choose` |
| `Simplex.SimplexTable.Negate` | Main.java:104 | negation scales `z` by -1 and leaves the constraint rows and the invariant intact |
| `Simplex.SimplexTable.SetMultipliers` | Main.java:125-129 | the multiplier loop leaves the rows as `WithMultipliers` says and does not touch `z` |
| `Simplex.SimplexTable.EliminateRowAt` | Main.java:138-145 | one turn of the elimination loop, against the row now at position `basicLeaves` |
| `Simplex.SimplexTable.EliminateConstraints` | Main.java:137-146 | the elimination loop leaves the rows as `ElimPrefix` says and does not touch `z` |
| `Simplex.SimplexTable.Prepare` | Main.java:121-129 | normalising plus the multiplier updates give `Prepared` |
| `Simplex.SimplexTable.Reduce` | Main.java:131-150 | the eliminations plus the basic-index reassignment give `Reduced` |
| `Simplex.SimplexTable.Pivot` | Main.java:121-150 | the in-place pivot keeps the table valid and yields `Pivoted` |
| `Simplex.SimplexTable.Advance` | Main.java:121-151 | one pivoting iteration is a step of the trace, and the next decision is `Choose` on the new tableau |
| `Simplex.SimplexTable.Iterate` | Main.java:106-152 | the loop runs a trace of at most `fuel` pivots from the current tableau, and it ends with fuel left only when `Choose` stops it |
| `Simplex.SimplexMethod.Maximize` | Main.java:102-159 | after negating `z`, the loop goes through a trace and stops with what `Choose` says on the last tableau; `Optimal` means `leastNegativeIndex` returns -1 and no `z` entry is negative |
| `Simplex.SimplexMethod.AddSlackVariables` | Main.java:191-197 | succeeds iff every slack column `m+i` is in range, and then leaves each row as `SlackRow` |
| `Simplex.SimplexMethod.Finish` | Main.java:180-199 | handles the terminator line: an empty line gives `NoEpsilon`; too few right-hand sides give `NotEnoughResults`; an empty first constraint line gives `SlackOutOfRange` (both empty-line cases exist only over token lists); otherwise the tableau `BuiltFrom` the lines |
| `Simplex.SimplexMethod.BuiltFrom` | Main.java:185-198 | the state a successful `parseStream` leaves: `t - 2` constraint rows, each basic index above the row count |
| `Simplex.SimplexMethod.BuiltTableValid` | Main.java:174-198 | a parsed tableau whose first constraint line is as wide as the objective meets `maximize`'s requirement, and every basic index is at least the number of rows |
| `Simplex.SimplexMethod.BuiltTableStopsAtOnce` | Main.java:102-121 | on such a parsed tableau, `maximize` stops before its first pivot, with `Optimal`, `NoValidRatio` or an out-of-range `getRow` |
| `Simplex.SimplexMethod.ParseStream` | Main.java:162-207 | over tokenised lines, each error case of the source arises exactly on its input class, keyed by the `Terminator` line; on success the result is the fresh tableau `BuiltFrom` the lines |

## Left out

- Stream I/O (`Scanner`, `nextLine`, `strip`, `split`, `Double.parseDouble`) and `main`. Input
  is a sequence of already-tokenised lines. A missing line is `EndOfInput`.
  `NumberFormatException` is not modelled.
  - An empty token line has no counterpart in text input: splitting an empty line gives one
    empty token, which `Double.parseDouble` rejects (lines 166-179). So `NoEpsilon` and the
    empty-first-line `SlackOutOfRange` arise only over token lists; from text, those inputs
    end in the unmodelled `NumberFormatException`.
- The `printf` of the solution, `toString`, and the `0d` that `maximize` returns. These
  are output only.
- IEEE-754 doubles: arithmetic is over `real`, without rounding, `Infinity` or `NaN`.
  - A zero coefficient in the ratio test is treated as a skipped row; Java's infinite or
    NaN ratio never passes the test.
  - The `Double.MAX_VALUE` sentinel is read as "no minimum yet", so ratios of
    `MAX_VALUE` and above are not excluded.
- `Simplex.SimplexTable.NextChoice`: a zero `crossNumber` ends with `ZeroCrossNumber`, but
  Java would go on computing with infinities.
- `Simplex.SimplexTable.NextChoice`: out-of-range indices are checked before the pivot
  mutates anything. In Java, the `z.set` at line 124 throws only after the row has been
  scaled.
- `Simplex.SimplexMethod.Maximize`: termination is not proved, because the source has no
  anti-cycling rule. A `fuel` bound ends the loop with `OutOfFuel`.
- `Simplex.SimplexMethod.Maximize`: requires every row to be as wide as `z`. A tableau
  built by `parseStream` may have a first constraint row of a different width, because
  that line's length is never checked. `BuiltFrom` states that row as `SlackRow` says,
  and `BuiltTableValid` gives the requirement whenever that line is as wide as the objective.
- `Tableau.TruncateToInt`: Java's `intValue` saturation at the `int` range is not
  modelled, because integers are unbounded here.
- Textbook optimality or feasibility of the result is not stated. The source's pivot is
  not Gauss-Jordan elimination, so it does not promise them (`PivotObjectiveEntering`
  shows the difference).

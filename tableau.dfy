/**
 * Value model of the Simplex tableau kept by `SimplexMethod` in Main.java.
 *
 * A row is its coefficients, its `result` (right-hand side, or the objective's value for
 * the objective row) and the index of its basic variable. The functions here state what
 * each step of the source does to these values; the classes in module Simplex are proved
 * to do exactly that to their fields. Arithmetic is over `real`: floating-point rounding
 * is not modelled. Line numbers in the comments are those of Main.java.
 */
module Tableau {

  datatype Option<T> = None | Some(value: T)

  /** The value of one `SimplexTable.Row`. */
  datatype RowState = RowState(coefs: seq<real>, result: real, basicIndex: nat)

  /** The objective row `z` and the constraint rows `ineqs`, in their list order. */
  datatype Table = Table(z: RowState, rows: seq<RowState>)

  predicate SameWidth(rows: seq<RowState>, width: nat) {
    forall j :: 0 <= j < |rows| ==> |rows[j].coefs| == width
  }

  /** Every constraint row is as wide as the objective row. */
  predicate WellFormed(t: Table) {
    SameWidth(t.rows, |t.z.coefs|)
  }

  function Zeros(n: nat): (s: seq<real>)
    ensures |s| == n
    ensures forall i :: 0 <= i < n ==> s[i] == 0.0
  {
    seq(n, _ => 0.0)
  }

  // ---------------------------------------------------------------------------
  // Row operations
  // ---------------------------------------------------------------------------

  /** `multiplyBy(c)`: every coefficient is multiplied by `c`; `result` is left as it is. */
  function Scaled(r: RowState, c: real): (s: RowState)
    ensures |s.coefs| == |r.coefs| && s.result == r.result && s.basicIndex == r.basicIndex
    ensures forall i :: 0 <= i < |r.coefs| ==> s.coefs[i] == c * r.coefs[i]
  {
    r.(coefs := seq(|r.coefs|, i requires 0 <= i < |r.coefs| => c * r.coefs[i]))
  }

  /**
   * One elimination of a row `r` against the pivot row `p` at column `col`, as the source
   * does it for `z` and for every constraint row: outside column `col` each coefficient gets
   * `p[i] * r[col]` added, column `col` keeps the multiplier, and the result gets
   * `p.result * r[col]` added.
   */
  function Eliminated(p: RowState, r: RowState, col: nat): (e: RowState)
    requires col < |r.coefs| <= |p.coefs|
    ensures |e.coefs| == |r.coefs| && e.basicIndex == r.basicIndex
    ensures e.coefs[col] == r.coefs[col]
  {
    RowState(
      seq(|r.coefs|, i requires 0 <= i < |r.coefs| =>
        if i == col then r.coefs[i] else p.coefs[i] * r.coefs[col] + r.coefs[i]),
      p.result * r.coefs[col] + r.result,
      r.basicIndex)
  }

  // ---------------------------------------------------------------------------
  // Entering variable: leastNegativeIndex
  // ---------------------------------------------------------------------------

  /**
   * What `leastNegativeIndex` promises about the first `n` coefficients of `s`: -1 exactly
   * when none of them is negative, and otherwise the position of a most negative one, the
   * first one on ties.
   */
  predicate IsLeastNegativeIn(s: seq<real>, n: nat, k: int)
    requires n <= |s|
  {
    (k == -1 <==> forall j :: 0 <= j < n ==> s[j] >= 0.0) &&
    (k != -1 ==>
      0 <= k < n && s[k] < 0.0 &&
      (forall j :: 0 <= j < n ==> s[k] <= s[j]) &&
      (forall j :: 0 <= j < k ==> s[k] < s[j]))
  }

  predicate IsLeastNegativeIndex(s: seq<real>, k: int) {
    IsLeastNegativeIn(s, |s|, k)
  }

  /**
   * The scan of `leastNegativeIndex` over the first `n` coefficients, one at a time,
   * starting from `least = 0`.
   */
  function LeastNegativeUpTo(s: seq<real>, n: nat): (k: int)
    requires n <= |s|
    ensures -1 <= k < n
  {
    if n == 0 then -1
    else
      var k := LeastNegativeUpTo(s, n - 1);
      var least := if k == -1 then 0.0 else s[k];
      if s[n - 1] < least then n - 1 else k
  }

  function LeastNegative(s: seq<real>): (k: int)
    ensures -1 <= k < |s|
  {
    LeastNegativeUpTo(s, |s|)
  }

  lemma {:induction false} LeastNegativeUpToSpec(s: seq<real>, n: nat)
    requires n <= |s|
    ensures IsLeastNegativeIn(s, n, LeastNegativeUpTo(s, n))
  {
    if n > 0 {
      LeastNegativeUpToSpec(s, n - 1);
    }
  }

  lemma LeastNegativeSpec(s: seq<real>)
    ensures IsLeastNegativeIndex(s, LeastNegative(s))
  {
    LeastNegativeUpToSpec(s, |s|);
  }

  // ---------------------------------------------------------------------------
  // Leaving variable: the ratio test of maximize
  // ---------------------------------------------------------------------------

  predicate ColumnInRange(rows: seq<RowState>, col: nat) {
    forall j :: 0 <= j < |rows| ==> col < |rows[j].coefs|
  }

  /**
   * A row takes part in the ratio test when `result / row[e]` is a strictly positive
   * number. A zero coefficient makes the source's ratio infinite or NaN, which never
   * passes `ratio > 0 && ratio < minPositiveRatio`, so such a row is skipped.
   */
  predicate Eligible(r: RowState, e: nat)
    requires e < |r.coefs|
  {
    r.coefs[e] != 0.0 && r.result / r.coefs[e] > 0.0
  }

  function Ratio(r: RowState, e: nat): real
    requires e < |r.coefs| && r.coefs[e] != 0.0
  {
    r.result / r.coefs[e]
  }

  /** What the ratio test promises about the position it settles on among the first `n` rows. */
  predicate IsRatioChoiceIn(rows: seq<RowState>, e: nat, n: nat, p: Option<nat>)
    requires ColumnInRange(rows, e) && n <= |rows|
  {
    (p.None? <==> forall j :: 0 <= j < n ==> !Eligible(rows[j], e)) &&
    (p.Some? ==>
      p.value < n && Eligible(rows[p.value], e) &&
      (forall j :: 0 <= j < n && Eligible(rows[j], e) ==>
        Ratio(rows[p.value], e) <= Ratio(rows[j], e)) &&
      (forall j :: 0 <= j < p.value && Eligible(rows[j], e) ==>
        Ratio(rows[p.value], e) < Ratio(rows[j], e)))
  }

  predicate IsRatioChoice(rows: seq<RowState>, e: nat, p: Option<nat>)
    requires ColumnInRange(rows, e)
  {
    IsRatioChoiceIn(rows, e, |rows|, p)
  }

  /**
   * The scan of the ratio test over the first `n` rows: a row replaces the current choice
   * when it is eligible and its ratio is strictly below the current minimum
   * (`Double.MAX_VALUE` at the start, read here as "no minimum yet").
   */
  function MinRatioPosUpTo(rows: seq<RowState>, e: nat, n: nat): (p: Option<nat>)
    requires ColumnInRange(rows, e) && n <= |rows|
    ensures p.Some? ==> p.value < n && Eligible(rows[p.value], e)
  {
    if n == 0 then None
    else
      var p := MinRatioPosUpTo(rows, e, n - 1);
      if Eligible(rows[n - 1], e) && (p.None? || Ratio(rows[n - 1], e) < Ratio(rows[p.value], e))
      then Some(n - 1)
      else p
  }

  function MinRatioPos(rows: seq<RowState>, e: nat): (p: Option<nat>)
    requires ColumnInRange(rows, e)
    ensures p.Some? ==> p.value < |rows| && Eligible(rows[p.value], e)
  {
    MinRatioPosUpTo(rows, e, |rows|)
  }

  lemma {:induction false} MinRatioPosUpToSpec(rows: seq<RowState>, e: nat, n: nat)
    requires ColumnInRange(rows, e) && n <= |rows|
    ensures IsRatioChoiceIn(rows, e, n, MinRatioPosUpTo(rows, e, n))
  {
    if n > 0 {
      MinRatioPosUpToSpec(rows, e, n - 1);
    }
  }

  lemma MinRatioPosSpec(rows: seq<RowState>, e: nat)
    requires ColumnInRange(rows, e)
    ensures IsRatioChoice(rows, e, MinRatioPos(rows, e))
  {
    MinRatioPosUpToSpec(rows, e, |rows|);
  }

  /** `basicLeaves` after the ratio test: the chosen row's basic index, or -1. */
  function LeavingVariable(rows: seq<RowState>, e: nat): (l: int)
    requires ColumnInRange(rows, e)
    ensures l >= -1 && (l == -1 <==> MinRatioPos(rows, e).None?)
  {
    match MinRatioPos(rows, e)
    case None => -1
    case Some(p) => rows[p].basicIndex
  }

  /**
   * The ratio test yields -1 exactly when no row has a strictly positive ratio, and
   * otherwise the basic index of the first row with the least such ratio.
   */
  lemma LeavingVariableSpec(rows: seq<RowState>, e: nat)
    requires ColumnInRange(rows, e)
    ensures LeavingVariable(rows, e) == -1 <==> forall j :: 0 <= j < |rows| ==> !Eligible(rows[j], e)
    ensures LeavingVariable(rows, e) != -1 ==>
      exists p: nat :: p < |rows| && IsRatioChoice(rows, e, Some(p)) && LeavingVariable(rows, e) == rows[p].basicIndex
  {
    MinRatioPosSpec(rows, e);
    var p := MinRatioPos(rows, e);
    if p.Some? {
      assert IsRatioChoice(rows, e, Some(p.value));
    }
  }

  // ---------------------------------------------------------------------------
  // The pivot step of maximize, stage by stage
  // ---------------------------------------------------------------------------

  /** Lines 121-122: the row at POSITION `leaves` is divided by its entry in column `enter`. */
  function Normalized(rows: seq<RowState>, leaves: nat, enter: nat): (n: seq<RowState>)
    requires leaves < |rows| && enter < |rows[leaves].coefs| && rows[leaves].coefs[enter] != 0.0
    ensures |n| == |rows| && |n[leaves].coefs| == |rows[leaves].coefs|
    ensures n[leaves].coefs[enter] == 1.0
    ensures n[leaves].result == rows[leaves].result
    ensures n[leaves].basicIndex == rows[leaves].basicIndex
    ensures forall j :: 0 <= j < |rows| && j != leaves ==> n[j] == rows[j]
  {
    var c := rows[leaves].coefs[enter];
    var s := Scaled(rows[leaves], 1.0 / c);
    assert s.coefs[enter] == (1.0 / c) * c;
    rows[leaves := s]
  }

  /** Line 124: the objective's entry in column `leaves` becomes `-z[enter] / cross`. */
  function ObjectiveMultiplier(z: RowState, leaves: nat, enter: nat, cross: real): (m: RowState)
    requires leaves < |z.coefs| && enter < |z.coefs| && cross != 0.0
    ensures |m.coefs| == |z.coefs| && m.result == z.result && m.basicIndex == z.basicIndex
    ensures m.coefs[leaves] == -z.coefs[enter] / cross
    ensures forall i :: 0 <= i < |z.coefs| && i != leaves ==> m.coefs[i] == z.coefs[i]
  {
    z.(coefs := z.coefs[leaves := -z.coefs[enter] / cross])
  }

  /** Lines 126-128 for one row: unless it is basic in `leaves`, column `leaves` gets `-row[enter] / cross`. */
  function RowMultiplier(r: RowState, leaves: nat, enter: nat, cross: real): (m: RowState)
    requires leaves < |r.coefs| && enter < |r.coefs| && cross != 0.0
    ensures |m.coefs| == |r.coefs| && m.result == r.result && m.basicIndex == r.basicIndex
    ensures r.basicIndex == leaves ==> m == r
    ensures r.basicIndex != leaves ==> m.coefs[leaves] == -r.coefs[enter] / cross
    ensures forall i :: 0 <= i < |r.coefs| && i != leaves ==> m.coefs[i] == r.coefs[i]
  {
    if r.basicIndex != leaves then r.(coefs := r.coefs[leaves := -r.coefs[enter] / cross]) else r
  }

  /** Lines 125-129: `RowMultiplier` applied to every constraint row. */
  function WithMultipliers(rows: seq<RowState>, leaves: nat, enter: nat, cross: real): (m: seq<RowState>)
    requires ColumnInRange(rows, leaves) && ColumnInRange(rows, enter) && cross != 0.0
    ensures |m| == |rows|
    ensures forall j :: 0 <= j < |rows| ==> m[j] == RowMultiplier(rows[j], leaves, enter, cross)
  {
    seq(|rows|, j requires 0 <= j < |rows| => RowMultiplier(rows[j], leaves, enter, cross))
  }

  /**
   * Lines 137-146 after the first `k` constraint rows: each row not basic in `col`, in list
   * order, is eliminated against the CURRENT row at position `col`, which may itself have
   * been rewritten by an earlier step of the same loop.
   */
  function ElimPrefix(rows: seq<RowState>, col: nat, k: nat): (r: seq<RowState>)
    requires col < |rows| && k <= |rows|
    requires SameWidth(rows, |rows[col].coefs|) && col < |rows[col].coefs|
    ensures |r| == |rows| && SameWidth(r, |rows[col].coefs|)
    decreases k
  {
    if k == 0 then rows
    else
      var prev := ElimPrefix(rows, col, k - 1);
      if prev[k - 1].basicIndex != col
      then prev[k - 1 := Eliminated(prev[col], prev[k - 1], col)]
      else prev
  }

  /**
   * What the elimination loop leaves alone: every basic index, every entry of column `col`,
   * every row basic in `col`, and the rows it has not reached yet.
   */
  lemma {:induction false} ElimPrefixFrame(rows: seq<RowState>, col: nat, k: nat)
    requires col < |rows| && k <= |rows|
    requires SameWidth(rows, |rows[col].coefs|) && col < |rows[col].coefs|
    ensures forall j :: 0 <= j < |rows| ==> ElimPrefix(rows, col, k)[j].basicIndex == rows[j].basicIndex
    ensures forall j :: 0 <= j < |rows| ==> ElimPrefix(rows, col, k)[j].coefs[col] == rows[j].coefs[col]
    ensures forall j :: 0 <= j < |rows| && rows[j].basicIndex == col ==> ElimPrefix(rows, col, k)[j] == rows[j]
    ensures forall j :: k <= j < |rows| ==> ElimPrefix(rows, col, k)[j] == rows[j]
    decreases k
  {
    if k > 0 {
      ElimPrefixFrame(rows, col, k - 1);
    }
  }

  /**
   * Lines 121-129: the row at position `leaves` normalised, then column `leaves` of the
   * objective and of every row not basic in `leaves` set to its multiplier.
   */
  function Prepared(t: Table, enter: nat, leaves: nat): (p: Table)
    requires WellFormed(t) && enter < |t.z.coefs| && leaves < |t.z.coefs| && leaves < |t.rows|
    requires t.rows[leaves].coefs[enter] != 0.0
    ensures WellFormed(p) && |p.rows| == |t.rows| && |p.z.coefs| == |t.z.coefs|
  {
    var cross := t.rows[leaves].coefs[enter];
    Table(ObjectiveMultiplier(t.z, leaves, enter, cross),
          WithMultipliers(Normalized(t.rows, leaves, enter), leaves, enter, cross))
  }

  /**
   * Lines 131-150: the objective, then every constraint row not basic in `leaves`, is
   * eliminated against the row at position `leaves`; that row then becomes basic in `enter`.
   */
  function Reduced(t: Table, enter: nat, leaves: nat): (p: Table)
    requires WellFormed(t) && leaves < |t.z.coefs| && leaves < |t.rows|
    ensures WellFormed(p) && |p.rows| == |t.rows| && |p.z.coefs| == |t.z.coefs|
  {
    var r := ElimPrefix(t.rows, leaves, |t.rows|);
    Table(Eliminated(t.rows[leaves], t.z, leaves), r[leaves := r[leaves].(basicIndex := enter)])
  }

  /** Lines 121-150: one pivot on entering column `enter` and leaving id `leaves`. */
  function Pivoted(t: Table, enter: nat, leaves: nat): (p: Table)
    requires WellFormed(t) && enter < |t.z.coefs| && leaves < |t.z.coefs| && leaves < |t.rows|
    requires t.rows[leaves].coefs[enter] != 0.0
    ensures WellFormed(p) && |p.rows| == |t.rows| && |p.z.coefs| == |t.z.coefs|
  {
    Reduced(Prepared(t, enter, leaves), enter, leaves)
  }

  /** After the pivot, the row at position `leaves` is basic in `enter` and no other row's basic index moved. */
  lemma PivotReassigns(t: Table, enter: nat, leaves: nat)
    requires WellFormed(t) && enter < |t.z.coefs| && leaves < |t.z.coefs| && leaves < |t.rows|
    requires t.rows[leaves].coefs[enter] != 0.0
    ensures Pivoted(t, enter, leaves).rows[leaves].basicIndex == enter
    ensures forall j :: 0 <= j < |t.rows| && j != leaves ==>
      Pivoted(t, enter, leaves).rows[j].basicIndex == t.rows[j].basicIndex
  {
    var cross := t.rows[leaves].coefs[enter];
    var r1 := Normalized(t.rows, leaves, enter);
    ElimPrefixFrame(WithMultipliers(r1, leaves, enter, cross), leaves, |t.rows|);
  }

  /**
   * Column `leaves` of the objective holds `-z[enter] / cross` after the pivot, and every
   * constraint row keeps in column `leaves` what lines 125-129 put there: elimination never
   * writes that column.
   */
  lemma PivotKeepsMultiplierColumn(t: Table, enter: nat, leaves: nat)
    requires WellFormed(t) && enter < |t.z.coefs| && leaves < |t.z.coefs| && leaves < |t.rows|
    requires t.rows[leaves].coefs[enter] != 0.0
    ensures Pivoted(t, enter, leaves).z.coefs[leaves] ==
      -t.z.coefs[enter] / t.rows[leaves].coefs[enter]
    ensures forall j :: 0 <= j < |t.rows| && j != leaves ==>
      Pivoted(t, enter, leaves).rows[j].coefs[leaves] ==
        (if t.rows[j].basicIndex != leaves
         then -t.rows[j].coefs[enter] / t.rows[leaves].coefs[enter]
         else t.rows[j].coefs[leaves])
  {
    var cross := t.rows[leaves].coefs[enter];
    var r1 := Normalized(t.rows, leaves, enter);
    ElimPrefixFrame(WithMultipliers(r1, leaves, enter, cross), leaves, |t.rows|);
  }

  /** A row basic in `leaves` at another position is left exactly as it was. */
  lemma PivotSkipsRowsBasicInLeaves(t: Table, enter: nat, leaves: nat)
    requires WellFormed(t) && enter < |t.z.coefs| && leaves < |t.z.coefs| && leaves < |t.rows|
    requires t.rows[leaves].coefs[enter] != 0.0
    ensures forall j :: 0 <= j < |t.rows| && j != leaves && t.rows[j].basicIndex == leaves ==>
      Pivoted(t, enter, leaves).rows[j] == t.rows[j]
  {
    var cross := t.rows[leaves].coefs[enter];
    var r1 := Normalized(t.rows, leaves, enter);
    ElimPrefixFrame(WithMultipliers(r1, leaves, enter, cross), leaves, |t.rows|);
  }

  /**
   * When the row at position `leaves` is itself basic in `leaves` (the one case where
   * `getRow(basicLeaves)` is the row the ratio test chose), it ends the pivot divided by
   * `cross` in every coefficient, with 1 in column `enter`, its `result` unscaled, and
   * basic in `enter`.
   */
  lemma PivotRowNormalized(t: Table, enter: nat, leaves: nat)
    requires WellFormed(t) && enter < |t.z.coefs| && leaves < |t.z.coefs| && leaves < |t.rows|
    requires t.rows[leaves].coefs[enter] != 0.0 && t.rows[leaves].basicIndex == leaves
    ensures var cross := t.rows[leaves].coefs[enter];
      Pivoted(t, enter, leaves).rows[leaves] == Scaled(t.rows[leaves], 1.0 / cross).(basicIndex := enter)
    ensures Pivoted(t, enter, leaves).rows[leaves].coefs[enter] == 1.0
  {
    var cross := t.rows[leaves].coefs[enter];
    var r1 := Normalized(t.rows, leaves, enter);
    ElimPrefixFrame(WithMultipliers(r1, leaves, enter, cross), leaves, |t.rows|);
  }

  /**
   * What the pivot leaves in the objective: for an entering column other than `leaves`,
   * `z[enter]` becomes `z[enter] - z[enter] / cross` (zero only when `cross` is 1), and
   * the objective's result gains `-result * z[enter] / cross`, with the pivot row's
   * unscaled `result`.
   */
  lemma PivotObjectiveEntering(t: Table, enter: nat, leaves: nat)
    requires WellFormed(t) && enter < |t.z.coefs| && leaves < |t.z.coefs| && leaves < |t.rows|
    requires t.rows[leaves].coefs[enter] != 0.0 && enter != leaves
    ensures var cross := t.rows[leaves].coefs[enter];
      Pivoted(t, enter, leaves).z.coefs[enter] == t.z.coefs[enter] - t.z.coefs[enter] / cross
    ensures var cross := t.rows[leaves].coefs[enter];
      Pivoted(t, enter, leaves).z.result == t.z.result - t.rows[leaves].result * t.z.coefs[enter] / cross
  {
    var cross := t.rows[leaves].coefs[enter];
    var p := Prepared(t, enter, leaves);
    assert p.rows[leaves].coefs[enter] == 1.0;
    assert p.rows[leaves].result == t.rows[leaves].result;
    assert p.z.coefs[leaves] == -t.z.coefs[enter] / cross;
  }

  // ---------------------------------------------------------------------------
  // The maximize loop
  // ---------------------------------------------------------------------------

  /**
   * How `maximize` ends: `Optimal` when `leastNegativeIndex` finds nothing, `NoValidRatio`
   * for the "no valid ratio found" exception, `IndexOutOfRange` where `getRow` or `set`
   * would throw, `ZeroCrossNumber` where the source would divide by zero, and `OutOfFuel`
   * when the model's iteration budget is spent.
   */
  datatype Outcome =
    | Optimal
    | NoValidRatio(enter: nat)
    | IndexOutOfRange(enter: nat, leaves: nat)
    | ZeroCrossNumber(enter: nat, leaves: nat)
    | OutOfFuel

  /** What one iteration of the loop decides: stop with an outcome, or pivot on `(enter, leaves)`. */
  datatype Choice = Stop(outcome: Outcome) | PivotOn(enter: nat, leaves: nat)

  /**
   * Lines 106-121 of one iteration: the entering column from `leastNegativeIndex`, the
   * leaving id from the ratio test, and the checks that `getRow(leaves)`, `z.set(leaves, _)`
   * and the division by `crossNumber` can go ahead.
   */
  function Choose(t: Table): (c: Choice)
    requires WellFormed(t)
    ensures c.PivotOn? ==>
      c.enter < |t.z.coefs| && c.leaves < |t.z.coefs| && c.leaves < |t.rows| &&
      t.rows[c.leaves].coefs[c.enter] != 0.0
  {
    var enter := LeastNegative(t.z.coefs);
    if enter == -1 then Stop(Optimal)
    else
      var leaves := LeavingVariable(t.rows, enter);
      if leaves == -1 then Stop(NoValidRatio(enter))
      else if leaves >= |t.rows| || leaves >= |t.z.coefs| then Stop(IndexOutOfRange(enter, leaves))
      else if t.rows[leaves].coefs[enter] == 0.0 then Stop(ZeroCrossNumber(enter, leaves))
      else PivotOn(enter, leaves)
  }

  /** `Optimal` is chosen exactly when no objective coefficient is negative. */
  lemma ChooseOptimal(t: Table)
    requires WellFormed(t)
    ensures Choose(t) == Stop(Optimal) <==> forall j :: 0 <= j < |t.z.coefs| ==> t.z.coefs[j] >= 0.0
  {
    LeastNegativeSpec(t.z.coefs);
  }

  /** Only one position satisfies `IsLeastNegativeIndex`. */
  lemma LeastNegativeUnique(s: seq<real>, k: int)
    requires IsLeastNegativeIndex(s, k)
    ensures k == LeastNegative(s)
  {
    LeastNegativeSpec(s);
    var l := LeastNegative(s);
    if k != -1 {
      assert s[k] <= s[l] && s[l] <= s[k];
    }
  }

  /**
   * "no valid ratio found" is raised for column `e` exactly when `e` is the most negative
   * objective column and no constraint row has a strictly positive ratio in it.
   */
  lemma ChooseNoValidRatio(t: Table, e: nat)
    requires WellFormed(t)
    ensures Choose(t) == Stop(NoValidRatio(e)) <==>
      IsLeastNegativeIndex(t.z.coefs, e) && e < |t.z.coefs| &&
      forall j :: 0 <= j < |t.rows| ==> !Eligible(t.rows[j], e)
  {
    LeastNegativeSpec(t.z.coefs);
    if IsLeastNegativeIndex(t.z.coefs, e) {
      LeastNegativeUnique(t.z.coefs, e);
    }
    if e < |t.z.coefs| {
      MinRatioPosSpec(t.rows, e);
    }
  }

  /**
   * A pivot goes ahead on the most negative objective column and on the basic index of the
   * row the ratio test settles on, at a position that exists in both the row list and `z`.
   */
  lemma ChoosePivotOn(t: Table)
    requires WellFormed(t) && Choose(t).PivotOn?
    ensures IsLeastNegativeIndex(t.z.coefs, Choose(t).enter)
    ensures MinRatioPos(t.rows, Choose(t).enter).Some?
    ensures IsRatioChoice(t.rows, Choose(t).enter, MinRatioPos(t.rows, Choose(t).enter))
    ensures t.rows[MinRatioPos(t.rows, Choose(t).enter).value].basicIndex == Choose(t).leaves
    ensures Choose(t).leaves < |t.rows| && Choose(t).leaves < |t.z.coefs|
  {
    LeastNegativeSpec(t.z.coefs);
    MinRatioPosSpec(t.rows, Choose(t).enter);
  }

  /** One iteration of the loop that pivots: `b` is `a` after the pivot that `Choose` picks. */
  predicate IsStep(a: Table, b: Table): (ok: bool)
    ensures ok ==> WellFormed(a) && Choose(a).PivotOn?
    ensures ok ==> WellFormed(b) && |b.rows| == |a.rows| && |b.z.coefs| == |a.z.coefs|
  {
    WellFormed(a) &&
    var c := Choose(a);
    c.PivotOn? && b == Pivoted(a, c.enter, c.leaves)
  }

  /** The tableaux the `while` loop of `maximize` goes through, one pivot apart. */
  predicate IsTrace(ts: seq<Table>) {
    forall i :: 0 <= i < |ts| - 1 ==> IsStep(ts[i], ts[i + 1])
  }

  /** A trace followed by one more step is a trace. */
  lemma TraceExtend(ts: seq<Table>, b: Table)
    requires |ts| > 0 && IsTrace(ts) && IsStep(ts[|ts| - 1], b)
    ensures IsTrace(ts + [b])
  {
  }

  /** A pivot keeps the number of rows and of columns, so every tableau of a trace has the first one's shape. */
  lemma {:induction false} TraceKeepsShape(ts: seq<Table>)
    requires |ts| > 0 && WellFormed(ts[0]) && IsTrace(ts)
    ensures forall i :: 0 <= i < |ts| ==>
      WellFormed(ts[i]) && |ts[i].rows| == |ts[0].rows| && |ts[i].z.coefs| == |ts[0].z.coefs|
  {
    if |ts| > 1 {
      var init := ts[..|ts| - 1];
      assert forall i :: 0 <= i < |init| ==> init[i] == ts[i];
      TraceKeepsShape(init);
      assert IsStep(ts[|ts| - 2], ts[|ts| - 1]);
    }
  }

  /** The loop is deterministic: two traces from the same tableau agree as far as both go. */
  lemma {:induction false} TracesAgree(a: seq<Table>, b: seq<Table>, k: nat)
    requires IsTrace(a) && IsTrace(b) && |a| > 0 && |b| > 0 && a[0] == b[0]
    requires k < |a| && k < |b|
    ensures a[k] == b[k]
  {
    if k > 0 {
      TracesAgree(a, b, k - 1);
      assert IsStep(a[k - 1], a[k]) && IsStep(b[k - 1], b[k]);
    }
  }

  /**
   * When every basic index is at least the number of constraint rows (as in every tableau
   * that `parseStream` builds), the first pivot's `getRow(basicLeaves)` is out of range:
   * the loop stops before pivoting, with `Optimal`, `NoValidRatio` or `IndexOutOfRange`.
   */
  lemma FirstPivotOutOfRange(ts: seq<Table>)
    requires |ts| > 0 && WellFormed(ts[0]) && IsTrace(ts)
    requires forall j :: 0 <= j < |ts[0].rows| ==> ts[0].rows[j].basicIndex >= |ts[0].rows|
    ensures |ts| == 1 && Choose(ts[0]).Stop?
    ensures var o := Choose(ts[0]).outcome;
      o.Optimal? || o.NoValidRatio? || (o.IndexOutOfRange? && o.leaves >= |ts[0].rows|)
  {
    var t := ts[0];
    var enter := LeastNegative(t.z.coefs);
    if enter != -1 {
      var leaves := LeavingVariable(t.rows, enter);
      assert leaves == -1 || leaves >= |t.rows|;
    }
    assert |ts| > 1 ==> IsStep(ts[0], ts[1]);
  }

  // ---------------------------------------------------------------------------
  // Building the tableau: the line logic of parseStream
  // ---------------------------------------------------------------------------

  /**
   * The index of the first line at or after `k` that stops the reading loop: a line of at
   * most one entry (the terminator) or one whose length differs from the objective's.
   * `|lines|` when there is none (the input runs out).
   */
  function Terminator(lines: seq<seq<real>>, k: nat): (t: nat)
    requires |lines| > 0 && k <= |lines|
    ensures k <= t <= |lines|
    ensures forall u :: k <= u < t ==> 1 < |lines[u]| == |lines[0]|
    ensures t < |lines| ==> |lines[t]| <= 1 || |lines[t]| != |lines[0]|
    decreases |lines| - k
  {
    if k == |lines| then k
    else if |lines[k]| <= 1 || |lines[k]| != |lines[0]| then k
    else Terminator(lines, k + 1)
  }

  /** The objective row after `extendWithNVariables(m)`: slack entries 0, result 0. */
  function ObjectiveRow(objective: seq<real>, m: nat): (z: RowState)
    ensures |z.coefs| == |objective| + m && z.result == 0.0 && z.basicIndex == 0
    ensures z.coefs[..|objective|] == objective
    ensures forall c :: |objective| <= c < |z.coefs| ==> z.coefs[c] == 0.0
  {
    RowState(objective + Zeros(m), 0.0, 0)
  }

  /**
   * Constraint row `i` of `m` as lines 192-196 leave it: the line's coefficients followed by
   * `m` zeros, then 1 at column `m + i` (which lies among the original coefficients when
   * `m + i` is below the line's length), basic index `m + i + 1`, result `rhs`.
   */
  function SlackRow(line: seq<real>, m: nat, i: nat, rhs: real): (r: RowState)
    requires i < |line|
    ensures |r.coefs| == |line| + m
    ensures r.coefs[m + i] == 1.0
    ensures forall c :: 0 <= c < |r.coefs| && c != m + i ==>
      r.coefs[c] == (if c < |line| then line[c] else 0.0)
    ensures r.basicIndex == m + i + 1 && r.result == rhs
  {
    RowState((line + Zeros(m))[m + i := 1.0], rhs, m + i + 1)
  }

  /**
   * With terminator line `t`, lines `2 .. t - 1` are as wide as the objective, and the
   * right-hand side line `t - 1` has at least `m = t - 2` entries. So every slack column
   * `m + i` of line `1 + i` is in range, except when `m > 0` and line 1 is empty: line 1 is
   * the one constraint line whose width is never checked.
   */
  lemma SlackColumnsInRange(lines: seq<seq<real>>, t: nat)
    requires 2 <= t < |lines| && t == Terminator(lines, 2) && |lines[t - 1]| >= t - 2
    ensures (forall u :: 1 <= u < t - 1 ==> u - 1 < |lines[u]|) <==> (t == 2 || lines[1] != [])
  {
    if t > 2 {
      assert |lines[t - 1]| == |lines[0]|;
    }
  }

  /** `Double.intValue()` on the precision line: truncation toward zero. */
  function TruncateToInt(x: real): (n: int)
    ensures x >= 0.0 ==> n as real <= x < n as real + 1.0
    ensures x < 0.0 ==> n as real - 1.0 < x <= n as real
  {
    if x >= 0.0 then x.Floor else -((-x).Floor)
  }
}

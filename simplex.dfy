/**
 * The classes of Main.java: `SimplexTable.Row`, `SimplexTable` and `SimplexMethod`, with
 * their fields updated in place as the source updates them. Each method is proved to leave
 * its fields as the matching function of module Tableau says. Line numbers in the
 * comments are those of Main.java.
 */
module Simplex {
  import opened Tableau

  /** Errors `parseStream` raises, over lines that are already split into numbers. */
  datatype ParseError =
    | EndOfInput        // `nextLine` finds no further line
    | NoEpsilon         // "no epsilon was provided": the terminator line is empty
    | NotEnoughResults  // "not enough results": fewer right-hand sides than constraint rows
    | WrongInequality   // "wrong inequality, ...": a line's length differs from the objective's
    | SlackOutOfRange   // `coefs.set(m + i, 1)` is past the end of constraint row `i`

  datatype Result<T, E> = Success(value: T) | Failure(error: E)

  class Row {
    var coefs: seq<real>
    var result: real
    var basicIndex: nat

    constructor (coefficients: seq<real>, result: real)
      ensures coefs == coefficients && this.result == result && basicIndex == 0
    {
      coefs := coefficients;
      this.result := result;
      basicIndex := 0;
    }

    constructor FromCoefficients(coefficients: seq<real>)
      ensures coefs == coefficients && result == 0.0 && basicIndex == 0
    {
      coefs := coefficients;
      result := 0.0;
      basicIndex := 0;
    }

    constructor Copy(other: Row)
      ensures coefs == other.coefs && result == other.result && basicIndex == 0
    {
      coefs := other.coefs;
      result := other.result;
      basicIndex := 0;
    }

    ghost function State(): RowState
      reads this
    {
      RowState(coefs, result, basicIndex)
    }

    function Get(index: nat): (v: real)
      reads this
      requires index < |coefs|
      ensures v == State().coefs[index]
    {
      coefs[index]
    }

    method Set(index: nat, value: real)
      requires index < |coefs|
      modifies this
      ensures coefs == old(coefs)[index := value]
      ensures result == old(result) && basicIndex == old(basicIndex)
    {
      coefs := coefs[index := value];
    }

    /** Appends `number` zero coefficients (none when `number` is not positive). */
    method ExtendWithNVariables(number: int)
      modifies this
      ensures |coefs| == |old(coefs)| + (if number < 0 then 0 else number)
      ensures coefs[..|old(coefs)|] == old(coefs)
      ensures forall i :: |old(coefs)| <= i < |coefs| ==> coefs[i] == 0.0
      ensures result == old(result) && basicIndex == old(basicIndex)
    {
      var i := 0;
      while i < number
        invariant 0 <= i <= (if number < 0 then 0 else number)
        invariant coefs == old(coefs) + Zeros(i)
        invariant result == old(result) && basicIndex == old(basicIndex)
        decreases number - i
      {
        coefs := coefs + [0.0];
        i := i + 1;
        assert coefs == old(coefs) + Zeros(i);
      }
    }

    /**
     * Adds `coef` times `other` to the coefficients, but REPLACES `result` by
     * `coef * other.result` instead of adding it. `other` may be this row itself.
     */
    method Plus(coef: real, other: Row)
      requires |other.coefs| >= |coefs|
      modifies this
      ensures |coefs| == |old(coefs)|
      ensures forall i :: 0 <= i < |coefs| ==> coefs[i] == old(coefs[i]) + coef * old(other.coefs[i])
      ensures result == coef * old(other.result)
      ensures basicIndex == old(basicIndex)
    {
      var i := 0;
      while i < |coefs|
        invariant 0 <= i <= |coefs| == |old(coefs)|
        invariant forall j :: 0 <= j < i ==> coefs[j] == old(coefs[j]) + coef * old(other.coefs[j])
        invariant forall j :: i <= j < |coefs| ==> coefs[j] == old(coefs[j])
        invariant other != this ==> other.coefs == old(other.coefs) && other.result == old(other.result)
        invariant result == old(result) && basicIndex == old(basicIndex)
      {
        coefs := coefs[i := coefs[i] + coef * other.coefs[i]];
        i := i + 1;
      }
      result := coef * other.result;
    }

    /** Multiplies every coefficient by `coef`; `result` is NOT scaled. */
    method MultiplyBy(coef: real)
      modifies this
      ensures State() == Scaled(old(State()), coef)
      ensures |coefs| == |old(coefs)|
      ensures forall i :: 0 <= i < |coefs| ==> coefs[i] == coef * old(coefs[i])
      ensures result == old(result) && basicIndex == old(basicIndex)
    {
      var i := 0;
      while i < |coefs|
        invariant 0 <= i <= |coefs| == |old(coefs)|
        invariant forall j :: 0 <= j < i ==> coefs[j] == coef * old(coefs[j])
        invariant forall j :: i <= j < |coefs| ==> coefs[j] == old(coefs[j])
        invariant result == old(result) && basicIndex == old(basicIndex)
      {
        coefs := coefs[i := coef * coefs[i]];
        i := i + 1;
      }
      ghost var scaled := Scaled(old(State()), coef);
      assert forall j :: 0 <= j < |coefs| ==> coefs[j] == scaled.coefs[j];
      assert coefs == scaled.coefs;
    }

    /**
     * The column loop and result update that `maximize` runs on `z` (lines 131-136) and on
     * every constraint row not basic in `col` (lines 139-144), against the pivot row
     * `pivot`, which may be this row itself.
     */
    method EliminateUsing(pivot: Row, col: nat)
      requires col < |coefs| <= |pivot.coefs|
      modifies this
      ensures State() == Eliminated(old(pivot.State()), old(State()), col)
    {
      var i := 0;
      while i < |coefs|
        invariant 0 <= i <= |coefs| == |old(coefs)|
        invariant pivot != this ==> pivot.coefs == old(pivot.coefs) && pivot.result == old(pivot.result)
        invariant forall j :: 0 <= j < i ==>
          coefs[j] == if j == col then old(coefs[j]) else old(pivot.coefs[j]) * old(coefs[col]) + old(coefs[j])
        invariant forall j :: i <= j < |coefs| ==> coefs[j] == old(coefs[j])
        invariant result == old(result) && basicIndex == old(basicIndex)
      {
        if i != col {
          coefs := coefs[i := pivot.Get(i) * Get(col) + Get(i)];
        }
        i := i + 1;
      }
      result := pivot.result * Get(col) + result;
      ghost var e := Eliminated(old(pivot.State()), old(State()), col);
      assert forall j :: 0 <= j < |coefs| ==> coefs[j] == e.coefs[j];
      assert coefs == e.coefs;
    }
  }

  class SimplexTable {
    var z: Row
    var ineqs: seq<Row>

    constructor (z: Row, ineqs: seq<Row>)
      ensures this.z == z && this.ineqs == ineqs
    {
      this.z := z;
      this.ineqs := ineqs;
    }

    /** The rows are distinct objects, and `z` is none of them. */
    ghost predicate Distinct()
      reads this
    {
      z !in ineqs && forall i, j :: 0 <= i < j < |ineqs| ==> ineqs[i] != ineqs[j]
    }

    /** Distinct rows, every one as wide as `z`. */
    ghost predicate Valid()
      reads this, z, ineqs
    {
      Distinct() && WellFormed(Value())
    }

    ghost function Rows(): (rs: seq<RowState>)
      reads this, ineqs
      ensures |rs| == |ineqs| && forall j :: 0 <= j < |ineqs| ==> rs[j] == ineqs[j].State()
    {
      seq(|ineqs|, j requires 0 <= j < |ineqs| reads this, ineqs => ineqs[j].State())
    }

    ghost function Value(): Table
      reads this, z, ineqs
    {
      Table(z.State(), Rows())
    }

    function GetRow(index: nat): (r: Row)
      reads this
      requires index < |ineqs|
      ensures r in ineqs
      ensures Distinct() ==> r != z
      ensures Distinct() ==> forall j :: 0 <= j < |ineqs| && ineqs[j] == r ==> j == index
    {
      ineqs[index]
    }

    /** Most negative coefficient of `z`, first on ties; -1 when none is negative. */
    method LeastNegativeIndex() returns (index: int)
      ensures index == LeastNegative(z.coefs)
    {
      index := -1;
      var least := 0.0;
      var i := 0;
      while i < |z.coefs|
        invariant 0 <= i <= |z.coefs|
        invariant index == LeastNegativeUpTo(z.coefs, i)
        invariant least == if index == -1 then 0.0 else z.coefs[index]
      {
        var coef := z.Get(i);
        if coef < least {
          index := i;
          least := coef;
        }
        i := i + 1;
      }
    }

    /**
     * The ratio test of `maximize`: the basic index of the first row with the smallest
     * strictly positive `result / row[basicEnter]`, or -1 when no row has one. `pos` is the
     * position of that row.
     */
    method RatioTest(basicEnter: nat) returns (basicLeaves: int, ghost pos: Option<nat>)
      requires ColumnInRange(Rows(), basicEnter)
      ensures pos == MinRatioPos(Rows(), basicEnter)
      ensures basicLeaves == LeavingVariable(Rows(), basicEnter)
    {
      ghost var rows := Rows();
      basicLeaves := -1;
      var minPositiveRatio := 0.0;
      pos := None;
      var k := 0;
      while k < |ineqs|
        invariant 0 <= k <= |ineqs|
        invariant pos == MinRatioPosUpTo(rows, basicEnter, k)
        invariant pos.None? ==> basicLeaves == -1
        invariant pos.Some? ==>
          pos.value < k && basicLeaves == rows[pos.value].basicIndex &&
          minPositiveRatio == Ratio(rows[pos.value], basicEnter)
      {
        var row := ineqs[k];
        var coef := row.Get(basicEnter);
        if coef != 0.0 {
          var ratio := row.result / coef;
          if ratio > 0.0 && (basicLeaves == -1 || ratio < minPositiveRatio) {
            minPositiveRatio := ratio;
            basicLeaves := row.basicIndex;
            pos := Some(k);
          }
        }
        k := k + 1;
      }
    }

    /**
     * Lines 108-121 of one iteration, for `basicEnter` found by `leastNegativeIndex`: the
     * ratio test, the "no valid ratio" exception, and the checks that `getRow(basicLeaves)`,
     * `z.set(basicLeaves, _)` and the division by `crossNumber` can go ahead. Changes nothing.
     */
    method NextChoice(basicEnter: nat) returns (c: Choice)
      requires WellFormed(Value()) && LeastNegative(z.coefs) == basicEnter
      ensures c == Choose(Value())
    {
      ghost var t := Value();
      var basicLeaves, pos := RatioTest(basicEnter);
      assert basicLeaves == LeavingVariable(t.rows, basicEnter);
      if basicLeaves == -1 {
        return Stop(NoValidRatio(basicEnter));
      }
      if basicLeaves >= |ineqs| || basicLeaves >= |z.coefs| {
        return Stop(IndexOutOfRange(basicEnter, basicLeaves));
      }
      if GetRow(basicLeaves).Get(basicEnter) == 0.0 {
        return Stop(ZeroCrossNumber(basicEnter, basicLeaves));
      }
      return PivotOn(basicEnter, basicLeaves);
    }

    /** Line 104: `z.multiplyBy(-1)`, which leaves the constraint rows alone. */
    method Negate()
      requires Valid()
      modifies z
      ensures Valid() && Value() == Table(Scaled(old(z.State()), -1.0), old(Rows()))
    {
      z.MultiplyBy(-1.0);
    }

    /**
     * Lines 106 and 151 followed by lines 108-121: `leastNegativeIndex`, and when it finds a
     * column, the rest of the iteration's decision. Changes nothing.
     */
    method Decide() returns (c: Choice)
      requires WellFormed(Value())
      ensures c == Choose(Value())
    {
      var basicEnter := LeastNegativeIndex();
      if basicEnter == -1 {
        return Stop(Optimal);
      }
      c := NextChoice(basicEnter);
    }

    /** Lines 121-151: one iteration of `maximize` that `Choose` lets go ahead, and the next decision. */
    method Advance(basicEnter: nat, basicLeaves: nat) returns (c: Choice, ghost next: Table)
      requires Valid() && Choose(Value()) == PivotOn(basicEnter, basicLeaves)
      modifies z, ineqs
      ensures Valid() && next == Value() && IsStep(old(Value()), next) && c == Choose(next)
    {
      Pivot(basicEnter, basicLeaves);
      c := Decide();
      next := Value();
    }

    /**
     * The `while` loop of `maximize` from a tableau on which `Choose` gave `choice`: at most
     * `fuel` pivots. `trace` holds the tableau before and after every pivot.
     */
    method Iterate(choice: Choice, fuel: nat) returns (last: Choice, ghost trace: seq<Table>)
      requires Valid() && choice == Choose(Value())
      modifies z, ineqs
      ensures Valid() && last == Choose(Value())
      ensures |trace| > 0 && IsTrace(trace) && trace[|trace| - 1] == Value()
      ensures trace[0] == old(Value()) && |trace| <= fuel + 1
      ensures last.PivotOn? ==> |trace| == fuel + 1
    {
      ghost var cur := Value();
      trace := [cur];
      last := choice;
      var remaining := fuel;
      while last.PivotOn? && remaining > 0
        invariant Valid() && Value() == cur && last == Choose(cur)
        invariant |trace| > 0 && IsTrace(trace) && trace[|trace| - 1] == cur
        invariant trace[0] == old(Value()) && |trace| + remaining == fuel + 1
      {
        ghost var next;
        last, next := Advance(last.enter, last.leaves);
        TraceExtend(trace, next);
        trace := trace + [next];
        cur := next;
        remaining := remaining - 1;
      }
    }

    /** Lines 125-129: column `basicLeaves` of every row not basic in it gets `-row[basicEnter] / crossNumber`. */
    method SetMultipliers(basicEnter: nat, basicLeaves: nat, crossNumber: real)
      requires Distinct() && crossNumber != 0.0
      requires ColumnInRange(Rows(), basicEnter) && ColumnInRange(Rows(), basicLeaves)
      modifies ineqs
      ensures Rows() == WithMultipliers(old(Rows()), basicLeaves, basicEnter, crossNumber)
      ensures z.State() == old(z.State())
    {
      ghost var r0 := Rows();
      ghost var r1 := WithMultipliers(r0, basicLeaves, basicEnter, crossNumber);
      var k := 0;
      while k < |ineqs|
        invariant 0 <= k <= |ineqs|
        invariant forall j :: 0 <= j < k ==> ineqs[j].State() == r1[j]
        invariant forall j :: k <= j < |ineqs| ==> ineqs[j].State() == r0[j]
        invariant z.State() == old(z.State())
      {
        var row := ineqs[k];
        assert row.State() == r0[k];
        if row.basicIndex != basicLeaves {
          row.Set(basicLeaves, -row.Get(basicEnter) / crossNumber);
        }
        k := k + 1;
      }
      assert Rows() == r1;
    }

    /**
     * One turn of the loop at lines 137-146: row `k`, when it is not basic in `basicLeaves`,
     * is eliminated against the row at position `basicLeaves` as it stands now.
     */
    method EliminateRowAt(k: nat, basicLeaves: nat)
      requires Distinct() && k < |ineqs| && basicLeaves < |ineqs|
      requires SameWidth(Rows(), |ineqs[basicLeaves].coefs|) && basicLeaves < |ineqs[basicLeaves].coefs|
      modifies ineqs[k]
      ensures Rows() == if old(ineqs[k].basicIndex) == basicLeaves then old(Rows())
        else old(Rows())[k := Eliminated(old(ineqs[basicLeaves].State()), old(ineqs[k].State()), basicLeaves)]
      ensures z.State() == old(z.State())
    {
      ghost var before := Rows();
      var row := ineqs[k];
      if row.basicIndex != basicLeaves {
        assert row.State() == before[k];
        row.EliminateUsing(GetRow(basicLeaves), basicLeaves);
        forall j | 0 <= j < |ineqs| && j != k
          ensures ineqs[j].State() == before[j]
        {
          assert ineqs[j] != row;
        }
      }
    }

    /**
     * Lines 137-146: every row not basic in `basicLeaves`, in list order, is eliminated
     * against the row at position `basicLeaves` as it stands at that moment.
     */
    method EliminateConstraints(basicLeaves: nat)
      requires Distinct() && basicLeaves < |ineqs|
      requires SameWidth(Rows(), |ineqs[basicLeaves].coefs|) && basicLeaves < |ineqs[basicLeaves].coefs|
      modifies ineqs
      ensures Rows() == ElimPrefix(old(Rows()), basicLeaves, |ineqs|)
      ensures z.State() == old(z.State())
    {
      ghost var r0 := Rows();
      ghost var width := |ineqs[basicLeaves].coefs|;
      var k := 0;
      while k < |ineqs|
        invariant 0 <= k <= |ineqs| == |r0|
        invariant Rows() == ElimPrefix(r0, basicLeaves, k)
        invariant SameWidth(Rows(), width) && |ineqs[basicLeaves].coefs| == width
        invariant z.State() == old(z.State())
      {
        EliminateRowAt(k, basicLeaves);
        k := k + 1;
      }
    }

    /** Lines 121-129 (see `Prepared`). */
    method Prepare(basicEnter: nat, basicLeaves: nat)
      requires Distinct() && WellFormed(Value())
      requires basicEnter < |z.coefs| && basicLeaves < |z.coefs| && basicLeaves < |ineqs|
      requires ineqs[basicLeaves].coefs[basicEnter] != 0.0
      modifies z, ineqs
      ensures Value() == Prepared(old(Value()), basicEnter, basicLeaves)
    {
      ghost var t0 := Value();
      var crossNumber := GetRow(basicLeaves).Get(basicEnter);
      GetRow(basicLeaves).MultiplyBy(1.0 / crossNumber);
      assert Rows() == Normalized(t0.rows, basicLeaves, basicEnter);

      z.Set(basicLeaves, -z.Get(basicEnter) / crossNumber);
      assert z.State() == ObjectiveMultiplier(t0.z, basicLeaves, basicEnter, crossNumber);

      SetMultipliers(basicEnter, basicLeaves, crossNumber);
    }

    /** Lines 131-150 (see `Reduced`). */
    method Reduce(basicEnter: nat, basicLeaves: nat)
      requires Distinct() && WellFormed(Value())
      requires basicLeaves < |z.coefs| && basicLeaves < |ineqs|
      modifies z, ineqs
      ensures Value() == Reduced(old(Value()), basicEnter, basicLeaves)
    {
      z.EliminateUsing(GetRow(basicLeaves), basicLeaves);
      EliminateConstraints(basicLeaves);
      ghost var r3 := Rows();
      GetRow(basicLeaves).basicIndex := basicEnter;
      assert Rows() == r3[basicLeaves := r3[basicLeaves].(basicIndex := basicEnter)];
    }

    /** Lines 121-150: one pivot, in place (see `Pivoted`). */
    method Pivot(basicEnter: nat, basicLeaves: nat)
      requires Valid() && basicEnter < |z.coefs| && basicLeaves < |z.coefs| && basicLeaves < |ineqs|
      requires ineqs[basicLeaves].coefs[basicEnter] != 0.0
      modifies z, ineqs
      ensures Valid()
      ensures Value() == Pivoted(old(Value()), basicEnter, basicLeaves)
    {
      Prepare(basicEnter, basicLeaves);
      Reduce(basicEnter, basicLeaves);
    }
  }

  class SimplexMethod {
    var precision: int
    var objectiveFunction: seq<real>
    var table: SimplexTable

    constructor (precision: int, objectiveFunction: seq<real>, table: SimplexTable)
      ensures this.precision == precision && this.objectiveFunction == objectiveFunction
      ensures this.table == table
    {
      this.precision := precision;
      this.objectiveFunction := objectiveFunction;
      this.table := table;
    }

    /**
     * `maximize`: negates `z`, then pivots while an iteration can go ahead, at most `fuel`
     * times. `trace` holds the tableau after the negation and after every pivot; the
     * outcome is what `Choose` says about the last one.
     */
    method Maximize(fuel: nat) returns (outcome: Outcome, ghost trace: seq<Table>)
      requires table.Valid()
      modifies table.z, table.ineqs
      ensures table.Valid()
      ensures |trace| > 0 && IsTrace(trace) && trace[|trace| - 1] == table.Value()
      ensures trace[0] == Table(Scaled(old(table.z.State()), -1.0), old(table.Rows()))
      ensures |trace| <= fuel + 1
      ensures outcome != OutOfFuel ==> Choose(table.Value()) == Stop(outcome)
      ensures outcome == OutOfFuel ==> |trace| == fuel + 1 && Choose(table.Value()).PivotOn?
      ensures outcome == Optimal ==> LeastNegative(table.z.coefs) == -1
      ensures outcome == Optimal ==> forall j :: 0 <= j < |table.z.coefs| ==> table.z.coefs[j] >= 0.0
    {
      table.Negate();
      var choice := table.Decide();
      choice, trace := table.Iterate(choice, fuel);
      outcome := if choice.Stop? then choice.outcome else OutOfFuel;
      ChooseOptimal(table.Value());
    }

    /**
     * Lines 191-197: constraint row `i` of `m` gets `m` slack columns, 1 at column `m + i`,
     * basic index `m + i + 1` and result `rhs[i]`. `ok` is false when one of the columns
     * `m + i` is out of range (the `IndexOutOfBoundsException` of `coefs.set`), which stops
     * the loop at that row.
     */
    static method AddSlackVariables(ineqs: seq<Row>, rhs: seq<real>) returns (ok: bool)
      requires forall i, j :: 0 <= i < j < |ineqs| ==> ineqs[i] != ineqs[j]
      requires |ineqs| <= |rhs|
      modifies ineqs
      ensures ok <==> forall j :: 0 <= j < |ineqs| ==> j < |old(ineqs[j].coefs)|
      ensures ok ==> forall j :: 0 <= j < |ineqs| ==>
        ineqs[j].State() == SlackRow(old(ineqs[j].coefs), |ineqs|, j, rhs[j])
    {
      var m := |ineqs|;
      var i := 0;
      while i < m
        invariant 0 <= i <= m
        invariant forall j :: 0 <= j < i ==>
          j < |old(ineqs[j].coefs)| && ineqs[j].State() == SlackRow(old(ineqs[j].coefs), m, j, rhs[j])
        invariant forall j :: i <= j < m ==> ineqs[j].coefs == old(ineqs[j].coefs)
      {
        var ineq := ineqs[i];
        ineq.ExtendWithNVariables(m);
        if m + i >= |ineq.coefs| {
          return false;
        }
        ineq.Set(m + i, 1.0);
        ineq.basicIndex := m + i + 1;
        ineq.result := rhs[i];
        i := i + 1;
      }
      return true;
    }

    /**
     * Lines 180-199: `parseStream` once it has read the terminator line `lines[t]`, with the
     * constraint lines `1 .. t - 2` read into `ineqs` and `row` the right-hand side line.
     */
    static method Finish(objectiveFunction: seq<real>, ineqs: seq<Row>, row: seq<real>, nextRow: seq<real>,
                         ghost lines: seq<seq<real>>, ghost t: nat)
      returns (r: Result<SimplexMethod, ParseError>)
      requires 2 <= t < |lines| && t == Terminator(lines, 2) && |nextRow| <= 1
      requires objectiveFunction == lines[0] && row == lines[t - 1] && nextRow == lines[t]
      requires |ineqs| == t - 2 && forall i, j :: 0 <= i < j < |ineqs| ==> ineqs[i] != ineqs[j]
      requires forall j :: 0 <= j < |ineqs| ==> ineqs[j].State() == RowState(lines[1 + j], 0.0, 0)
      modifies ineqs
      ensures |nextRow| == 0 ==> r == Failure(NoEpsilon)
      ensures |nextRow| == 1 && |row| < t - 2 ==> r == Failure(NotEnoughResults)
      ensures |nextRow| == 1 && |row| >= t - 2 && t > 2 && lines[1] == [] ==> r == Failure(SlackOutOfRange)
      ensures |nextRow| == 1 && |row| >= t - 2 && (t == 2 || lines[1] != []) ==>
        r.Success? && r.value.BuiltFrom(lines, t)
      ensures r.Success? ==> fresh(r.value) && fresh(r.value.table) && fresh(r.value.table.z)
      ensures r.Success? ==> r.value.table.ineqs == ineqs
    {
      if |nextRow| == 0 {
        return Failure(NoEpsilon);
      }
      var varNumber := |ineqs|;
      if |row| < varNumber {
        return Failure(NotEnoughResults);
      }
      var z := new Row.FromCoefficients(objectiveFunction);
      z.ExtendWithNVariables(varNumber);
      SlackColumnsInRange(lines, t);
      ghost var fits := forall j :: 0 <= j < varNumber ==> j < |ineqs[j].coefs|;
      assert fits <==> (varNumber == 0 || lines[1] != []) by {
        forall u | 1 <= u < t - 1 && fits
          ensures u - 1 < |lines[u]|
        {
          assert ineqs[u - 1].coefs == lines[u];
        }
      }
      var ok := AddSlackVariables(ineqs, row);
      if !ok {
        return Failure(SlackOutOfRange);
      }
      var table := new SimplexTable(z, ineqs);
      var simplex := new SimplexMethod(TruncateToInt(nextRow[0]), objectiveFunction, table);
      return Success(simplex);
    }

    /**
     * The tableau-building half of `parseStream`, over input lines already split into
     * numbers: `lines[0]` is the objective, then constraint rows, the right-hand sides and
     * the precision line. On success `m` constraint rows, where `m + 2` is the index of the
     * terminator line `Terminator(lines, 2)`.
     */
    static method ParseStream(lines: seq<seq<real>>) returns (r: Result<SimplexMethod, ParseError>)
      ensures |lines| < 2 ==> r == Failure(EndOfInput)
      ensures |lines| >= 2 ==>
        var t := Terminator(lines, 2);
        var m := t - 2;
        (t == |lines| ==> r == Failure(EndOfInput)) &&
        (t < |lines| && |lines[t]| == 0 ==> r == Failure(NoEpsilon)) &&
        (t < |lines| && |lines[t]| > 1 ==> r == Failure(WrongInequality)) &&
        (t < |lines| && |lines[t]| == 1 && |lines[t - 1]| < m ==> r == Failure(NotEnoughResults)) &&
        (t < |lines| && |lines[t]| == 1 && |lines[t - 1]| >= m && m > 0 && lines[1] == [] ==>
           r == Failure(SlackOutOfRange)) &&
        (t < |lines| && |lines[t]| == 1 && |lines[t - 1]| >= m && (m == 0 || lines[1] != []) ==>
           r.Success? && r.value.BuiltFrom(lines, t))
      ensures r.Success? ==> fresh(r.value) && fresh(r.value.table) && fresh(r.value.table.z)
      ensures r.Success? ==> forall i :: 0 <= i < |r.value.table.ineqs| ==> fresh(r.value.table.ineqs[i])
    {
      if |lines| < 2 {
        return Failure(EndOfInput);
      }
      var objectiveFunction := lines[0];
      var ineqs: seq<Row> := [];
      var row: seq<real>;
      var nextRow := lines[1];
      var next := 2;
      while true
        invariant 2 <= next <= |lines| && nextRow == lines[next - 1]
        invariant Terminator(lines, next) == Terminator(lines, 2)
        invariant |ineqs| == next - 2
        invariant forall j :: 0 <= j < |ineqs| ==> fresh(ineqs[j]) && ineqs[j].State() == RowState(lines[1 + j], 0.0, 0)
        invariant forall i, j :: 0 <= i < j < |ineqs| ==> ineqs[i] != ineqs[j]
        decreases |lines| - next
      {
        row := nextRow;
        if next == |lines| {
          return Failure(EndOfInput);
        }
        nextRow := lines[next];
        next := next + 1;
        if |nextRow| <= 1 {
          r := Finish(objectiveFunction, ineqs, row, nextRow, lines, next - 1);
          return;
        } else if |nextRow| != |objectiveFunction| {
          return Failure(WrongInequality);
        }
        var copy := new Row.FromCoefficients(row);
        ineqs := ineqs + [copy];
      }
    }

    /**
     * The state `parseStream` leaves on success, with terminator line `t` and so `t - 2`
     * constraint rows and right-hand side line `lines[t - 1]`.
     */
    ghost predicate BuiltFrom(lines: seq<seq<real>>, t: nat): (ok: bool)
      reads this, table, table.z, table.ineqs
      ensures ok ==> |table.ineqs| == t - 2
      ensures ok ==> forall i :: 0 <= i < |table.ineqs| ==> table.ineqs[i].basicIndex > |table.ineqs|
    {
      var m := t - 2;
      2 <= t < |lines| && |lines[t]| == 1 && |lines[t - 1]| >= m &&
      objectiveFunction == lines[0] && precision == TruncateToInt(lines[t][0]) &&
      table.Distinct() && table.z.State() == ObjectiveRow(lines[0], m) && |table.ineqs| == m &&
      forall i :: 0 <= i < m ==>
        i < |lines[1 + i]| && table.ineqs[i].State() == SlackRow(lines[1 + i], m, i, lines[t - 1][i])
    }

    /**
     * A parsed tableau whose first constraint line is as wide as the objective (the only
     * line whose width the reading loop never checks) meets what `maximize` requires, and
     * its basic indices are all out of range as row positions.
     */
    lemma BuiltTableValid(lines: seq<seq<real>>, t: nat)
      requires BuiltFrom(lines, t) && t == Terminator(lines, 2) && (t == 2 || |lines[1]| == |lines[0]|)
      ensures table.Valid()
      ensures forall j :: 0 <= j < |table.Rows()| ==> table.Rows()[j].basicIndex >= |table.Rows()|
    {
    }

    /**
     * On such a parsed tableau, `maximize` stops before its first pivot: the only trace from
     * the negated tableau is that tableau itself.
     */
    lemma BuiltTableStopsAtOnce(lines: seq<seq<real>>, t: nat, ts: seq<Table>)
      requires BuiltFrom(lines, t) && t == Terminator(lines, 2) && (t == 2 || |lines[1]| == |lines[0]|)
      requires |ts| > 0 && IsTrace(ts) && ts[0] == Table(Scaled(table.z.State(), -1.0), table.Rows())
      ensures |ts| == 1 && Choose(ts[0]).Stop?
      ensures var o := Choose(ts[0]).outcome;
        o.Optimal? || o.NoValidRatio? || (o.IndexOutOfRange? && o.leaves >= |table.ineqs|)
    {
      BuiltTableValid(lines, t);
      FirstPivotOutOfRange(ts);
    }
  }
}

/** A table run through a compiled filter: the compiler and the row pipeline put together. */
module CompiledFilter {
  import opened Basics
  import opened Pipeline
  import opened ComboRunner
  import C = Compiler
  import S = Syntax

  /** Where a row has its columns. */
  type Fields = Value -> string -> int

  function Columns(fields: Fields, rows: seq<Value>): seq<string -> int>
  {
    seq(|rows|, i requires 0 <= i < |rows| => fields(rows[i]))
  }

  /** The rows that the compiled operators let through, run on one row after the other. */
  ghost function Passing(c: S.Cond, inner: nat, sem: C.Semantics, fields: Fields, rows: seq<Value>): seq<Value>
    requires inner > C.COMBO_DEPENDENCY
  {
    if rows == [] then []
    else
      var before, row := rows[..|rows| - 1], rows[|rows| - 1];
      Passing(c, inner, sem, fields, before)
      + if C.Passes(c, inner, sem, Columns(fields, before), fields(row)) then [row] else []
  }

  /** The rows that the condition and every `not` in it hold for, with the numbers that the
      counters have come to. */
  ghost function Meeting(c: S.Cond, inner: nat, sem: C.Semantics, fields: Fields, rows: seq<Value>): seq<Value>
    requires inner > C.COMBO_DEPENDENCY
  {
    if rows == [] then []
    else
      var before, row := rows[..|rows| - 1], rows[|rows| - 1];
      C.EmitCondKeeps(C.Start(inner), c);
      var input := C.InputFor(C.Filter(c, inner).0, sem, Columns(fields, before), fields(row));
      Meeting(c, inner, sem, fields, before)
      + if C.EvalCond(sem, c, input, 0) && C.AllNotsHold(sem, c, input, 0) then [row] else []
  }

  /** The rows that the condition holds for, with their true numbers. */
  function Holding(c: S.Cond, sem: C.Semantics, fields: Fields, rows: seq<Value>): seq<Value>
  {
    if rows == [] then []
    else
      var before, row := rows[..|rows| - 1], rows[|rows| - 1];
      Holding(c, sem, fields, before) + if C.EvalCond(sem, c, C.Row(fields(row), |rows|), 0) then [row] else []
  }

  lemma {:induction false} PassingIs(c: S.Cond, inner: nat, sem: C.Semantics, fields: Fields, rows: seq<Value>)
    requires inner > C.COMBO_DEPENDENCY
    ensures Passing(c, inner, sem, fields, rows) == Meeting(c, inner, sem, fields, rows)
    ensures C.NotFree(c) ==> Passing(c, inner, sem, fields, rows) == Holding(c, sem, fields, rows)
    decreases |rows|
  {
    hide C.Passes, C.AllNotsHold, C.NotFree, C.EvalCond, C.InputFor, C.Filter;
    if rows != [] {
      var before, row := rows[..|rows| - 1], rows[|rows| - 1];
      PassingIs(c, inner, sem, fields, before);
      C.PassesWhen(c, inner, sem, Columns(fields, before), fields(row));
      if C.NotFree(c) {
        C.HoistingPreservesMeaning(c, inner, sem, Columns(fields, before), fields(row));
      }
    }
  }

  // ---------- the filter's statement ----------

  lemma FilterHoisted(c: S.Cond, inner: nat)
    requires inner > C.COMBO_DEPENDENCY
    ensures C.Hoisted(C.Filter(c, inner).0)
  {
    C.EmitCondKeeps(C.Start(inner), c);
  }

  /** Runs the operators of the filter's statement on a row. */
  function FilterList(c: S.Cond, inner: nat, sem: C.Semantics, fields: Fields): (Results, Value) -> (Results, bool)
    requires inner > C.COMBO_DEPENDENCY
  {
    FilterHoisted(c, inner);
    var code := C.Filter(c, inner).0;
    C.HoistedSourced(code);
    (results: Results, row: Value) =>
      if |results| == |code.nodes| then C.RunList(code.nodes, code.single, results, sem, fields(row))
      else (results, false)
  }

  /** Looks at what the condition's operator holds. */
  function ConditionAt(root: nat): (Results, Value) -> bool
  {
    (results: Results, _: Value) => root < |results| && C.AsBool(results[root])
  }

  function Always(): (Results, Value) -> (Results, bool)
  {
    (results: Results, _: Value) => (results, true)
  }

  /** What the operators hold behind some rows. */
  ghost function Left(rows: seq<Value>, results: Results, list: (Results, Value) -> (Results, bool)): Results
  {
    if rows == [] then results else list(Left(rows[..|rows| - 1], results, list), rows[|rows| - 1]).0
  }

  lemma {:induction false} LeftFirst(rows: seq<Value>, results: Results, list: (Results, Value) -> (Results, bool))
    requires rows != []
    ensures Left(rows, results, list) == Left(rows[1..], list(results, rows[0]).0, list)
    decreases |rows|
  {
    var last := |rows| - 1;
    if last == 0 {
      assert Left(rows[..last], results, list) == results;
    } else {
      LeftFirst(rows[..last], results, list);
      assert rows[..last][1..] == rows[1..][..last - 1];
    }
  }

  lemma {:induction false} SelectedLast(rows: seq<Value>, last: Value, results: Results,
      list: (Results, Value) -> (Results, bool), holds: (Results, Value) -> bool)
    ensures var ran := list(Left(rows, results, list), last);
      Selected(rows + [last], results, list, holds) == Selected(rows, results, list, holds)
        + if ran.1 && holds(ran.0, last) then [last] else []
    decreases |rows|
  {
    if rows == [] {
      assert ([] + [last])[1..] == [];
    } else {
      assert (rows + [last])[0] == rows[0] && (rows + [last])[1..] == rows[1..] + [last];
      LeftFirst(rows, results, list);
      SelectedLast(rows[1..], last, list(results, rows[0]).0, list, holds);
    }
  }

  lemma ListRuns(c: S.Cond, inner: nat, sem: C.Semantics, fields: Fields, results: Results, row: Value)
    requires inner > C.COMBO_DEPENDENCY && |results| == |C.Filter(c, inner).0.nodes|
    ensures var code := C.Filter(c, inner).0;
      && C.Hoisted(code) && C.Sourced(code.nodes)
      && (forall i :: 0 <= i < |code.single| ==> code.single[i] < |code.nodes|)
      && FilterList(c, inner, sem, fields)(results, row)
        == C.RunList(code.nodes, code.single, results, sem, fields(row))
  {
    hide C.RunList, C.Filter, C.Hoisted;
    FilterHoisted(c, inner);
    C.HoistedSourced(C.Filter(c, inner).0);
  }

  /** Behind the rows the operators hold what running the compiled list on them leaves. */
  lemma {:induction false} LeftIs(c: S.Cond, inner: nat, sem: C.Semantics, fields: Fields, rows: seq<Value>)
    requires inner > C.COMBO_DEPENDENCY
    ensures C.Hoisted(C.Filter(c, inner).0)
    ensures var code := C.Filter(c, inner).0;
      Left(rows, C.ScriptDone(code, sem).0, FilterList(c, inner, sem, fields))
        == C.RowsDone(code, sem, Columns(fields, rows))
    decreases |rows|
  {
    hide C.RunList, C.Filter, C.Hoisted, C.ScriptDone, FilterList;
    FilterHoisted(c, inner);
    if rows != [] {
      var before := rows[..|rows| - 1];
      LeftIs(c, inner, sem, fields, before);
      assert Columns(fields, rows)[..|rows| - 1] == Columns(fields, before);
      ListRuns(c, inner, sem, fields, C.RowsDone(C.Filter(c, inner).0, sem, Columns(fields, before)), rows[|rows| - 1]);
    }
  }

  /** The filter's statement, started behind the script, selects what the compiled operators let
      through. */
  lemma {:induction false} SelectedIsPassing(c: S.Cond, inner: nat, sem: C.Semantics, fields: Fields, rows: seq<Value>)
    requires inner > C.COMBO_DEPENDENCY
    ensures C.Hoisted(C.Filter(c, inner).0)
    ensures var (code, root) := C.Filter(c, inner);
      var start := C.ScriptDone(code, sem);
      Passing(c, inner, sem, fields, rows)
        == if start.1 then Selected(rows, start.0, FilterList(c, inner, sem, fields), ConditionAt(root)) else []
    decreases |rows|
  {
    hide C.RunList, C.Filter, C.Hoisted, C.ScriptDone, C.RowsDone, FilterList, Selected;
    FilterHoisted(c, inner);
    var (code, root) := C.Filter(c, inner);
    var start, list := C.ScriptDone(code, sem), FilterList(c, inner, sem, fields);
    if rows != [] {
      var before, row := rows[..|rows| - 1], rows[|rows| - 1];
      assert before + [row] == rows;
      SelectedIsPassing(c, inner, sem, fields, before);
      SelectedLast(before, row, start.0, list, ConditionAt(root));
      LeftIs(c, inner, sem, fields, before);
      ListRuns(c, inner, sem, fields, C.RowsDone(code, sem, Columns(fields, before)), row);
      PassesSo(c, inner, sem, Columns(fields, before), fields(row));
    } else {
      NothingSelected(start.0, list, ConditionAt(root));
    }
  }

  lemma NothingSelected(results: Results, list: (Results, Value) -> (Results, bool), holds: (Results, Value) -> bool)
    ensures Selected([], results, list, holds) == []
  {
  }

  lemma PassesSo(c: S.Cond, inner: nat, sem: C.Semantics, rows: seq<string -> int>, columns: string -> int)
    requires inner > C.COMBO_DEPENDENCY
    ensures var (code, root) := C.Filter(c, inner);
      && C.Hoisted(code) && C.Sourced(code.nodes)
      && (forall i :: 0 <= i < |code.single| ==> code.single[i] < |code.nodes|) && root < |code.nodes|
      && (var row := C.RunList(code.nodes, code.single, C.RowsDone(code, sem, rows), sem, columns);
          C.Passes(c, inner, sem, rows, columns) <==> C.ScriptDone(code, sem).1 && row.1 && C.AsBool(row.0[root]))
  {
    C.EmitCondKeeps(C.Start(inner), c);
    C.HoistedSourced(C.Filter(c, inner).0);
  }

  // ---------- the combo ----------

  function TableStage(rows: seq<Value>): Stage
  {
    NewStage(false, Always(), LoopVar(rows, 0), [])
  }

  lemma StagesCompose(rows: seq<Value>, list: (Results, Value) -> (Results, bool), holds: (Results, Value) -> bool,
      results: Results)
    ensures var stages := [TableStage(rows), NewStage(true, list, Filter(holds), results)];
      Sound(stages) && Fresh(stages) && Composed(stages) == Selected(rows, results, list, holds)
  {
    var stages := [TableStage(rows), NewStage(true, list, Filter(holds), results)];
    assert stages[..1] == [TableStage(rows)];
    TableRuns(stages[0].machine, None, rows, 0);
    assert Composed(stages[..1]) == rows;
    FilterSelects(stages[1].machine, rows);
  }

  /** Runs the script, then the table through the filter. The rows collected are those that the
      compiled operators let through, in order: those that the condition and every `not` in it
      hold for, with the numbers of the counters; and without a `not`, those that the condition
      holds for. */
  method SelectRows(c: S.Cond, inner: nat, sem: C.Semantics, fields: Fields, rows: seq<Value>)
    returns (table: seq<Value>)
    requires inner > C.COMBO_DEPENDENCY
    ensures table == Passing(c, inner, sem, fields, rows) == Meeting(c, inner, sem, fields, rows)
    ensures C.NotFree(c) ==> table == Holding(c, sem, fields, rows)
  {
    hide C.Filter, C.ScriptDone, C.Hoisted, Passing, Meeting, Holding, Selected, FilterList, Composed;
    PassingIs(c, inner, sem, fields, rows);
    SelectedIsPassing(c, inner, sem, fields, rows);
    var (code, root) := C.Filter(c, inner);
    var start := C.ScriptDone(code, sem);
    if !start.1 {
      return [];
    }
    var list := FilterList(c, inner, sem, fields);
    var source := new SingleSt(null, Always(), LoopVar(rows, 0), []);
    var filter := new SingleSt(source, list, Filter(ConditionAt(root)), start.0);
    var combo := new ComboRunner.Combo([source, filter]);
    StagesCompose(rows, list, ConditionAt(root), start.0);
    assert combo.Stages() == [TableStage(rows), NewStage(true, list, Filter(ConditionAt(root)), start.0)];
    combo.Invoke();
    table := combo.table;
  }
}

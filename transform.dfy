// The transform page: column renames, deletes and reorders, a row filter, a
// row sort, the list of applied operations, and the reset to the loaded
// data. Every operation builds new rows and a new state; the page's state
// is the record `State`, and each operation is a function from the old
// state to the new one.

module Transform {

  import opened Strings
  import opened JsValues
  import opened Rows
  import opened Sorting

  datatype Direction = Asc | Desc

  /** The `config` of a history entry; the constructor gives its `type`. */
  datatype Config =
    | RenameConfig(oldName: string, newName: string)
    | DeleteConfig(columnName: string)
    | ReorderConfig(newOrder: seq<string>)
    | FilterConfig(column: string, operator: string, value: string)
    | SortConfig(column: string, direction: Direction)

  /** One history entry; `id` is the caller's clock reading. */
  datatype Operation = Operation(id: string, config: Config)

  datatype State = State(
    data: seq<Row>,
    originalData: seq<Row>,
    columns: seq<string>,
    fileName: string,
    transformOperations: seq<Operation>,
    filterColumn: string,
    filterOperator: string,
    filterValue: string,
    sortColumn: string,
    sortDirection: Direction)

  /** The state after a file has been parsed into rows: the columns are the
      keys of the first row, and the history starts empty. */
  function Load(st: State, rows: seq<Row>, fileName: string): (st': State)
    ensures st'.data == rows && st'.originalData == rows && st'.transformOperations == []
    ensures st'.columns == if rows == [] then [] else rows[0].keys
  {
    st.(data := rows, originalData := rows,
        columns := if rows == [] then [] else rows[0].keys,
        fileName := fileName, transformOperations := [])
  }

  // ---------------------------------------------------------------- rename

  /** `{ ...row }` with `newName` set to the value of `oldName`, then
      `oldName` deleted. */
  function RenameRow(r: Row, oldName: string, newName: string): (r': Row)
    requires oldName != newName
    ensures WellFormed(r) ==> WellFormed(r')
    ensures newName in r'.cells && Get(r', newName) == Get(r, oldName)
    ensures oldName !in r'.cells
    ensures forall c :: c != oldName && c != newName ==>
      Get(r', c) == Get(r, c) && (c in r'.cells <==> c in r.cells)
    ensures WellFormed(r) ==>
      r'.keys == if newName in r.cells then Remove(r.keys, oldName) else Remove(r.keys, oldName) + [newName]
  {
    var set' := Set(r, newName, Get(r, oldName));
    RemoveSnoc(r.keys, newName, oldName);
    Delete(set', oldName)
  }

  /** `columns.map(col => col === oldName ? newName : col)`. */
  function ReplaceColumn(columns: seq<string>, oldName: string, newName: string): (r: seq<string>)
    ensures |r| == |columns|
    ensures forall i :: 0 <= i < |r| ==> r[i] == if columns[i] == oldName then newName else columns[i]
  {
    seq(|columns|, i requires 0 <= i < |columns| => if columns[i] == oldName then newName else columns[i])
  }

  /** `renameColumn`: nothing happens when the new name is blank or equals the old one. */
  function RenameColumn(st: State, oldName: string, newName: string, id: string): (st': State)
    ensures IsBlank(newName) || newName == oldName ==> st' == st
    ensures !(IsBlank(newName) || newName == oldName) ==>
      && |st'.data| == |st.data|
      && (forall i :: 0 <= i < |st.data| ==>
            st'.data[i] == RenameRow(st.data[i], oldName, newName))
      && st'.columns == ReplaceColumn(st.columns, oldName, newName)
      && st'.transformOperations == st.transformOperations + [Operation(id, RenameConfig(oldName, newName))]
      && st'.originalData == st.originalData
  {
    if IsBlank(newName) || newName == oldName then st
    else
      st.(data := seq(|st.data|, i requires 0 <= i < |st.data| => RenameRow(st.data[i], oldName, newName)),
          columns := ReplaceColumn(st.columns, oldName, newName),
          transformOperations := st.transformOperations + [Operation(id, RenameConfig(oldName, newName))])
  }

  /** Renaming a column to a fresh name and back restores every value. */
  lemma RenameBack(r: Row, a: string, b: string)
    requires a != b && b !in r.cells
    requires a in r.cells
    ensures RenameRow(RenameRow(r, a, b), b, a).cells == r.cells
  {
    var r1 := RenameRow(r, a, b);
    var r2 := RenameRow(r1, b, a);
    forall c ensures (c in r2.cells <==> c in r.cells) && Get(r2, c) == Get(r, c) {
      if c == a {
        assert Get(r2, a) == Get(r1, b) == Get(r, a);
      } else if c != b {
        assert Get(r2, c) == Get(r1, c) == Get(r, c);
      }
    }
    SameCells(r2, r);
  }

  /** Rows that hold the same keys with the same values have the same cells. */
  lemma SameCells(r: Row, r': Row)
    requires forall c :: (c in r.cells <==> c in r'.cells) && Get(r, c) == Get(r', c)
    ensures r.cells == r'.cells
  {
    forall c | c in r.cells
      ensures r.cells[c] == r'.cells[c]
    {
      assert Get(r, c) == Get(r', c);
    }
  }

  /** After a rename the old name is gone from `columns`, and the new name
      takes every place the old one had. */
  lemma RenameColumnsReplaces(columns: seq<string>, oldName: string, newName: string)
    requires oldName != newName
    ensures oldName !in ReplaceColumn(columns, oldName, newName)
    ensures oldName in columns ==> newName in ReplaceColumn(columns, oldName, newName)
    ensures forall c :: c != newName ==> (c in ReplaceColumn(columns, oldName, newName) <==> c in columns && c != oldName)
  {
    var r := ReplaceColumn(columns, oldName, newName);
    if oldName in columns {
      var i :| 0 <= i < |columns| && columns[i] == oldName;
      assert r[i] == newName;
    }
    forall c | c != newName && c in columns && c != oldName
      ensures c in r
    {
      var i :| 0 <= i < |columns| && columns[i] == c;
      assert r[i] == c;
    }
  }

  // ---------------------------------------------------------------- delete

  /** `deleteColumn`: the key goes from every row and from `columns`. */
  function DeleteColumn(st: State, columnName: string, id: string): (st': State)
    ensures |st'.data| == |st.data|
    ensures forall i :: 0 <= i < |st.data| ==> st'.data[i] == Delete(st.data[i], columnName)
    ensures st'.columns == Remove(st.columns, columnName)
    ensures st'.transformOperations == st.transformOperations + [Operation(id, DeleteConfig(columnName))]
    ensures st'.originalData == st.originalData
  {
    st.(data := seq(|st.data|, i requires 0 <= i < |st.data| => Delete(st.data[i], columnName)),
        columns := Remove(st.columns, columnName),
        transformOperations := st.transformOperations + [Operation(id, DeleteConfig(columnName))])
  }

  /** Deleting a column twice leaves the rows and columns as deleting it once. */
  lemma DeleteColumnTwice(st: State, columnName: string, id1: string, id2: string)
    ensures var once := DeleteColumn(st, columnName, id1);
      var twice := DeleteColumn(once, columnName, id2);
      twice.data == once.data && twice.columns == once.columns
  {
    var once := DeleteColumn(st, columnName, id1);
    var twice := DeleteColumn(once, columnName, id2);
    forall i | 0 <= i < |st.data|
      ensures twice.data[i] == once.data[i]
    {
      DeleteAbsent(once.data[i], columnName);
    }
  }

  /** Deleting a key the row does not have changes nothing. */
  lemma DeleteAbsent(r: Row, k: string)
    requires k !in r.keys && k !in r.cells
    ensures Delete(r, k) == r
  {
    assert r.cells - {k} == r.cells;
  }

  // ---------------------------------------------------------------- reorder

  /** The row `reorderColumns` builds: each column of `order`, in turn, is
      copied when the row's value there is not undefined. */
  function ReorderRow(r: Row, order: seq<string>): (r': Row)
    ensures WellFormed(r')
    ensures forall c :: Get(r', c) == if c in order then Get(r, c) else Undef
    ensures forall c :: c in r'.cells <==> c in order && Get(r, c) != Undef
  {
    if order == [] then Row([], map[])
    else
      var p := ReorderRow(r, order[..|order| - 1]);
      var c := order[|order| - 1];
      assert forall x :: x in order <==> x in order[..|order| - 1] || x == c;
      if Get(r, c) != Undef then Set(p, c, Get(r, c)) else p
  }

  /** The columns of `order` whose value in r is not undefined, in `order` order. */
  function DefinedIn(r: Row, order: seq<string>): seq<string> {
    if order == [] then []
    else
      DefinedIn(r, order[..|order| - 1])
        + (if Get(r, order[|order| - 1]) != Undef then [order[|order| - 1]] else [])
  }

  /** With no column listed twice, the reordered row enumerates exactly the
      defined columns of the new order, in that order. */
  lemma {:induction false} ReorderRowKeys(r: Row, order: seq<string>)
    requires Distinct(order)
    ensures ReorderRow(r, order).keys == DefinedIn(r, order)
  {
    if order != [] {
      var init := order[..|order| - 1];
      var c := order[|order| - 1];
      ReorderRowKeys(r, init);
    }
  }

  /** Reordering a row by its own keys gives the row back when none of its
      values is undefined. */
  lemma ReorderBySelf(r: Row)
    requires WellFormed(r)
    requires forall c :: c in r.cells ==> r.cells[c] != Undef
    ensures ReorderRow(r, r.keys) == r
  {
    var r' := ReorderRow(r, r.keys);
    ReorderRowKeys(r, r.keys);
    DefinedAll(r, r.keys);
    assert r'.cells == r.cells by {
      forall c | c in r.cells
        ensures c in r'.cells && r'.cells[c] == r.cells[c]
      {
        assert Get(r', c) == Get(r, c);
      }
    }
  }

  lemma {:induction false} DefinedAll(r: Row, order: seq<string>)
    requires forall c :: c in order ==> Get(r, c) != Undef
    ensures DefinedIn(r, order) == order
  {
    if order != [] {
      DefinedAll(r, order[..|order| - 1]);
    }
  }

  /** `reorderColumns`: every row rebuilt in the new order; `columns` becomes the new order. */
  function ReorderColumns(st: State, newOrder: seq<string>, id: string): (st': State)
    ensures |st'.data| == |st.data|
    ensures forall i :: 0 <= i < |st.data| ==> st'.data[i] == ReorderRow(st.data[i], newOrder)
    ensures st'.columns == newOrder
    ensures st'.transformOperations == st.transformOperations + [Operation(id, ReorderConfig(newOrder))]
    ensures st'.originalData == st.originalData
  {
    st.(data := seq(|st.data|, i requires 0 <= i < |st.data| => ReorderRow(st.data[i], newOrder)),
        columns := newOrder,
        transformOperations := st.transformOperations + [Operation(id, ReorderConfig(newOrder))])
  }

  // ---------------------------------------------------------------- filter

  /** The numeric operators: `Number(cell) > Number(value)`, false on NaN. */
  predicate NumberGreater(a: Value, b: Value) {
    var x := ToNumber(a);
    var y := ToNumber(b);
    x.Some? && y.Some? && x.value > y.value
  }

  /** The cases of the operator switch; any other text is `Other`. */
  datatype FilterOp =
    | Equals | ContainsOp | StartsWithOp | GreaterThan | LessThanOp | NotEquals | EndsWithOp | Other

  function ParseOperator(operator: string): (op: FilterOp)
    ensures op == Other <==>
      operator !in {"equals", "contains", "starts_with", "greater_than", "less_than", "not_equals", "ends_with"}
  {
    if operator == "equals" then Equals
    else if operator == "contains" then ContainsOp
    else if operator == "starts_with" then StartsWithOp
    else if operator == "greater_than" then GreaterThan
    else if operator == "less_than" then LessThanOp
    else if operator == "not_equals" then NotEquals
    else if operator == "ends_with" then EndsWithOp
    else Other
  }

  /** Whether `applyFilter` keeps a row: the text operators compare the
      lower-cased `String(cell)` with the lower-cased value. */
  predicate Keep(row: Row, column: string, op: FilterOp, value: string) {
    var cell := Get(row, column);
    var text := ToLower(ToStr(cell));
    var v := ToLower(value);
    match op
    case Equals => text == v
    case ContainsOp => Contains(text, v)
    case StartsWithOp => StartsWith(text, v)
    case GreaterThan => NumberGreater(cell, Str(value))
    case LessThanOp => NumberGreater(Str(value), cell)
    case NotEquals => text != v
    case EndsWithOp => EndsWith(text, v)
    case Other => true
  }

  /** `data.filter(...)` with the filter inputs. */
  function FilterRows(data: seq<Row>, column: string, op: FilterOp, value: string): (r: seq<Row>)
    ensures |r| <= |data|
    ensures forall x :: x in r <==> x in data && Keep(x, column, op, value)
  {
    if data == [] then []
    else
      var last := data[|data| - 1];
      var init := FilterRows(data[..|data| - 1], column, op, value);
      assert forall x :: x in data <==> x in data[..|data| - 1] || x == last;
      init + (if Keep(last, column, op, value) then [last] else [])
  }

  /** The filter keeps the order of the rows it keeps. */
  lemma {:induction false} FilterIsSubsequence(data: seq<Row>, column: string, op: FilterOp, value: string)
    ensures IsSubsequence(FilterRows(data, column, op, value), data)
  {
    if data != [] {
      var init := data[..|data| - 1];
      var r := FilterRows(data, column, op, value);
      FilterIsSubsequence(init, column, op, value);
      if !Keep(data[|data| - 1], column, op, value) {
        if r != [] {
          assert r == FilterRows(init, column, op, value);
        }
      } else {
        assert r[..|r| - 1] == FilterRows(init, column, op, value);
      }
    }
  }

  /** An operator the switch does not know keeps every row. */
  lemma {:induction false} UnknownOperatorKeepsAll(data: seq<Row>, column: string, op: FilterOp, value: string)
    requires op == Other
    ensures FilterRows(data, column, op, value) == data
  {
    if data != [] {
      UnknownOperatorKeepsAll(data[..|data| - 1], column, op, value);
      SplitLast(data);
    }
  }

  /** `equals` and `not_equals` keep complementary rows. */
  lemma EqualsNotEqualsComplement(row: Row, column: string, value: string)
    ensures Keep(row, column, NotEquals, value) <==> !Keep(row, column, Equals, value)
  {
  }

  /** `equals` and `not_equals` split the rows between them, duplicates included. */
  lemma {:induction false} EqualsNotEqualsSplit(data: seq<Row>, column: string, value: string)
    ensures multiset(FilterRows(data, column, Equals, value))
            + multiset(FilterRows(data, column, NotEquals, value)) == multiset(data)
  {
    if data != [] {
      var init, last := data[..|data| - 1], data[|data| - 1];
      EqualsNotEqualsSplit(init, column, value);
      EqualsNotEqualsComplement(last, column, value);
      assert data[..|data| - 1] == init;
      var e, n := FilterRows(init, column, Equals, value), FilterRows(init, column, NotEquals, value);
      SplitLast(data);
      if Keep(last, column, Equals, value) {
        assert FilterRows(data, column, Equals, value) == e + [last];
        assert FilterRows(data, column, NotEquals, value) == n;
        AddToOneSide(multiset(e), multiset(n), multiset(init), last);
      } else {
        assert FilterRows(data, column, Equals, value) == e;
        assert FilterRows(data, column, NotEquals, value) == n + [last];
        AddToOneSide(multiset(n), multiset(e), multiset(init), last);
      }
    }
  }

  /** Adding x to one side of a split adds it to the whole. */
  lemma AddToOneSide<T>(a: multiset<T>, b: multiset<T>, whole: multiset<T>, x: T)
    requires a + b == whole
    ensures (a + multiset{x}) + b == whole + multiset{x}
    ensures b + (a + multiset{x}) == whole + multiset{x}
  {
  }

  /** `applyFilter`: nothing happens (the alert) unless column, operator and
      value are all given; otherwise the kept rows replace the data, one
      history entry is added and the filter inputs are cleared. */
  function ApplyFilter(st: State, id: string): (st': State)
    ensures st.filterColumn == "" || st.filterOperator == "" || st.filterValue == "" ==> st' == st
    ensures !(st.filterColumn == "" || st.filterOperator == "" || st.filterValue == "") ==>
      && st'.data == FilterRows(st.data, st.filterColumn, ParseOperator(st.filterOperator), st.filterValue)
      && st'.transformOperations
         == st.transformOperations + [Operation(id, FilterConfig(st.filterColumn, st.filterOperator, st.filterValue))]
      && st'.filterColumn == "" && st'.filterOperator == "" && st'.filterValue == ""
      && st'.columns == st.columns && st'.originalData == st.originalData
  {
    if st.filterColumn == "" || st.filterOperator == "" || st.filterValue == "" then st
    else
      st.(data := FilterRows(st.data, st.filterColumn, ParseOperator(st.filterOperator), st.filterValue),
          transformOperations := st.transformOperations
            + [Operation(id, FilterConfig(st.filterColumn, st.filterOperator, st.filterValue))],
          filterColumn := "", filterOperator := "", filterValue := "")
  }

  // ---------------------------------------------------------------- sort

  /** The comparator of `applySort`, as "a may stay in front of b": for
      ascending order `a[col] > b[col]` is false, for descending order
      `a[col] < b[col]` is false. */
  function SortLe(column: string, direction: Direction): (Row, Row) -> bool {
    (a: Row, b: Row) =>
      if direction == Asc then !LessThan(Get(b, column), Get(a, column))
      else !LessThan(Get(a, column), Get(b, column))
  }

  /** `applySort`: nothing happens (the alert) without a sort column;
      otherwise the sorted rows replace the data, one history entry is added,
      and the sort inputs go back to their defaults. */
  function ApplySort(st: State, id: string): (st': State)
    ensures st.sortColumn == "" ==> st' == st
    ensures st.sortColumn != "" ==>
      && multiset(st'.data) == multiset(st.data)
      && st'.data == SortBy(st.data, SortLe(st.sortColumn, st.sortDirection))
      && st'.transformOperations
         == st.transformOperations + [Operation(id, SortConfig(st.sortColumn, st.sortDirection))]
      && st'.sortColumn == "" && st'.sortDirection == Asc
      && st'.columns == st.columns && st'.originalData == st.originalData
  {
    if st.sortColumn == "" then st
    else
      st.(data := SortBy(st.data, SortLe(st.sortColumn, st.sortDirection)),
          transformOperations := st.transformOperations
            + [Operation(id, SortConfig(st.sortColumn, st.sortDirection))],
          sortColumn := "", sortDirection := Asc)
  }

  /** Every row holds a string in the column. */
  predicate StringColumn(data: seq<Row>, column: string) {
    forall r :: r in data ==> Get(r, column).Str?
  }

  /** On a column of strings the comparator is a total preorder. */
  lemma StringColumnConsistent(data: seq<Row>, column: string, direction: Direction)
    requires StringColumn(data, column)
    ensures TotalPreorderOn(data, SortLe(column, direction))
  {
    var le := SortLe(column, direction);
    forall a, b | a in data && b in data
      ensures le(a, b) || le(b, a)
    {
      StrLessTrichotomy(Get(a, column).s, Get(b, column).s);
    }
    forall a, b, c | a in data && b in data && c in data && le(a, b) && le(b, c)
      ensures le(a, c)
    {
      var x, y, z := Get(a, column).s, Get(b, column).s, Get(c, column).s;
      StrLessTrichotomy(x, y);
      StrLessTrichotomy(y, z);
      StrLessTrichotomy(x, z);
      if StrLess(x, y) && StrLess(y, z) {
        StrLessTransitive(x, y, z);
      }
      if StrLess(z, y) && StrLess(y, x) {
        StrLessTransitive(z, y, x);
      }
    }
  }

  /** Sorting a column of strings orders the rows by that column, and rows
      with equal values keep their relative order. */
  lemma SortStringColumn(st: State, id: string)
    requires st.sortColumn != "" && StringColumn(st.data, st.sortColumn)
    ensures var le := SortLe(st.sortColumn, st.sortDirection);
      var sorted := ApplySort(st, id).data;
      && SortedBy(sorted, le)
      && forall x :: StringColumn(st.data + [x], st.sortColumn) ==>
           TiedWith(sorted, x, le) == TiedWith(st.data, x, le)
  {
    var le := SortLe(st.sortColumn, st.sortDirection);
    StringColumnConsistent(st.data, st.sortColumn, st.sortDirection);
    SortBySorted(st.data, le);
    forall x | StringColumn(st.data + [x], st.sortColumn)
      ensures TiedWith(SortBy(st.data, le), x, le) == TiedWith(st.data, x, le)
    {
      StringColumnConsistent(st.data + [x], st.sortColumn, st.sortDirection);
      SortByStable(st.data, x, le);
    }
  }

  // ---------------------------------------------------------------- reset

  /** `resetData`: the loaded rows come back, the history and the filter and
      sort inputs are cleared; `columns` is left as it is. */
  function ResetData(st: State): (st': State)
    ensures st'.data == st.originalData && st'.transformOperations == []
    ensures st'.columns == st.columns && st'.originalData == st.originalData
    ensures st'.filterColumn == "" && st'.filterOperator == "" && st'.filterValue == ""
    ensures st'.sortColumn == "" && st'.sortDirection == Asc
  {
    st.(data := st.originalData, transformOperations := [],
        filterColumn := "", filterOperator := "", filterValue := "",
        sortColumn := "", sortDirection := Asc)
  }

  /** `clearFilters`: the loaded rows come back and the filter inputs are
      cleared; the history stays. */
  function ClearFilters(st: State): (st': State)
    ensures st'.data == st.originalData && st'.transformOperations == st.transformOperations
    ensures st'.filterColumn == "" && st'.filterOperator == "" && st'.filterValue == ""
  {
    st.(data := st.originalData, filterColumn := "", filterOperator := "", filterValue := "")
  }

  /** The operations of the page, as one type. */
  datatype Step =
    | DoRename(oldName: string, newName: string)
    | DoDelete(columnName: string)
    | DoReorder(newOrder: seq<string>)
    | DoFilter
    | DoSort

  function Apply(st: State, step: Step, id: string): State {
    match step
    case DoRename(o, n) => RenameColumn(st, o, n, id)
    case DoDelete(c) => DeleteColumn(st, c, id)
    case DoReorder(order) => ReorderColumns(st, order, id)
    case DoFilter => ApplyFilter(st, id)
    case DoSort => ApplySort(st, id)
  }

  /** Running steps one after another. */
  function ApplyAll(st: State, steps: seq<Step>, ids: seq<string>): State
    requires |ids| == |steps|
    decreases |steps|
  {
    if steps == [] then st
    else ApplyAll(Apply(st, steps[0], ids[0]), steps[1..], ids[1..])
  }

  /** Each step adds at most one history entry, exactly one when it acts,
      and never touches the loaded rows. */
  lemma ApplyStep(st: State, step: Step, id: string)
    ensures var st' := Apply(st, step, id);
      && st'.originalData == st.originalData
      && (st' == st || st'.transformOperations == st.transformOperations + [st'.transformOperations[|st.transformOperations|]])
      && |st'.transformOperations| <= |st.transformOperations| + 1
  {
  }

  /** After any run of steps, reset brings back exactly the loaded rows,
      with an empty history. */
  lemma {:induction false} ResetAfterSteps(st: State, steps: seq<Step>, ids: seq<string>)
    requires |ids| == |steps|
    decreases |steps|
    ensures ApplyAll(st, steps, ids).originalData == st.originalData
    ensures ResetData(ApplyAll(st, steps, ids)).data == st.originalData
    ensures ResetData(ApplyAll(st, steps, ids)).transformOperations == []
  {
    if steps != [] {
      ApplyStep(st, steps[0], ids[0]);
      ResetAfterSteps(Apply(st, steps[0], ids[0]), steps[1..], ids[1..]);
    }
  }

  /** The history is the entries of the steps that acted, in order: it never
      loses an entry and never holds more entries than steps were run. */
  lemma {:induction false} HistoryGrows(st: State, steps: seq<Step>, ids: seq<string>)
    requires |ids| == |steps|
    decreases |steps|
    ensures var st' := ApplyAll(st, steps, ids);
      && |st.transformOperations| <= |st'.transformOperations| <= |st.transformOperations| + |steps|
      && st'.transformOperations[..|st.transformOperations|] == st.transformOperations
  {
    if steps != [] {
      var next := Apply(st, steps[0], ids[0]);
      ApplyStep(st, steps[0], ids[0]);
      HistoryGrows(next, steps[1..], ids[1..]);
      var fin := ApplyAll(next, steps[1..], ids[1..]);
      assert fin.transformOperations[..|st.transformOperations|]
          == fin.transformOperations[..|next.transformOperations|][..|st.transformOperations|];
    }
  }
}

// The chart page's "generate chart": rows are grouped by the text of one
// column (falsy cells go to "Unknown"), and each group becomes one chart
// entry named by its key. The grouping loop fills a dictionary from group
// key to the rows of that group; it is a method proved against the
// function `Group`. For the row-count aggregation (and for any method name
// the page does not know) an entry's value is the size of its group.
//
// The page keeps the dictionary in a plain object, where a key such as
// "constructor" or "toString" already names an inherited member; the
// grouping as written fails on those keys. `GroupAsWritten` models that,
// and `Group` is the grouping by own keys that the page evidently means.

module Visualize {

  import opened JsValues
  import opened Rows

  /** `String(row[groupBy] || 'Unknown')`. */
  function GroupKey(row: Row, groupBy: string): (key: string)
    ensures !Truthy(Get(row, groupBy)) ==> key == "Unknown"
    ensures Truthy(Get(row, groupBy)) ==> key == ToStr(Get(row, groupBy))
  {
    ToStr(Or(Get(row, groupBy), Str("Unknown")))
  }

  /** The group-key function of a group-by column. */
  function KeyOf(groupBy: string): (key: Row -> string)
    ensures forall row :: key(row) == GroupKey(row, groupBy)
  {
    (row: Row) => GroupKey(row, groupBy)
  }

  /** The dictionary of groups, with its keys in the order they were first
      set, which is the order `Object.keys` lists them in. */
  datatype Grouping<T> = Grouping(keys: seq<string>, groups: map<string, seq<T>>)

  /** `if (!grouped[k]) grouped[k] = []; grouped[k].push(x)` for a
      dictionary that holds only its own keys. */
  function AddRow<T>(g: Grouping<T>, k: string, x: T): (r: Grouping<T>)
    ensures r.groups.Keys == g.groups.Keys + {k}
    ensures forall j :: j in g.groups && j != k ==> r.groups[j] == g.groups[j]
  {
    var members := if k in g.groups then g.groups[k] else [];
    Grouping(if k in g.groups then g.keys else g.keys + [k], g.groups[k := members + [x]])
  }

  /** The groups after adding every element in turn. */
  function Group<T>(data: seq<T>, key: T -> string): Grouping<T> {
    if data == [] then Grouping([], map[])
    else
      var x := data[|data| - 1];
      AddRow(Group(data[..|data| - 1], key), key(x), x)
  }

  /** The key of every element, in order. */
  function Keys<T>(data: seq<T>, key: T -> string): (ks: seq<string>)
    ensures |ks| == |data|
    ensures forall i :: 0 <= i < |data| ==> ks[i] == key(data[i])
  {
    seq(|data|, i requires 0 <= i < |data| => key(data[i]))
  }

  /** The elements whose key is k, in input order. */
  function WithKey<T>(data: seq<T>, key: T -> string, k: string): (rows: seq<T>)
    ensures |rows| <= |data|
  {
    if data == [] then []
    else
      var x := data[|data| - 1];
      WithKey(data[..|data| - 1], key, k) + (if key(x) == k then [x] else [])
  }

  /** The grouping loop of `generateChart`. */
  method GroupRows(data: seq<Row>, groupBy: string) returns (grouped: Grouping<Row>)
    ensures grouped == Group(data, KeyOf(groupBy))
  {
    grouped := Grouping([], map[]);
    for i := 0 to |data|
      invariant grouped == Group(data[..i], KeyOf(groupBy))
    {
      var row := data[i];
      var groupValue := GroupKey(row, groupBy);
      ghost var before := grouped;
      if groupValue !in grouped.groups {
        grouped := grouped.(keys := grouped.keys + [groupValue], groups := grouped.groups[groupValue := []]);
      }
      grouped := grouped.(groups := grouped.groups[groupValue := grouped.groups[groupValue] + [row]]);
      AddRowSteps(before, groupValue, row);
      assert KeyOf(groupBy)(row) == groupValue;
      GroupSnoc(data, i, KeyOf(groupBy));
    }
    assert data[..|data|] == data;
  }

  /** The two steps of the loop body make one `AddRow`. */
  lemma AddRowSteps<T>(g: Grouping<T>, k: string, x: T)
    ensures var g1 := if k !in g.groups then g.(keys := g.keys + [k], groups := g.groups[k := []]) else g;
      g1.(groups := g1.groups[k := g1.groups[k] + [x]]) == AddRow(g, k, x)
  {
    if k !in g.groups {
      var e: seq<T> := [];
      assert e + [x] == [x];
      assert g.groups[k := e][k := e + [x]] == g.groups[k := [x]];
    }
  }

  lemma GroupSnoc<T>(data: seq<T>, i: nat, key: T -> string)
    requires i < |data|
    ensures Group(data[..i + 1], key) == AddRow(Group(data[..i], key), key(data[i]), data[i])
  {
    assert data[..i + 1][..i] == data[..i];
  }

  lemma KeysSnoc<T>(data: seq<T>, key: T -> string)
    requires data != []
    ensures Keys(data, key) == Keys(data[..|data| - 1], key) + [key(data[|data| - 1])]
  {
  }

  /** Each key is listed once, and the keys are exactly the keys of the
      elements. */
  lemma {:induction false} GroupKeys<T>(data: seq<T>, key: T -> string)
    ensures forall k :: k in Group(data, key).keys <==> k in Group(data, key).groups
    ensures forall k :: k in Group(data, key).groups <==> k in Keys(data, key)
    ensures Distinct(Group(data, key).keys)
  {
    if data != [] {
      GroupKeys(data[..|data| - 1], key);
      KeysSnoc(data, key);
    }
  }

  /** The group under k holds exactly the elements whose key is k, in the
      order they came; a key no element has has no group. */
  lemma {:induction false} GroupContents<T>(data: seq<T>, key: T -> string, k: string)
    ensures k in Group(data, key).groups ==> Group(data, key).groups[k] == WithKey(data, key, k)
    ensures k !in Group(data, key).groups ==> WithKey(data, key, k) == []
  {
    if data != [] {
      GroupContents(data[..|data| - 1], key, k);
    }
  }

  /** How many elements the groups under the keys hold together. */
  function GroupSizes<T>(keys: seq<string>, groups: map<string, seq<T>>): nat {
    if keys == [] then 0
    else
      var k := keys[|keys| - 1];
      GroupSizes(keys[..|keys| - 1], groups) + (if k in groups then |groups[k]| else 0)
  }

  lemma {:induction false} GroupSizesOther<T>(keys: seq<string>, groups: map<string, seq<T>>, k: string, rows: seq<T>)
    requires k !in keys
    ensures GroupSizes(keys, groups[k := rows]) == GroupSizes(keys, groups)
  {
    if keys != [] {
      GroupSizesOther(keys[..|keys| - 1], groups, k, rows);
    }
  }

  lemma GroupSizesSnoc<T>(keys: seq<string>, groups: map<string, seq<T>>, k: string)
    ensures GroupSizes(keys + [k], groups) == GroupSizes(keys, groups) + (if k in groups then |groups[k]| else 0)
  {
    assert (keys + [k])[..|keys|] == keys;
  }

  /** Adding an element to a group listed once adds one to the total. */
  lemma {:induction false} GroupSizesPush<T>(keys: seq<string>, groups: map<string, seq<T>>, k: string, x: T)
    requires Distinct(keys) && k in keys && k in groups
    ensures GroupSizes(keys, groups[k := groups[k] + [x]]) == GroupSizes(keys, groups) + 1
  {
    var init := keys[..|keys| - 1];
    var last := keys[|keys| - 1];
    assert keys == init + [last];
    if last == k {
      GroupSizesOther(init, groups, k, groups[k] + [x]);
    } else {
      GroupSizesPush(init, groups, k, x);
    }
  }

  /** One more element adds one to the total. */
  lemma GroupSizesAdd<T>(g: Grouping<T>, k: string, x: T)
    requires Distinct(g.keys) && forall j :: j in g.keys <==> j in g.groups
    ensures GroupSizes(AddRow(g, k, x).keys, AddRow(g, k, x).groups) == GroupSizes(g.keys, g.groups) + 1
  {
    if k in g.groups {
      GroupSizesPush(g.keys, g.groups, k, x);
    } else {
      var empty: seq<T> := [];
      assert empty + [x] == [x];
      assert AddRow(g, k, x).groups == g.groups[k := [x]];
      GroupSizesSnoc(g.keys, g.groups[k := [x]], k);
      GroupSizesOther(g.keys, g.groups, k, [x]);
    }
  }

  /** Every element lands in exactly one group: the group sizes add up to
      the number of elements. */
  lemma {:induction false} GroupSizesSum<T>(data: seq<T>, key: T -> string)
    ensures GroupSizes(Group(data, key).keys, Group(data, key).groups) == |data|
  {
    if data != [] {
      var init := data[..|data| - 1];
      GroupSizesSum(init, key);
      GroupKeys(init, key);
      GroupSizesAdd(Group(init, key), key(data[|data| - 1]), data[|data| - 1]);
    }
  }

  // ---------------------------------------------------------------------
  // Chart entries
  // ---------------------------------------------------------------------

  /** The aggregation methods the page offers; sum, avg, max and min read
      cells as floating-point numbers. */
  datatype Aggregation = CountRows | FloatAggregate(aggregationMethod: string)

  /** The switch on the method: count, and any name not listed, count the
      rows of the group. */
  function ParseAggregation(aggregationMethod: string): (a: Aggregation)
    ensures a.FloatAggregate? <==> aggregationMethod in {"sum", "avg", "max", "min"}
  {
    if aggregationMethod == "sum" || aggregationMethod == "avg" || aggregationMethod == "max" || aggregationMethod == "min" then FloatAggregate(aggregationMethod)
    else CountRows
  }

  /** One bar, slice or point: the group key and its value; None stands
      for a floating-point aggregate. */
  datatype ChartEntry = ChartEntry(name: string, value: Option<nat>)

  /** What the page shows: the chart entries and whether the chart is on. */
  datatype ChartState = ChartState(chartData: seq<ChartEntry>, showChart: bool)

  /** One entry per group, in key order. */
  function ChartEntries(g: Grouping<Row>, aggregation: Aggregation): (entries: seq<ChartEntry>)
    ensures |entries| == |g.keys|
    ensures forall i :: 0 <= i < |entries| ==> entries[i].name == g.keys[i]
  {
    seq(|g.keys|, i requires 0 <= i < |g.keys| =>
      ChartEntry(g.keys[i],
        if aggregation.FloatAggregate? then None
        else Some(if g.keys[i] in g.groups then |g.groups[g.keys[i]]| else 0)))
  }

  /** `generateChart` with the grouping by own keys. */
  function GenerateChart(st: ChartState, data: seq<Row>, groupBy: string, aggregateColumn: string, aggregationMethod: string): ChartState
  {
    if groupBy == "" || aggregateColumn == "" || aggregationMethod == "" then st
    else ChartState(ChartEntries(Group(data, KeyOf(groupBy)), ParseAggregation(aggregationMethod)), true)
  }

  /** The names of the chart entries, in order. */
  function Names(entries: seq<ChartEntry>): (names: seq<string>)
    ensures |names| == |entries|
    ensures forall i :: 0 <= i < |entries| ==> names[i] == entries[i].name
  {
    seq(|entries|, i requires 0 <= i < |entries| => entries[i].name)
  }

  /** Nothing happens unless the group-by column, the aggregate column and
      the method are all chosen; otherwise the chart is shown with one
      entry per distinct key, named by it, and for a row count the entry
      under k holds the number of rows whose key is k. */
  lemma ChartEntriesSpec(st: ChartState, data: seq<Row>, groupBy: string, aggregateColumn: string, aggregationMethod: string)
    ensures groupBy == "" || aggregateColumn == "" || aggregationMethod == "" ==>
      GenerateChart(st, data, groupBy, aggregateColumn, aggregationMethod) == st
    ensures groupBy != "" && aggregateColumn != "" && aggregationMethod != "" ==>
      var es := GenerateChart(st, data, groupBy, aggregateColumn, aggregationMethod).chartData;
      && GenerateChart(st, data, groupBy, aggregateColumn, aggregationMethod).showChart
      && Distinct(Names(es))
      && (forall k :: k in Names(es) <==> k in Keys(data, KeyOf(groupBy)))
      && (ParseAggregation(aggregationMethod) == CountRows ==>
            forall i :: 0 <= i < |es| ==> es[i].value == Some(|WithKey(data, KeyOf(groupBy), es[i].name)|))
  {
    var key := KeyOf(groupBy);
    var g := Group(data, key);
    GroupKeys(data, key);
    if groupBy != "" && aggregateColumn != "" && aggregationMethod != "" {
      var es := ChartEntries(g, ParseAggregation(aggregationMethod));
      assert Names(es) == g.keys;
      forall i | 0 <= i < |es|
        ensures g.keys[i] in g.groups && g.groups[g.keys[i]] == WithKey(data, key, g.keys[i])
      {
        GroupContents(data, key, g.keys[i]);
      }
    }
  }

  /** The values of a row-count chart add up to the number of rows. */
  lemma CountChartTotal(data: seq<Row>, groupBy: string)
    ensures ChartTotal(ChartEntries(Group(data, KeyOf(groupBy)), CountRows)) == |data|
  {
    var g := Group(data, KeyOf(groupBy));
    GroupSizesSum(data, KeyOf(groupBy));
    ChartTotalIsGroupSizes(g.keys, g.groups);
  }

  /** The sum of the entries' values. */
  function ChartTotal(entries: seq<ChartEntry>): nat {
    if entries == [] then 0
    else
      var e := entries[|entries| - 1];
      ChartTotal(entries[..|entries| - 1]) + (if e.value.Some? then e.value.value else 0)
  }

  lemma {:induction false} ChartTotalIsGroupSizes(keys: seq<string>, groups: map<string, seq<Row>>)
    ensures ChartTotal(ChartEntries(Grouping(keys, groups), CountRows)) == GroupSizes(keys, groups)
  {
    if keys != [] {
      var init := keys[..|keys| - 1];
      ChartTotalIsGroupSizes(init, groups);
      assert ChartEntries(Grouping(keys, groups), CountRows)[..|keys| - 1]
          == ChartEntries(Grouping(init, groups), CountRows);
    }
  }

  // ---------------------------------------------------------------------
  // The grouping as written
  // ---------------------------------------------------------------------

  /** The members every plain object inherits from `Object.prototype`.
      Reading `grouped[key]` for one of these names finds the inherited
      member, which is truthy, so the group is never created and the
      `push` that follows is not a function: a TypeError. */
  const ObjectPrototypeNames: set<string> := {
    "constructor", "__defineGetter__", "__defineSetter__", "hasOwnProperty",
    "__lookupGetter__", "__lookupSetter__", "isPrototypeOf",
    "propertyIsEnumerable", "toString", "valueOf", "__proto__", "toLocaleString"
  }

  /** The grouping loop on a plain object: None when it throws. */
  function GroupAsWritten<T>(data: seq<T>, key: T -> string): Option<Grouping<T>>
  {
    if data == [] then Some(Grouping([], map[]))
    else
      var x := data[|data| - 1];
      match GroupAsWritten(data[..|data| - 1], key)
      case None => None
      case Some(g) => if key(x) in ObjectPrototypeNames then None else Some(AddRow(g, key(x), x))
  }

  /** As written, the grouping throws exactly when some key names an
      inherited member; otherwise it agrees with the grouping by own
      keys. */
  lemma {:induction false} GroupAsWrittenThrows<T>(data: seq<T>, key: T -> string)
    ensures GroupAsWritten(data, key).None? <==> exists k :: k in Keys(data, key) && k in ObjectPrototypeNames
    ensures GroupAsWritten(data, key).Some? ==> GroupAsWritten(data, key).value == Group(data, key)
  {
    if data != [] {
      GroupAsWrittenThrows(data[..|data| - 1], key);
      KeysSnoc(data, key);
    }
  }

  /** A one-row table whose category is "constructor": as written the
      chart fails, while the grouping by own keys gives one group of one
      row. */
  lemma ConstructorCategoryThrows()
    ensures var row := Row(["category"], map["category" := Str("constructor")]);
      && GroupAsWritten([row], KeyOf("category")).None?
      && Group([row], KeyOf("category")) == Grouping(["constructor"], map["constructor" := [row]])
  {
    var row := Row(["category"], map["category" := Str("constructor")]);
    assert GroupKey(row, "category") == "constructor";
    assert [row][..0] == [];
    var empty: seq<Row> := [];
    assert empty + [row] == [row];
  }
}

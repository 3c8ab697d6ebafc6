// The database page: the table list search, the connection payload sent to
// the server, the query a run executes and the name its result gets, and
// the state an uploaded second dataset produces. Name ordering
// (`localeCompare`) is modelled by the code-point order of `StrLess`.

module Database {

  import opened Strings
  import opened JsValues
  import opened Rows
  import opened Sorting

  /** A table of the connected database; `schema` may be missing. */
  datatype TableInfo = TableInfo(name: string, schema: Option<string>)

  // ---------------------------------------------------------------- search

  /** `tableSearchTerm.toLowerCase().trim()`. */
  function SearchKey(term: string): string {
    Trim(ToLower(term))
  }

  /** The table's lower-cased name is the search key. */
  predicate ExactMatch(t: TableInfo, key: string) {
    ToLower(t.name) == key
  }

  /** The filter callback: a blank key keeps everything, otherwise an exact
      match or a name containing the key. */
  predicate Matches(t: TableInfo, key: string) {
    key == "" || ExactMatch(t, key) || Contains(ToLower(t.name), key)
  }

  /** An exact match is a special case of containment. */
  lemma ExactMatchContains(t: TableInfo, key: string)
    requires ExactMatch(t, key)
    ensures Contains(ToLower(t.name), key)
  {
    ContainsSelf(key);
  }

  /** `availableTables.filter(...)`: the matching tables, each as often as
      it is available, in the order they are available. */
  function FilterTables(tables: seq<TableInfo>, key: string): (r: seq<TableInfo>)
    ensures forall t :: t in r <==> t in tables && Matches(t, key)
    ensures forall t :: multiset(r)[t] == if Matches(t, key) then multiset(tables)[t] else 0
    ensures IsSubsequence(r, tables)
  {
    if tables == [] then []
    else
      var init := tables[..|tables| - 1];
      var last := tables[|tables| - 1];
      assert tables == init + [last];
      assert forall t :: t in tables <==> t in init || t == last;
      var r0 := FilterTables(init, key);
      if Matches(last, key) then
        assert (r0 + [last])[..|r0|] == r0;
        r0 + [last]
      else
        SubsequenceOfPrefix(r0, tables);
        r0
  }

  /** The sort comparator as "a may stay in front of b": an exact match goes
      before a non-match, otherwise the names decide. */
  function TableLe(key: string): (TableInfo, TableInfo) -> bool {
    (a: TableInfo, b: TableInfo) =>
      var ea := ExactMatch(a, key);
      var eb := ExactMatch(b, key);
      if ea && !eb then true
      else if !ea && eb then false
      else !StrLess(b.name, a.name)
  }

  /** `filteredTables`. */
  function FilteredTables(tables: seq<TableInfo>, term: string): seq<TableInfo> {
    var key := SearchKey(term);
    SortBy(FilterTables(tables, key), TableLe(key))
  }

  /** A blank search term keeps every table, only reordered. */
  lemma {:induction false} BlankSearchKeepsAll(tables: seq<TableInfo>, term: string)
    requires IsBlank(ToLower(term))
    ensures multiset(FilteredTables(tables, term)) == multiset(tables)
  {
    TrimEmptyIffBlank(ToLower(term));
    KeepAll(tables, SearchKey(term));
  }

  lemma KeepAll(tables: seq<TableInfo>, key: string)
    requires key == ""
    ensures FilterTables(tables, key) == tables
  {
    var r := FilterTables(tables, key);
    assert multiset(r) == multiset(tables) by {
      forall t ensures multiset(r)[t] == multiset(tables)[t] {
        assert Matches(t, key);
      }
    }
    assert |r| == |multiset(r)| == |multiset(tables)| == |tables|;
    SubsequenceFull(r, tables);
  }

  /** With a non-blank term, the tables listed are exactly the available
      ones whose lower-cased name contains the key, each as often as it is
      available. */
  lemma SearchKeepsContaining(tables: seq<TableInfo>, term: string)
    requires !IsBlank(ToLower(term))
    ensures var r := FilteredTables(tables, term);
      && (forall t :: t in r <==> t in tables && Contains(ToLower(t.name), SearchKey(term)))
      && (forall t :: multiset(r)[t] ==
            if Contains(ToLower(t.name), SearchKey(term)) then multiset(tables)[t] else 0)
  {
    var key := SearchKey(term);
    var filtered := FilterTables(tables, key);
    var r := FilteredTables(tables, term);
    TrimEmptyIffBlank(ToLower(term));
    assert key != "";
    assert multiset(r) == multiset(filtered);
    forall t
      ensures t in r <==> t in tables && Contains(ToLower(t.name), key)
      ensures multiset(r)[t] == if Contains(ToLower(t.name), key) then multiset(tables)[t] else 0
    {
      assert t in r <==> t in multiset(r);
      assert t in filtered <==> t in multiset(filtered);
      if ExactMatch(t, key) {
        ExactMatchContains(t, key);
      }
    }
  }

  /** The comparator is a total preorder on any list of tables. */
  lemma TableLeConsistent(tables: seq<TableInfo>, key: string)
    ensures TotalPreorderOn(tables, TableLe(key))
  {
    var le := TableLe(key);
    forall a, b | a in tables && b in tables
      ensures le(a, b) || le(b, a)
    {
      StrLessTrichotomy(a.name, b.name);
    }
    forall a, b, c | a in tables && b in tables && c in tables && le(a, b) && le(b, c)
      ensures le(a, c)
    {
      StrLessTrichotomy(a.name, b.name);
      StrLessTrichotomy(b.name, c.name);
      StrLessTrichotomy(a.name, c.name);
      if StrLess(a.name, b.name) && StrLess(b.name, c.name) {
        StrLessTransitive(a.name, b.name, c.name);
      }
      if StrLess(c.name, b.name) && StrLess(b.name, a.name) {
        StrLessTransitive(c.name, b.name, a.name);
      }
    }
  }

  /** In the listed tables every exact match comes before every other
      table, and within each of the two groups the names are in order. */
  lemma FilteredTablesOrder(tables: seq<TableInfo>, term: string)
    ensures var key := SearchKey(term);
      var r := FilteredTables(tables, term);
      forall i, j :: 0 <= i < j < |r| ==>
        && (ExactMatch(r[j], key) ==> ExactMatch(r[i], key))
        && (ExactMatch(r[i], key) == ExactMatch(r[j], key) ==> !StrLess(r[j].name, r[i].name))
  {
    var key := SearchKey(term);
    var filtered := FilterTables(tables, key);
    TableLeConsistent(filtered, key);
    SortBySorted(filtered, TableLe(key));
  }

  // ---------------------------------------------------------------- payload

  /** The connection form; a field the form never set is None. */
  datatype Connection = Connection(
    server: Option<string>,
    database: Option<string>,
    username: Option<string>,
    user: Option<string>,
    password: Option<string>,
    authType: Option<string>,
    port: Value)

  datatype Payload = Payload(
    server: Option<string>,
    database: string,
    username: Option<string>,
    password: Option<string>,
    authType: string,
    port: int)

  /** The body `testConnection` posts. */
  function TestConnectionPayload(c: Connection): Payload {
    var database := if c.database.Some? then Trim(c.database.value) else "";
    var authType := if c.authType.Some? && c.authType.value != "" then c.authType.value else "sql";
    var port := ToNumber(c.port);
    Payload(
      if c.server.Some? then Some(Trim(c.server.value)) else None,
      if database != "" then database else "master",
      if c.username.Some? then c.username else c.user,
      c.password,
      ToLower(authType),
      if port.Some? && port.value != 0 then port.value else 1433)
  }

  /** The database falls back to `master` exactly when the form's is
      missing or blank; otherwise it is sent trimmed. */
  lemma PayloadDatabase(c: Connection)
    ensures var p := TestConnectionPayload(c);
      && (c.database == None || IsBlank(c.database.value) ==> p.database == "master")
      && (c.database.Some? && !IsBlank(c.database.value) ==> p.database == Trim(c.database.value) != "")
  {
    if c.database.Some? {
      TrimEmptyIffBlank(c.database.value);
    }
  }

  /** The user name is taken from `user` only when `username` is missing:
      an empty `username` is kept, unlike the `||` defaults. */
  lemma PayloadUsername(c: Connection)
    ensures c.username.Some? ==> TestConnectionPayload(c).username == c.username
    ensures c.username == None ==> TestConnectionPayload(c).username == c.user
  {
  }

  /** The payload always names a database and a port, and its
      authentication type is lower case. */
  lemma PayloadDefaults(c: Connection)
    ensures var p := TestConnectionPayload(c);
      && p.database != "" && p.port != 0
      && ToLower(p.authType) == p.authType
  {
    var p := TestConnectionPayload(c);
    if c.authType.Some? && c.authType.value != "" {
      ToLowerIdempotent(c.authType.value);
    }
  }

  /** A port given as the text of a non-zero integer reaches the server as that integer. */
  lemma PayloadPortText(c: Connection, n: int)
    requires n != 0 && c.port == Str(IntToStr(n))
    ensures TestConnectionPayload(c).port == n
  {
    ToNumberOfIntToStr(n);
  }

  // ---------------------------------------------------------------- queries

  /** What a query run does: nothing without a connection, an error message
      shown when there is nothing to run, or the query to post with the name
      its result gets. */
  datatype QueryPlan = Skip | Fail(message: string) | Run(query: string, resultName: string)

  /** The query error the page shows when a run throws. */
  const QueryFailedMessage := "Failed to execute query. Please check your query syntax."

  /** `SELECT TOP 1000 * FROM [schema].[`: everything before the table name. */
  function QueryHead(schema: string): (h: string)
    ensures |h| > 0 && h[|h| - 1] == '['
  {
    "SELECT TOP 1000 * FROM [" + schema + "].["
  }

  /** `SELECT TOP 1000 * FROM [schema].[name]`, with `dbo` for a missing or empty schema. */
  function TableQuery(t: TableInfo): string {
    var schema := if t.schema.Some? && t.schema.value != "" then t.schema.value else "dbo";
    QueryHead(schema) + t.name + "]"
  }

  /** `${schema}.${name}`: a missing schema prints as `undefined`. */
  function TableLabel(t: TableInfo): string {
    (if t.schema.Some? then t.schema.value else "undefined") + "." + t.name
  }

  /** `executeQuery` (customLabel `Custom Query`) and `executeQuery2`
      (customLabel `Custom Query 2`). With nothing to run the handler throws,
      and its own catch replaces the thrown text by the generic message the
      page shows; `Fail` carries that shown message. */
  function PlanQuery(isConnected: bool, customQuery: string, selected: Option<TableInfo>,
                     customLabel: string): (plan: QueryPlan)
    ensures !isConnected <==> plan == Skip
    ensures isConnected && !IsBlank(customQuery) ==> plan == Run(customQuery, customLabel)
    ensures isConnected && IsBlank(customQuery) && selected.Some? ==>
      plan == Run(TableQuery(selected.value), TableLabel(selected.value))
    ensures plan.Fail? <==> isConnected && IsBlank(customQuery) && selected == None
    ensures plan.Fail? ==> plan.message == QueryFailedMessage
  {
    TrimEmptyIffBlank(customQuery);
    if !isConnected then Skip
    else if Trim(customQuery) != "" then Run(customQuery, customLabel)
    else if selected.Some? then Run(TableQuery(selected.value), TableLabel(selected.value))
    else Fail(QueryFailedMessage)
  }

  /** The text after the last `[`: where `TableQuery` puts the table name,
      followed by the closing `]`. */
  function AfterLastBracket(s: string): (r: string)
    ensures |r| <= |s| && r == s[|s| - |r|..]
    ensures '[' !in r
  {
    if s == [] then []
    else if s[|s| - 1] == '[' then []
    else AfterLastBracket(s[..|s| - 1]) + [s[|s| - 1]]
  }

  /** The table name read back from a table query. */
  function QueriedName(q: string): string {
    var tail := AfterLastBracket(q);
    if tail != [] && tail[|tail| - 1] == ']' then tail[..|tail| - 1] else tail
  }

  /** The query names the selected table: the name reads back from it when
      it holds no `[`. Two such tables with different names thus never run
      the same query. */
  lemma TableQueryNamesTable(t: TableInfo)
    requires '[' !in t.name
    ensures QueriedName(TableQuery(t)) == t.name
  {
    var schema := if t.schema.Some? && t.schema.value != "" then t.schema.value else "dbo";
    var head := QueryHead(schema);
    var tail := t.name + "]";
    assert TableQuery(t) == head + tail;
    AfterLastBracketTail(head, tail);
    assert tail[..|tail| - 1] == t.name;
  }

  lemma {:induction false} AfterLastBracketTail(head: string, tail: string)
    requires head != [] && head[|head| - 1] == '['
    requires '[' !in tail
    ensures AfterLastBracket(head + tail) == tail
  {
    if tail != [] {
      var init := tail[..|tail| - 1];
      AfterLastBracketTail(head, init);
      assert (head + tail)[..|head + tail| - 1] == head + init;
    } else {
      assert head + tail == head;
    }
  }

  // ---------------------------------------------------------------- upload

  /** The query result an uploaded second file stands in for. */
  datatype QueryResult = QueryResult(data: seq<Row>, columns: seq<string>, rowCount: nat, executionTime: nat)

  /** `handleFile2Upload`: the second dataset and its name, and a result
      whose columns are the first row's keys. */
  function File2Upload(data: seq<Row>, fileName: string): (r: (seq<Row>, string, QueryResult))
    ensures r.0 == data && r.1 == fileName && r.2.data == data
    ensures r.2.rowCount == |data| && r.2.executionTime == 0
    ensures r.2.columns == if |data| > 0 then data[0].keys else []
  {
    (data, fileName, QueryResult(data, if |data| > 0 then data[0].keys else [], |data|, 0))
  }
}

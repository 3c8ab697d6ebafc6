// The comparator of the data-comparison screen, run on the main thread.
// The composite key of a row is the `String(row[col] || '')` of every selected
// column joined with "|". Rows whose key carries no content are dropped from
// both datasets. The second dataset is indexed by key, and each row of the
// first dataset is probed against the index and compared column by column.
// A last pass collects the second dataset's rows whose key the first
// dataset never produced.

module DataComparison {

  import opened Strings
  import opened JsValues
  import opened Rows
  import opened HashJoin

  /** The key segment of one column: falsy cells become "". */
  function KeyParts(row: Row, cols: seq<string>): seq<string> {
    seq(|cols|, i requires 0 <= i < |cols| => ToStrOrEmpty(Get(row, cols[i])))
  }

  /** `createKey(row)`. */
  function CreateKey(row: Row, cols: seq<string>): string {
    Join(KeyParts(row, cols), "|")
  }

  /** The key of the leading columns, a separator, and the last column's
      segment. */
  lemma CreateKeyLast(row: Row, cols: seq<string>)
    requires |cols| > 1
    ensures CreateKey(row, cols)
      == CreateKey(row, cols[..|cols| - 1]) + "|" + ToStrOrEmpty(Get(row, cols[|cols| - 1]))
  {
    var parts := KeyParts(row, cols);
    assert KeyParts(row, cols[..|cols| - 1]) == parts[..|cols| - 1];
    JoinLast(parts, "|");
  }

  function KeyOf(cols: seq<string>): Row -> string {
    row => CreateKey(row, cols)
  }

  /** `isValidRow(row)`, with its three tests on the key as written. */
  predicate IsValidRowAsWritten(row: Row, cols: seq<string>) {
    var key := CreateKey(row, cols);
    |row.keys| > 0 && Trim(key) != "" && key != "||" && !AllBlank(Split(key, '|'))
  }

  /** What `isValidRow(row)` decides, in the form ValidRowIff proves
      equivalent to the tests as written: the row has a property, and some
      selected column contributes a character that is neither white space
      nor "|". */
  predicate IsValidRow(row: Row, cols: seq<string>) {
    |row.keys| > 0 && exists i :: 0 <= i < |cols| && HasContent(ToStrOrEmpty(Get(row, cols[i])))
  }

  /** Some character is neither white space nor the separator. */
  predicate HasContent(s: string) {
    exists i :: 0 <= i < |s| && !IsWhitespace(s[i]) && s[i] != '|'
  }

  lemma HasContentAppend(a: string, b: string)
    ensures HasContent(a + b) <==> HasContent(a) || HasContent(b)
  {
    if HasContent(a + b) {
      var i :| 0 <= i < |a + b| && !IsWhitespace((a + b)[i]) && (a + b)[i] != '|';
      if i >= |a| {
        assert b[i - |a|] == (a + b)[i];
      } else {
        assert a[i] == (a + b)[i];
      }
    }
    if HasContent(a) {
      var i :| 0 <= i < |a| && !IsWhitespace(a[i]) && a[i] != '|';
      assert (a + b)[i] == a[i];
    }
    if HasContent(b) {
      var i :| 0 <= i < |b| && !IsWhitespace(b[i]) && b[i] != '|';
      assert (a + b)[|a| + i] == b[i];
    }
  }

  lemma {:induction false} JoinHasContent(parts: seq<string>)
    ensures HasContent(Join(parts, "|")) <==> exists k :: 0 <= k < |parts| && HasContent(parts[k])
  {
    if |parts| > 1 {
      JoinHasContent(parts[1..]);
      HasContentAppend(parts[0] + "|", Join(parts[1..], "|"));
      HasContentAppend(parts[0], "|");
      assert !HasContent("|");
      assert forall k :: 1 <= k < |parts| ==> parts[k] == parts[1..][k - 1];
      if HasContent(Join(parts[1..], "|")) {
        var k :| 0 <= k < |parts[1..]| && HasContent(parts[1..][k]);
        assert HasContent(parts[k + 1]);
      }
    }
  }

  /** The three tests `isValidRow` makes on a key come down to one: the key
      has a character that is neither white space nor "|". */
  lemma KeyTestsIff(key: string)
    ensures (Trim(key) != "" && key != "||" && !AllBlank(Split(key, '|'))) <==> HasContent(key)
    ensures !AllBlank(Split(key, '|')) <==> HasContent(key)
  {
    SplitAllBlank(key, '|');
    TrimEmptyIffBlank(key);
    assert BlankOrSeparator(key, '|') <==> !HasContent(key);
    if key == "||" {
      assert BlankOrSeparator(key, '|');
    }
  }

  lemma KeyHasContentIff(row: Row, cols: seq<string>)
    ensures HasContent(CreateKey(row, cols)) <==>
      exists i :: 0 <= i < |cols| && HasContent(ToStrOrEmpty(Get(row, cols[i])))
  {
    var parts := KeyParts(row, cols);
    JoinHasContent(parts);
    if HasContent(CreateKey(row, cols)) {
      var k :| 0 <= k < |parts| && HasContent(parts[k]);
      assert HasContent(ToStrOrEmpty(Get(row, cols[k])));
    }
    if exists i :: 0 <= i < |cols| && HasContent(ToStrOrEmpty(Get(row, cols[i]))) {
      var i :| 0 <= i < |cols| && HasContent(ToStrOrEmpty(Get(row, cols[i])));
      assert HasContent(parts[i]);
    }
  }

  /** The trim test and the "||" test of `isValidRow` are implied by the
      split test: a row is valid exactly when it has a property and some
      selected column contributes a character that is neither white space
      nor "|". */
  lemma ValidRowIff(row: Row, cols: seq<string>)
    ensures IsValidRowAsWritten(row, cols) <==> IsValidRow(row, cols)
    ensures IsValidRowAsWritten(row, cols) <==> |row.keys| > 0 && !AllBlank(Split(CreateKey(row, cols), '|'))
  {
    KeyTestsIff(CreateKey(row, cols));
    KeyHasContentIff(row, cols);
  }

  /** `data.filter(isValidRow)`. */
  function ValidRows(data: seq<Row>, cols: seq<string>): (v: seq<Row>)
    ensures forall r :: r in v <==> r in data && IsValidRow(r, cols)
    ensures |v| <= |data|
  {
    if data == [] then []
    else
      var r := data[|data| - 1];
      var init := data[..|data| - 1];
      assert data == init + [r];
      ValidRows(init, cols) + (if IsValidRow(r, cols) then [r] else [])
  }

  /** What `performComparison` leaves in `comparisonResult`. */
  function Compare(data1: seq<Row>, data2: seq<Row>, cols: seq<string>, name1: string, name2: string): ComparisonResult {
    if |cols| == 0 || |data1| == 0 || |data2| == 0 then EmptyResult
    else
      var keyOf := KeyOf(cols);
      var v1 := ValidRows(data1, cols);
      var v2 := ValidRows(data2, cols);
      var index := IndexBy(v2, keyOf);
      ComparisonResult(
        Matches(v1, index, keyOf, cols, name1, false),
        Mismatches(v1, index, keyOf, cols, name1, false),
        UniqueToFirst(v1, index, keyOf, cols, name1),
        UniqueToSecond(v2, KeySet(v1, keyOf), keyOf, name2))
  }

  /** Without a selected column, or with an empty dataset, all four lists
      are empty. */
  lemma NothingToCompare(data1: seq<Row>, data2: seq<Row>, cols: seq<string>, name1: string, name2: string)
    requires |cols| == 0 || |data1| == 0 || |data2| == 0
    ensures var c := Compare(data1, data2, cols, name1, name2);
      c.matches == [] && c.mismatches == [] && c.uniqueToFirst == [] && c.uniqueToSecond == []
  {
  }

  /** The filter, the build loop, the probe loop and the second pass. */
  method PerformComparison(data1: seq<Row>, data2: seq<Row>, cols: seq<string>, name1: string, name2: string)
    returns (result: ComparisonResult)
    ensures result == Compare(data1, data2, cols, name1, name2)
  {
    if |cols| == 0 {
      return EmptyResult;
    }
    if |data1| == 0 || |data2| == 0 {
      return EmptyResult;
    }
    var validData2 := ValidRows(data2, cols);
    var data2Map := BuildLookup(validData2, cols);
    var validData1 := ValidRows(data1, cols);
    var matches, mismatches, uniqueToFirst, data1Keys := Probe(validData1, data2Map, cols, name1);
    var uniqueToSecond := CollectUnseen(validData2, data1Keys, cols, name2);
    result := ComparisonResult(matches, mismatches, uniqueToFirst, uniqueToSecond);
  }

  /** The build loop: `data2Map.set(createKey(row), row)` for each row. */
  method BuildLookup(validData2: seq<Row>, cols: seq<string>) returns (data2Map: map<string, Row>)
    ensures data2Map == IndexBy(validData2, KeyOf(cols))
  {
    data2Map := map[];
    for i := 0 to |validData2|
      invariant data2Map == IndexBy(validData2[..i], KeyOf(cols))
    {
      assert validData2[..i + 1][..i] == validData2[..i];
      data2Map := data2Map[CreateKey(validData2[i], cols) := validData2[i]];
    }
    assert validData2[..|validData2|] == validData2;
  }

  /** The probe loop over the first dataset's valid rows. */
  method Probe(validData1: seq<Row>, data2Map: map<string, Row>, cols: seq<string>, name1: string)
    returns (matches: seq<Tagged>, mismatches: seq<Tagged>, uniqueToFirst: seq<Tagged>, data1Keys: set<string>)
    ensures matches == Matches(validData1, data2Map, KeyOf(cols), cols, name1, false)
    ensures mismatches == Mismatches(validData1, data2Map, KeyOf(cols), cols, name1, false)
    ensures uniqueToFirst == UniqueToFirst(validData1, data2Map, KeyOf(cols), cols, name1)
    ensures data1Keys == KeySet(validData1, KeyOf(cols))
  {
    var keyOf := KeyOf(cols);
    matches, mismatches, uniqueToFirst, data1Keys := [], [], [], {};
    for i := 0 to |validData1|
      invariant matches == Matches(validData1[..i], data2Map, keyOf, cols, name1, false)
      invariant mismatches == Mismatches(validData1[..i], data2Map, keyOf, cols, name1, false)
      invariant uniqueToFirst == UniqueToFirst(validData1[..i], data2Map, keyOf, cols, name1)
      invariant data1Keys == KeySet(validData1[..i], keyOf)
    {
      var row1 := validData1[i];
      assert validData1[..i + 1][..i] == validData1[..i];
      var key := CreateKey(row1, cols);
      assert keyOf(row1) == key;
      data1Keys := data1Keys + {key};
      if key in data2Map {
        var row2 := data2Map[key];
        var isMatch, differences := CompareColumns(row1, row2, cols);
        if isMatch {
          assert Classify(row1, data2Map, keyOf, cols) == Match(row2);
          matches := matches + [Tagged(row1, name1, None, None)];
        } else {
          assert Classify(row1, data2Map, keyOf, cols) == Mismatch(row2, differences);
          mismatches := mismatches + [Tagged(row1, name1, Some(differences), None)];
        }
      } else {
        assert Classify(row1, data2Map, keyOf, cols) == Unique;
        uniqueToFirst := uniqueToFirst + [Tagged(row1, name1, None, None)];
      }
    }
    assert validData1[..|validData1|] == validData1;
  }

  /** The second pass over the second dataset's valid rows. */
  method CollectUnseen(validData2: seq<Row>, data1Keys: set<string>, cols: seq<string>, name2: string)
    returns (uniqueToSecond: seq<Tagged>)
    ensures uniqueToSecond == UniqueToSecond(validData2, data1Keys, KeyOf(cols), name2)
  {
    uniqueToSecond := [];
    for i := 0 to |validData2|
      invariant uniqueToSecond == UniqueToSecond(validData2[..i], data1Keys, KeyOf(cols), name2)
    {
      assert validData2[..i + 1][..i] == validData2[..i];
      var row2 := validData2[i];
      if CreateKey(row2, cols) !in data1Keys {
        uniqueToSecond := uniqueToSecond + [Tagged(row2, name2, None, None)];
      }
    }
    assert validData2[..|validData2|] == validData2;
  }

  /** Some row that `data.filter(isValidRow)` keeps has key k. */
  predicate HasKey(data: seq<Row>, cols: seq<string>, k: string) {
    exists r :: r in ValidRows(data, cols) && CreateKey(r, cols) == k
  }

  lemma KeyInValid(data: seq<Row>, cols: seq<string>, k: string)
    ensures k in KeySet(ValidRows(data, cols), KeyOf(cols)) <==> HasKey(data, cols, k)
    ensures k in IndexBy(ValidRows(data, cols), KeyOf(cols)) <==> HasKey(data, cols, k)
  {
    var v := ValidRows(data, cols);
    var keyOf := KeyOf(cols);
    KeySetMembers(v, keyOf, k);
    IndexByLastWins(v, keyOf, k);
    if HasKey(data, cols, k) {
      var r :| r in v && CreateKey(r, cols) == k;
      var i :| 0 <= i < |v| && v[i] == r;
      assert keyOf(v[i]) == k;
    }
    if exists i :: 0 <= i < |v| && keyOf(v[i]) == k {
      var i :| 0 <= i < |v| && keyOf(v[i]) == k;
      assert v[i] in v && CreateKey(v[i], cols) == k;
    }
  }

  /** The probe splits the valid rows of the first dataset: each lands in
      exactly one of matches, mismatches and uniqueToFirst, as often as it
      occurs, and each list keeps the dataset's order. */
  lemma ComparePartition(data1: seq<Row>, data2: seq<Row>, cols: seq<string>, name1: string, name2: string)
    requires |cols| > 0 && |data1| > 0 && |data2| > 0
    ensures var c := Compare(data1, data2, cols, name1, name2);
            var v1 := ValidRows(data1, cols);
            && multiset(Untag(c.matches)) + multiset(Untag(c.mismatches)) + multiset(Untag(c.uniqueToFirst)) == multiset(v1)
            && |c.matches| + |c.mismatches| + |c.uniqueToFirst| == |v1|
            && IsSubsequence(Untag(c.matches), v1) && IsSubsequence(Untag(c.mismatches), v1)
            && IsSubsequence(Untag(c.uniqueToFirst), v1)
  {
    var v2 := ValidRows(data2, cols);
    ProbePartition(ValidRows(data1, cols), IndexBy(v2, KeyOf(cols)), KeyOf(cols), cols, name1, false);
  }

  /** Where each result row comes from and why it is in its list. A matched
      or mismatched row's key occurs among the valid rows of the second
      dataset; a row unique to the first has a key that does not. A row
      unique to the second is a valid row of the second dataset whose key
      no valid row of the first produces, and every such row is listed
      as often as it occurs. */
  lemma CompareMembers(data1: seq<Row>, data2: seq<Row>, cols: seq<string>, name1: string, name2: string)
    requires |cols| > 0 && |data1| > 0 && |data2| > 0
    ensures var c := Compare(data1, data2, cols, name1, name2);
      && (forall t :: t in c.matches ==>
            t.row in data1 && IsValidRow(t.row, cols) && t.source == name1 && t.differences == None
            && HasKey(data2, cols, CreateKey(t.row, cols)))
      && (forall t :: t in c.mismatches ==>
            t.row in data1 && IsValidRow(t.row, cols) && t.source == name1
            && t.differences.Some? && t.differences.value != []
            && HasKey(data2, cols, CreateKey(t.row, cols)))
      && (forall t :: t in c.uniqueToFirst ==>
            t.row in data1 && IsValidRow(t.row, cols) && t.source == name1 && t.differences == None
            && !HasKey(data2, cols, CreateKey(t.row, cols)))
      && (forall t :: t in c.uniqueToSecond ==>
            t.row in data2 && IsValidRow(t.row, cols) && t.source == name2 && t.differences == None
            && !HasKey(data1, cols, CreateKey(t.row, cols)))
      && (forall r :: r in data2 && IsValidRow(r, cols) && !HasKey(data1, cols, CreateKey(r, cols)) ==>
            multiset(Untag(c.uniqueToSecond))[r] == multiset(ValidRows(data2, cols))[r])
  {
    var keyOf := KeyOf(cols);
    var v1 := ValidRows(data1, cols);
    var v2 := ValidRows(data2, cols);
    var index := IndexBy(v2, keyOf);
    ProbeMembers(v1, index, keyOf, cols, name1, false);
    UniqueToSecondMembers(v2, KeySet(v1, keyOf), keyOf, name2);
    forall r ensures CreateKey(r, cols) in index <==> HasKey(data2, cols, CreateKey(r, cols)) {
      KeyInValid(data2, cols, CreateKey(r, cols));
    }
    forall r ensures CreateKey(r, cols) in KeySet(v1, keyOf) <==> HasKey(data1, cols, CreateKey(r, cols)) {
      KeyInValid(data1, cols, CreateKey(r, cols));
    }
  }

  /** Swapping the datasets swaps the one-sided lists: the rows unique to
      the first dataset are, in order, the rows unique to the second once the
      datasets change places. */
  lemma CompareSwapUnique(a: seq<Row>, b: seq<Row>, cols: seq<string>, nameA: string, nameB: string)
    ensures Untag(Compare(a, b, cols, nameA, nameB).uniqueToFirst) == Untag(Compare(b, a, cols, nameB, nameA).uniqueToSecond)
  {
    if |cols| > 0 && |a| > 0 && |b| > 0 {
      var keyOf := KeyOf(cols);
      var va := ValidRows(a, cols);
      var vb := ValidRows(b, cols);
      UniqueToFirstRows(va, IndexBy(vb, keyOf), keyOf, cols, nameA);
      UniqueToSecondRows(va, KeySet(vb, keyOf), keyOf, nameA);
      UniqueBucketIsUnseen(va, vb, keyOf, cols);
    }
  }

  /** The paired rows carry exactly the keys both datasets produce. */
  lemma ComparePairedKeys(a: seq<Row>, b: seq<Row>, cols: seq<string>, nameA: string, nameB: string, k: string)
    requires |cols| > 0 && |a| > 0 && |b| > 0
    ensures var c := Compare(a, b, cols, nameA, nameB);
      (exists t :: t in c.matches + c.mismatches && CreateKey(t.row, cols) == k)
      <==> HasKey(a, cols, k) && HasKey(b, cols, k)
  {
    var c := Compare(a, b, cols, nameA, nameB);
    if HasKey(a, cols, k) && HasKey(b, cols, k) {
      PairedKeyListed(a, b, cols, nameA, nameB, k);
    }
    if exists t :: t in c.matches + c.mismatches && CreateKey(t.row, cols) == k {
      var t :| t in c.matches + c.mismatches && CreateKey(t.row, cols) == k;
      CompareMembers(a, b, cols, nameA, nameB);
      assert t.row in a && IsValidRow(t.row, cols);
    }
  }

  lemma PairedKeyListed(a: seq<Row>, b: seq<Row>, cols: seq<string>, nameA: string, nameB: string, k: string)
    requires |cols| > 0 && |a| > 0 && |b| > 0
    requires HasKey(a, cols, k) && HasKey(b, cols, k)
    ensures var c := Compare(a, b, cols, nameA, nameB);
      exists t :: t in c.matches + c.mismatches && CreateKey(t.row, cols) == k
  {
    var keyOf := KeyOf(cols);
    var va := ValidRows(a, cols);
    var index := IndexBy(ValidRows(b, cols), keyOf);
    KeyInValid(b, cols, k);
    var r :| r in va && CreateKey(r, cols) == k;
    assert keyOf(r) == k;
    PairedTagged(va, index, keyOf, cols, nameA, false, r);
    var c := Compare(a, b, cols, nameA, nameB);
    assert c.matches + c.mismatches == Matches(va, index, keyOf, cols, nameA, false) + Mismatches(va, index, keyOf, cols, nameA, false);
    var t :| t in c.matches + c.mismatches && t.row == r;
    assert CreateKey(t.row, cols) == k;
  }

  /** The key segment of a column is the text the comparison compares, and
      it holds no separator. */
  predicate PlainCell(row: Row, col: string) {
    ToStrOrEmpty(Get(row, col)) == ToStr(Get(row, col)) && '|' !in ToStr(Get(row, col))
  }

  lemma KeyPartsInjective(r1: Row, r2: Row, cols: seq<string>)
    requires |cols| > 0
    requires forall c :: c in cols ==> PlainCell(r1, c) && PlainCell(r2, c)
    requires CreateKey(r1, cols) == CreateKey(r2, cols)
    ensures forall c :: c in cols ==> !Differs(r1, r2, c)
  {
    var p1, p2 := KeyParts(r1, cols), KeyParts(r2, cols);
    assert forall k :: 0 <= k < |p1| ==> '|' !in p1[k] by {
      forall k | 0 <= k < |p1| ensures '|' !in p1[k] { assert cols[k] in cols; }
    }
    assert forall k :: 0 <= k < |p2| ==> '|' !in p2[k] by {
      forall k | 0 <= k < |p2| ensures '|' !in p2[k] { assert cols[k] in cols; }
    }
    SplitJoin(p1, '|');
    SplitJoin(p2, '|');
    forall c | c in cols ensures !Differs(r1, r2, c) {
      var k :| 0 <= k < |cols| && cols[k] == c;
      assert p1[k] == p2[k];
    }
  }

  /** Mismatches come only from the coercions of the key: when every compared
      cell is truthy or the empty string and holds no "|", two rows with the
      same key agree on every compared column, so nothing is a mismatch. */
  lemma NoMismatchesForPlainCells(data1: seq<Row>, data2: seq<Row>, cols: seq<string>, name1: string, name2: string)
    requires forall r, c :: r in data1 && c in cols ==> PlainCell(r, c)
    requires forall r, c :: r in data2 && c in cols ==> PlainCell(r, c)
    ensures Compare(data1, data2, cols, name1, name2).mismatches == []
  {
    var c := Compare(data1, data2, cols, name1, name2);
    if |cols| > 0 && |data1| > 0 && |data2| > 0 && c.mismatches != [] {
      var keyOf := KeyOf(cols);
      var v1 := ValidRows(data1, cols);
      var v2 := ValidRows(data2, cols);
      var index := IndexBy(v2, keyOf);
      ProbeMembers(v1, index, keyOf, cols, name1, false);
      var t := c.mismatches[0];
      assert t in c.mismatches;
      var o := Classify(t.row, index, keyOf, cols);
      var key := CreateKey(t.row, cols);
      IndexByLastWins(v2, keyOf, key);
      var j :| 0 <= j < |v2| && keyOf(v2[j]) == key && index[key] == v2[j];
      assert v2[j] in v2;
      KeyPartsInjective(t.row, o.partner, cols);
    }
  }

  /** One valid row against one valid row with the same key. */
  lemma CompareOnePair(r1: Row, r2: Row, cols: seq<string>, name1: string, name2: string)
    requires |cols| > 0 && IsValidRow(r1, cols) && IsValidRow(r2, cols)
    requires CreateKey(r1, cols) == CreateKey(r2, cols)
    ensures var d := Differences(r1, r2, cols);
      Compare([r1], [r2], cols, name1, name2)
        == if d == [] then ComparisonResult([Tagged(r1, name1, None, None)], [], [], [])
           else ComparisonResult([], [Tagged(r1, name1, Some(d), None)], [], [])
  {
    var keyOf := KeyOf(cols);
    ValidSingleton(r1, cols);
    ValidSingleton(r2, cols);
    assert keyOf(r1) == keyOf(r2);
    SingletonJoin(r1, r2, keyOf, cols, name1, name2);
    var index := IndexBy([r2], keyOf);
    assert Compare([r1], [r2], cols, name1, name2) == ComparisonResult(
      Matches([r1], index, keyOf, cols, name1, false),
      Mismatches([r1], index, keyOf, cols, name1, false),
      UniqueToFirst([r1], index, keyOf, cols, name1),
      UniqueToSecond([r2], KeySet([r1], keyOf), keyOf, name2));
  }

  lemma ValidSingleton(r: Row, cols: seq<string>)
    requires IsValidRow(r, cols)
    ensures ValidRows([r], cols) == [r]
  {
    assert [r][..0] == [];
  }

  /** A falsy cell and a missing cell give the same key segment but different
      `String` texts, so the pair is reported as a mismatch. */
  lemma FalsyCellMismatch()
    ensures var r1 := Row(["id", "x"], map["id" := Str("1"), "x" := Str("")]);
            var r2 := Row(["id"], map["id" := Str("1")]);
            Compare([r1], [r2], ["id", "x"], "a", "b")
              == ComparisonResult([], [Tagged(r1, "a", Some(["x"]), None)], [], [])
  {
    var r1 := Row(["id", "x"], map["id" := Str("1"), "x" := Str("")]);
    var r2 := Row(["id"], map["id" := Str("1")]);
    var cols := ["id", "x"];
    assert KeyParts(r1, cols) == ["1", ""];
    assert KeyParts(r2, cols) == ["1", ""];
    assert CreateKey(r1, cols) == CreateKey(r2, cols);
    assert "1"[0] == '1' && !IsWhitespace('1');
    assert HasContent(ToStrOrEmpty(Get(r1, cols[0])));
    assert HasContent(ToStrOrEmpty(Get(r2, cols[0])));
    assert cols[..1] == ["id"];
    assert Differences(r1, r2, cols) == ["x"];
    CompareOnePair(r1, r2, cols, "a", "b");
  }

  /** A "|" inside a value makes different column values produce the same
      key: whatever the texts a, b and c, the rows {A: "a|b", B: "c"} and
      {A: "a", B: "b|c"} share a key and differ on both columns. */
  lemma SeparatorInValueCollides(colA: string, colB: string, a: string, b: string, c: string)
    requires colA != colB
    ensures var r1 := Row([colA, colB], map[colA := Str(a + "|" + b), colB := Str(c)]);
            var r2 := Row([colA, colB], map[colA := Str(a), colB := Str(b + "|" + c)]);
            && CreateKey(r1, [colA, colB]) == CreateKey(r2, [colA, colB])
            && Differences(r1, r2, [colA, colB]) == [colA, colB]
  {
    var r1 := Row([colA, colB], map[colA := Str(a + "|" + b), colB := Str(c)]);
    var r2 := Row([colA, colB], map[colA := Str(a), colB := Str(b + "|" + c)]);
    var cols := [colA, colB];
    assert KeyParts(r1, cols) == [a + "|" + b, c];
    assert KeyParts(r2, cols) == [a, b + "|" + c];
    assert [a + "|" + b, c][1..] == [c] && [a, b + "|" + c][1..] == [b + "|" + c];
    assert Join([c], "|") == c && Join([b + "|" + c], "|") == b + "|" + c;
    assert Join([a + "|" + b, c], "|") == (a + "|" + b) + "|" + Join([c], "|");
    assert Join([a, b + "|" + c], "|") == a + "|" + Join([b + "|" + c], "|");
    assert CreateKey(r1, cols) == (a + "|" + b) + "|" + c;
    assert CreateKey(r2, cols) == a + "|" + (b + "|" + c);
    assert |a + "|" + b| != |a| && |b + "|" + c| != |c|;
    assert cols[..1] == [colA];
  }

  /** The smallest such pair: a mismatch on both columns. */
  lemma SeparatorCollisionMismatch()
    ensures var r1 := Row(["a", "b"], map["a" := Str("x|y"), "b" := Str("z")]);
            var r2 := Row(["a", "b"], map["a" := Str("x"), "b" := Str("y|z")]);
            Compare([r1], [r2], ["a", "b"], "f1", "f2")
              == ComparisonResult([], [Tagged(r1, "f1", Some(["a", "b"]), None)], [], [])
  {
    var r1 := Row(["a", "b"], map["a" := Str("x|y"), "b" := Str("z")]);
    var r2 := Row(["a", "b"], map["a" := Str("x"), "b" := Str("y|z")]);
    var cols := ["a", "b"];
    assert "x" + "|" + "y" == "x|y" && "y" + "|" + "z" == "y|z";
    SeparatorInValueCollides("a", "b", "x", "y", "z");
    assert IsValidRow(r1, cols) by {
      assert ToStrOrEmpty(Get(r1, cols[0])) == "x|y";
      assert !IsWhitespace("x|y"[0]) && "x|y"[0] != '|';
    }
    assert IsValidRow(r2, cols) by {
      assert ToStrOrEmpty(Get(r2, cols[0])) == "x";
      assert !IsWhitespace("x"[0]) && "x"[0] != '|';
    }
    CompareOnePair(r1, r2, cols, "f1", "f2");
  }

  /** `Object.keys(data1[0]).filter(col => Object.keys(data2[0]).includes(col))`,
      or nothing when a dataset is empty. */
  function CommonColumns(data1: seq<Row>, data2: seq<Row>): (common: seq<string>)
    ensures data1 == [] || data2 == [] ==> common == []
    ensures data1 != [] && data2 != [] ==>
      (forall c :: c in common <==> c in data1[0].keys && c in data2[0].keys)
      && IsSubsequence(common, data1[0].keys)
  {
    if data1 == [] || data2 == [] then [] else KeptIn(data1[0].keys, data2[0].keys)
  }

  /** The elements of s that also occur in t, in the order of s. */
  function KeptIn(s: seq<string>, t: seq<string>): (r: seq<string>)
    ensures forall c :: c in r <==> c in s && c in t
    ensures IsSubsequence(r, s)
  {
    if s == [] then []
    else
      var init := s[..|s| - 1];
      var x := s[|s| - 1];
      assert s == init + [x];
      var r0 := KeptIn(init, t);
      if x in t then
        assert (r0 + [x])[..|r0|] == r0;
        r0 + [x]
      else
        SubsequenceOfPrefix(r0, s);
        r0
  }

  /** Clicking a column badge: a selected column is removed, any other is
      appended. */
  function ToggleColumn(selected: seq<string>, col: string): (r: seq<string>)
    ensures col in selected ==> col !in r && forall c :: c != col ==> (c in r <==> c in selected)
    ensures col in selected ==> IsSubsequence(r, selected) && multiset(r) == multiset(selected)[col := 0]
    ensures col !in selected ==> r == selected + [col]
    ensures Distinct(selected) ==> Distinct(r)
  {
    if col in selected then Remove(selected, col)
    else
      assert Distinct(selected) ==> Distinct(selected + [col]) by {
        if Distinct(selected) {
          forall i, j | 0 <= i < j < |selected| + 1 ensures (selected + [col])[i] != (selected + [col])[j] {
            if j == |selected| { assert selected[i] in selected; }
          }
        }
      }
      selected + [col]
  }

  /** Selecting an unselected column and clicking it again restores the
      selection. */
  lemma ToggleTwice(selected: seq<string>, col: string)
    requires col !in selected
    ensures ToggleColumn(ToggleColumn(selected, col), col) == selected
  {
    RemoveSnoc(selected, col, col);
  }
}

// The comparator run in the background worker. It reads key columns by
// position: for each selected column, its index among the keys of each
// dataset's first row is looked up once. A row's key is then the
// `(Object.values(row)[idx] || '') + '|'` of every column found, and columns
// missing from a dataset's first row contribute nothing. No row is filtered
// out. Matched and mismatched rows carry their partner row.

module ComparisonWorker {

  import opened Strings
  import opened JsValues
  import opened Rows
  import opened HashJoin
  import DataComparison

  /** `{ col, idx1, idx2 }`: the column's position in each dataset's first row. */
  datatype ColIndex = ColIndex(col: string, idx1: int, idx2: int)

  /** The position of col among the keys of the first row, or -1. */
  function FirstRowIndex(data: seq<Row>, col: string): (i: int)
    ensures -1 <= i
    ensures i == -1 <==> data == [] || col !in data[0].keys
    ensures i >= 0 ==> i < |data[0].keys| && data[0].keys[i] == col
  {
    if |data| > 0 then IndexOf(data[0].keys, col) else -1
  }

  /** `colIndices`. */
  function ColIndices(data1: seq<Row>, data2: seq<Row>, cols: seq<string>): (ci: seq<ColIndex>)
    ensures |ci| == |cols|
    ensures forall i :: 0 <= i < |cols| ==>
      ci[i].col == cols[i] && ci[i].idx1 == FirstRowIndex(data1, cols[i]) && ci[i].idx2 == FirstRowIndex(data2, cols[i])
  {
    seq(|cols|, i requires 0 <= i < |cols| => ColIndex(cols[i], FirstRowIndex(data1, cols[i]), FirstRowIndex(data2, cols[i])))
  }

  function Idx(c: ColIndex, isData1: bool): int {
    if isData1 then c.idx1 else c.idx2
  }

  /** What one column adds to the key. */
  function Segment(row: Row, c: ColIndex, isData1: bool): string {
    if Idx(c, isData1) >= 0 then ToStrOrEmpty(ValueAt(row, Idx(c, isData1))) + "|" else ""
  }

  /** The key the worker's `createKey` builds. */
  function KeyText(row: Row, ci: seq<ColIndex>, isData1: bool): string {
    if ci == [] then ""
    else KeyText(row, ci[..|ci| - 1], isData1) + Segment(row, ci[|ci| - 1], isData1)
  }

  function KeyOf(ci: seq<ColIndex>, isData1: bool): Row -> string {
    row => KeyText(row, ci, isData1)
  }

  /** `createKey(row, isData1)`. */
  method CreateKey(row: Row, ci: seq<ColIndex>, isData1: bool) returns (key: string)
    ensures key == KeyText(row, ci, isData1)
  {
    key := "";
    for i := 0 to |ci|
      invariant key == KeyText(row, ci[..i], isData1)
    {
      assert ci[..i + 1][..i] == ci[..i];
      var idx := if isData1 then ci[i].idx1 else ci[i].idx2;
      if idx >= 0 {
        key := key + ToStrOrEmpty(ValueAt(row, idx)) + "|";
      }
    }
    assert ci[..|ci|] == ci;
  }

  /** A key is empty exactly when no selected column was found in the
      dataset's first row; otherwise it ends with "|". */
  lemma {:induction false} KeyTextShape(row: Row, ci: seq<ColIndex>, isData1: bool)
    ensures KeyText(row, ci, isData1) == "" <==> forall i :: 0 <= i < |ci| ==> Idx(ci[i], isData1) < 0
    ensures KeyText(row, ci, isData1) != "" ==> KeyText(row, ci, isData1)[|KeyText(row, ci, isData1)| - 1] == '|'
  {
    if ci != [] {
      var init := ci[..|ci| - 1];
      KeyTextShape(row, init, isData1);
      assert forall i :: 0 <= i < |init| ==> init[i] == ci[i];
    }
  }

  /** What the worker posts back as `result`. */
  function WorkerCompare(data1: seq<Row>, data2: seq<Row>, cols: seq<string>, name1: string, name2: string): ComparisonResult {
    var ci := ColIndices(data1, data2, cols);
    var key1 := KeyOf(ci, true);
    var key2 := KeyOf(ci, false);
    var index := IndexBy(data2, key2);
    ComparisonResult(
      Matches(data1, index, key1, cols, name1, true),
      Mismatches(data1, index, key1, cols, name1, true),
      UniqueToFirst(data1, index, key1, cols, name1),
      UniqueToSecond(data2, KeySet(data1, key1), key2, name2))
  }

  /** The message handler: the build loop, the probe loop and the second pass. */
  method OnMessage(data1: seq<Row>, data2: seq<Row>, cols: seq<string>, name1: string, name2: string)
    returns (result: ComparisonResult)
    ensures result == WorkerCompare(data1, data2, cols, name1, name2)
  {
    var ci := ColIndices(data1, data2, cols);
    var data2Map := BuildLookup(data2, ci);
    var matches, mismatches, uniqueToFirst, data1Keys := Probe(data1, data2Map, ci, cols, name1);
    var uniqueToSecond := CollectUnseen(data2, data1Keys, ci, name2);
    result := ComparisonResult(matches, mismatches, uniqueToFirst, uniqueToSecond);
  }

  method BuildLookup(data2: seq<Row>, ci: seq<ColIndex>) returns (data2Map: map<string, Row>)
    ensures data2Map == IndexBy(data2, KeyOf(ci, false))
  {
    data2Map := map[];
    for i := 0 to |data2|
      invariant data2Map == IndexBy(data2[..i], KeyOf(ci, false))
    {
      assert data2[..i + 1][..i] == data2[..i];
      var key := CreateKey(data2[i], ci, false);
      data2Map := data2Map[key := data2[i]];
    }
    assert data2[..|data2|] == data2;
  }

  method Probe(data1: seq<Row>, data2Map: map<string, Row>, ci: seq<ColIndex>, cols: seq<string>, name1: string)
    returns (matches: seq<Tagged>, mismatches: seq<Tagged>, uniqueToFirst: seq<Tagged>, data1Keys: set<string>)
    ensures matches == Matches(data1, data2Map, KeyOf(ci, true), cols, name1, true)
    ensures mismatches == Mismatches(data1, data2Map, KeyOf(ci, true), cols, name1, true)
    ensures uniqueToFirst == UniqueToFirst(data1, data2Map, KeyOf(ci, true), cols, name1)
    ensures data1Keys == KeySet(data1, KeyOf(ci, true))
  {
    var keyOf := KeyOf(ci, true);
    matches, mismatches, uniqueToFirst, data1Keys := [], [], [], {};
    for i := 0 to |data1|
      invariant matches == Matches(data1[..i], data2Map, keyOf, cols, name1, true)
      invariant mismatches == Mismatches(data1[..i], data2Map, keyOf, cols, name1, true)
      invariant uniqueToFirst == UniqueToFirst(data1[..i], data2Map, keyOf, cols, name1)
      invariant data1Keys == KeySet(data1[..i], keyOf)
    {
      var row1 := data1[i];
      assert data1[..i + 1][..i] == data1[..i];
      var key := CreateKey(row1, ci, true);
      assert keyOf(row1) == key;
      data1Keys := data1Keys + {key};
      if key in data2Map {
        var row2 := data2Map[key];
        var isMatch, differences := CompareColumns(row1, row2, cols);
        if isMatch {
          assert Classify(row1, data2Map, keyOf, cols) == Match(row2);
          matches := matches + [Tagged(row1, name1, None, Some(row2))];
        } else {
          assert Classify(row1, data2Map, keyOf, cols) == Mismatch(row2, differences);
          mismatches := mismatches + [Tagged(row1, name1, Some(differences), Some(row2))];
        }
      } else {
        assert Classify(row1, data2Map, keyOf, cols) == Unique;
        uniqueToFirst := uniqueToFirst + [Tagged(row1, name1, None, None)];
      }
    }
    assert data1[..|data1|] == data1;
  }

  method CollectUnseen(data2: seq<Row>, data1Keys: set<string>, ci: seq<ColIndex>, name2: string)
    returns (uniqueToSecond: seq<Tagged>)
    ensures uniqueToSecond == UniqueToSecond(data2, data1Keys, KeyOf(ci, false), name2)
  {
    uniqueToSecond := [];
    for i := 0 to |data2|
      invariant uniqueToSecond == UniqueToSecond(data2[..i], data1Keys, KeyOf(ci, false), name2)
    {
      assert data2[..i + 1][..i] == data2[..i];
      var row2 := data2[i];
      var key := CreateKey(row2, ci, false);
      if key !in data1Keys {
        uniqueToSecond := uniqueToSecond + [Tagged(row2, name2, None, None)];
      }
    }
    assert data2[..|data2|] == data2;
  }

  /** No row is filtered out: every row of the first dataset lands in exactly
      one of the three lists, in order. */
  lemma WorkerPartition(data1: seq<Row>, data2: seq<Row>, cols: seq<string>, name1: string, name2: string)
    ensures var c := WorkerCompare(data1, data2, cols, name1, name2);
            && multiset(Untag(c.matches)) + multiset(Untag(c.mismatches)) + multiset(Untag(c.uniqueToFirst)) == multiset(data1)
            && |c.matches| + |c.mismatches| + |c.uniqueToFirst| == |data1|
            && IsSubsequence(Untag(c.matches), data1) && IsSubsequence(Untag(c.mismatches), data1)
            && IsSubsequence(Untag(c.uniqueToFirst), data1)
  {
    var ci := ColIndices(data1, data2, cols);
    ProbePartition(data1, IndexBy(data2, KeyOf(ci, false)), KeyOf(ci, true), cols, name1, true);
  }

  /** A matched or mismatched row carries as `_match` the last row of the
      second dataset whose key equals its own. */
  lemma WorkerPartner(data1: seq<Row>, data2: seq<Row>, cols: seq<string>, name1: string, name2: string, t: Tagged)
    requires var c := WorkerCompare(data1, data2, cols, name1, name2); t in c.matches + c.mismatches
    ensures var ci := ColIndices(data1, data2, cols);
      t.row in data1 && t.partner.Some?
      && exists j :: 0 <= j < |data2| && t.partner.value == data2[j]
           && KeyText(data2[j], ci, false) == KeyText(t.row, ci, true)
           && forall i :: j < i < |data2| ==> KeyText(data2[i], ci, false) != KeyText(t.row, ci, true)
  {
    var ci := ColIndices(data1, data2, cols);
    var index := IndexBy(data2, KeyOf(ci, false));
    ProbeMembers(data1, index, KeyOf(ci, true), cols, name1, true);
    var k := KeyText(t.row, ci, true);
    assert KeyOf(ci, true)(t.row) == k;
    IndexByLastWins(data2, KeyOf(ci, false), k);
    var j :| 0 <= j < |data2| && KeyOf(ci, false)(data2[j]) == k && index[k] == data2[j]
      && forall i :: j < i < |data2| ==> KeyOf(ci, false)(data2[i]) != k;
    assert forall i :: j < i < |data2| ==> KeyText(data2[i], ci, false) != k by {
      forall i | j < i < |data2| ensures KeyText(data2[i], ci, false) != k {
        assert KeyOf(ci, false)(data2[i]) == KeyText(data2[i], ci, false);
      }
    }
  }

  /** With no column selected every key is empty: when the second dataset
      has rows, every row of the first is reported as a match, and nothing is
      unique to either side. */
  lemma NoColumnsAllMatch(data1: seq<Row>, data2: seq<Row>, name1: string, name2: string)
    requires |data1| > 0 && |data2| > 0
    ensures var c := WorkerCompare(data1, data2, [], name1, name2);
      && Untag(c.matches) == data1 && c.mismatches == [] && c.uniqueToFirst == [] && c.uniqueToSecond == []
  {
    var ci := ColIndices(data1, data2, []);
    assert ci == [];
    var key1, key2 := KeyOf(ci, true), KeyOf(ci, false);
    var index := IndexBy(data2, key2);
    IndexByLastWins(data2, key2, "");
    assert key2(data2[0]) == "";
    assert "" in index;
    forall r ensures Classify(r, index, key1, []).Match? {
      assert key1(r) == "";
    }
    MatchesRows(data1, index, key1, [], name1, true);
    MismatchesRows(data1, index, key1, [], name1, true);
    UniqueToFirstRows(data1, index, key1, [], name1);
    AllMatchBuckets(data1, index, key1);
    KeySetMembers(data1, key1, "");
    assert key1(data1[0]) == "";
    NothingUnseen(data2, KeySet(data1, key1), key2, name2);
  }

  lemma {:induction false} AllMatchBuckets(v: seq<Row>, index: map<string, Row>, key: Row -> string)
    requires forall r :: Classify(r, index, key, []).Match?
    ensures Bucketed(v, index, key, [], MatchBucket) == v
    ensures Bucketed(v, index, key, [], MismatchBucket) == []
    ensures Bucketed(v, index, key, [], UniqueBucket) == []
  {
    if v != [] {
      AllMatchBuckets(v[..|v| - 1], index, key);
      assert v == v[..|v| - 1] + [v[|v| - 1]];
    }
  }

  lemma {:induction false} NothingUnseen(v: seq<Row>, seen: set<string>, key: Row -> string, source: string)
    requires forall r :: key(r) in seen
    ensures UniqueToSecond(v, seen, key, source) == []
  {
    if v != [] {
      NothingUnseen(v[..|v| - 1], seen, key, source);
      assert key(v[|v| - 1]) in seen;
    }
  }

  /** The rows of a dataset list their keys in the order of its first row. */
  predicate SameKeyOrder(data: seq<Row>) {
    forall r :: r in data ==> r.keys == data[0].keys
  }

  /** ci holds each selected column with its index in the dataset's first row. */
  predicate IndicesFor(data: seq<Row>, ci: seq<ColIndex>, cols: seq<string>, isData1: bool) {
    && |ci| == |cols|
    && (forall i :: 0 <= i < |cols| ==> ci[i].col == cols[i] && Idx(ci[i], isData1) == FirstRowIndex(data, cols[i]))
  }

  /** The entries for the leading columns are the leading entries. */
  lemma IndicesForPrefix(data: seq<Row>, ci: seq<ColIndex>, cols: seq<string>, isData1: bool)
    requires IndicesFor(data, ci, cols, isData1) && |cols| > 0
    ensures IndicesFor(data, ci[..|ci| - 1], cols[..|cols| - 1], isData1)
  {
    var ci', cols' := ci[..|ci| - 1], cols[..|cols| - 1];
    forall i | 0 <= i < |cols'| ensures ci'[i].col == cols'[i] && Idx(ci'[i], isData1) == FirstRowIndex(data, cols'[i]) {
      assert ci'[i] == ci[i] && cols'[i] == cols[i];
    }
  }

  lemma CreateKeyOne(row: Row, cols: seq<string>)
    requires |cols| == 1
    ensures DataComparison.CreateKey(row, cols) == ToStrOrEmpty(Get(row, cols[0]))
  {
    assert DataComparison.KeyParts(row, cols) == [ToStrOrEmpty(Get(row, cols[0]))];
  }

  lemma KeyTextStep(row: Row, ci: seq<ColIndex>, isData1: bool)
    requires |ci| > 0
    ensures KeyText(row, ci, isData1) == KeyText(row, ci[..|ci| - 1], isData1) + Segment(row, ci[|ci| - 1], isData1)
  {
  }

  /** Adding one found column to both keys keeps them related. */
  lemma KeyTextExtend(row: Row, data: seq<Row>, ci: seq<ColIndex>, cols: seq<string>, isData1: bool)
    requires |data| > 0 && row.keys == data[0].keys
    requires |ci| == |cols| > 1
    requires cols[|cols| - 1] in data[0].keys
    requires Idx(ci[|ci| - 1], isData1) == FirstRowIndex(data, cols[|cols| - 1])
    requires KeyText(row, ci[..|ci| - 1], isData1) == DataComparison.CreateKey(row, cols[..|cols| - 1]) + "|"
    ensures KeyText(row, ci, isData1) == DataComparison.CreateKey(row, cols) + "|"
  {
    var n := |cols|;
    var seg := ToStrOrEmpty(Get(row, cols[n - 1]));
    SegmentFound(row, data, ci[n - 1], cols[n - 1], isData1);
    var prev := DataComparison.CreateKey(row, cols[..n - 1]);
    KeyTextStep(row, ci, isData1);
    DataComparison.CreateKeyLast(row, cols);
    BarAppend(prev, seg);
  }

  lemma BarAppend(prev: string, seg: string)
    ensures (prev + "|") + (seg + "|") == (prev + "|" + seg) + "|"
  {
  }

  /** A row whose keys come in the first row's order, with every selected
      column among them, gets the main-thread key with "|" appended. */
  lemma {:induction false} KeyTextAllFound(row: Row, data: seq<Row>, ci: seq<ColIndex>, cols: seq<string>, isData1: bool)
    requires |data| > 0 && row.keys == data[0].keys
    requires |cols| > 0 && IndicesFor(data, ci, cols, isData1)
    requires forall c :: c in cols ==> c in data[0].keys
    ensures KeyText(row, ci, isData1) == DataComparison.CreateKey(row, cols) + "|"
  {
    var n := |cols|;
    assert cols[n - 1] in cols;
    if n > 1 {
      IndicesForPrefix(data, ci, cols, isData1);
      assert forall c :: c in cols[..n - 1] ==> c in cols;
      KeyTextAllFound(row, data, ci[..n - 1], cols[..n - 1], isData1);
      assert Idx(ci[n - 1], isData1) == FirstRowIndex(data, cols[n - 1]);
      KeyTextExtend(row, data, ci, cols, isData1);
    } else {
      SegmentFound(row, data, ci[0], cols[0], isData1);
      KeyTextStep(row, ci, isData1);
      assert ci[..0] == [];
      CreateKeyOne(row, cols);
    }
  }

  /** A column found in the first row is read by position from a row that
      lists its keys in the same order. */
  lemma SegmentFound(row: Row, data: seq<Row>, c: ColIndex, col: string, isData1: bool)
    requires |data| > 0 && row.keys == data[0].keys && col in data[0].keys
    requires Idx(c, isData1) == FirstRowIndex(data, col)
    ensures Segment(row, c, isData1) == ToStrOrEmpty(Get(row, col)) + "|"
  {
    ValueAtIndexOf(row, col);
  }

  /** When every selected column is in both first rows, every row lists its
      keys in its dataset's first-row order, and every row passes the
      main-thread validity filter, the worker and the main thread produce
      the same lists, up to the `_match` partner the worker adds. */
  lemma WorkerAgreesWithMain(data1: seq<Row>, data2: seq<Row>, cols: seq<string>, name1: string, name2: string)
    requires |cols| > 0 && |data1| > 0 && |data2| > 0
    requires forall c :: c in cols ==> c in data1[0].keys && c in data2[0].keys
    requires SameKeyOrder(data1) && SameKeyOrder(data2)
    requires forall r :: r in data1 + data2 ==> DataComparison.IsValidRow(r, cols)
    ensures var w := WorkerCompare(data1, data2, cols, name1, name2);
            var m := DataComparison.Compare(data1, data2, cols, name1, name2);
            && WithoutPartner(w.matches) == m.matches
            && WithoutPartner(w.mismatches) == m.mismatches
            && w.uniqueToFirst == m.uniqueToFirst
            && w.uniqueToSecond == m.uniqueToSecond
  {
    var ci := ColIndices(data1, data2, cols);
    var key1, key2 := KeyOf(ci, true), KeyOf(ci, false);
    var mainKey := DataComparison.KeyOf(cols);
    AllValid(data1, cols);
    AllValid(data2, cols);
    assert IndicesFor(data1, ci, cols, true) && IndicesFor(data2, ci, cols, false);
    assert forall r :: r in data1 ==> key1(r) == mainKey(r) + "|" by {
      forall r | r in data1 ensures key1(r) == mainKey(r) + "|" {
        KeyTextAllFound(r, data1, ci, cols, true);
      }
    }
    assert forall r :: r in data2 ==> key2(r) == mainKey(r) + "|" by {
      forall r | r in data2 ensures key2(r) == mainKey(r) + "|" {
        KeyTextAllFound(r, data2, ci, cols, false);
      }
    }
    var indexW := IndexBy(data2, key2);
    var indexM := IndexBy(data2, mainKey);
    forall r | r in data1 ensures Classify(r, indexW, key1, cols) == Classify(r, indexM, mainKey, cols) {
      ClassifyTerminated(r, data2, mainKey, key2, key1, cols);
    }
    ProbeCongruent(data1, indexW, key1, indexM, mainKey, cols, name1, true);
    forall r | r in data2 ensures key2(r) in KeySet(data1, key1) <==> mainKey(r) in KeySet(data1, mainKey) {
      KeySetTerminated(data1, mainKey, key1, mainKey(r));
    }
    UniqueToSecondCongruent(data2, KeySet(data1, key1), key2, KeySet(data1, mainKey), mainKey, name2);
  }

  lemma {:induction false} AllValid(data: seq<Row>, cols: seq<string>)
    requires forall r :: r in data ==> DataComparison.IsValidRow(r, cols)
    ensures DataComparison.ValidRows(data, cols) == data
  {
    if data != [] {
      var init := data[..|data| - 1];
      var last := data[|data| - 1];
      assert data == init + [last];
      assert forall r :: r in init ==> r in data;
      AllValid(init, cols);
      assert last in data;
      assert DataComparison.IsValidRow(last, cols);
      assert DataComparison.ValidRows(data, cols) == DataComparison.ValidRows(init, cols) + [last];
    }
  }
}

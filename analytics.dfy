// The analytics page: the saved comparison and transform histories, the
// edits the page makes to them (hide/unhide, delete, the visible subset),
// the totals it shows, and the two frequency tables (file extensions and
// compared columns). A history is a list of records; each edit is a
// function from the old list to the new one. The frequency tables are
// filled by loops that bump a counts dictionary, as on the page, and are
// proved against the counting functions below.

module Analytics {

  import opened Strings
  import opened Rows
  import opened Sorting

  /** A saved record: its id, its `hidden` flag (a record saved without the
      flag reads as not hidden) and what it describes. */
  datatype HistoryRecord<D> = HistoryRecord(id: string, hidden: bool, details: D)

  datatype ComparisonDetails = ComparisonDetails(
    fileName1: string, fileName2: string,
    rows1: nat, rows2: nat,
    fileSize1: nat, fileSize2: nat,
    columns: seq<string>)

  datatype TransformDetails = TransformDetails(
    fileName: string, originalRows: nat, transformedRows: nat,
    operations: seq<string>)

  type ComparisonRecord = HistoryRecord<ComparisonDetails>
  type TransformRecord = HistoryRecord<TransformDetails>

  // ---------------------------------------------------------------------
  // History edits (shared by the comparison and the transform history)
  // ---------------------------------------------------------------------

  /** Hide/unhide: every record with the id has its flag flipped; nothing
      else changes. */
  function ToggleVisibility<D(!new)>(history: seq<HistoryRecord<D>>, id: string): (r: seq<HistoryRecord<D>>)
    ensures |r| == |history|
    ensures forall i :: 0 <= i < |r| ==>
      && r[i].id == history[i].id
      && r[i].details == history[i].details
      && (r[i].hidden <==> (history[i].hidden != (history[i].id == id)))
  {
    if history == [] then []
    else
      var c := history[0];
      [if c.id == id then c.(hidden := !c.hidden) else c] + ToggleVisibility(history[1..], id)
  }

  /** Hiding and unhiding the same id gives back the history. */
  lemma ToggleTwice<D(!new)>(history: seq<HistoryRecord<D>>, id: string)
    ensures ToggleVisibility(ToggleVisibility(history, id), id) == history
  {
    var r := ToggleVisibility(ToggleVisibility(history, id), id);
    assert forall i :: 0 <= i < |r| ==> r[i] == history[i];
  }

  /** A record whose id differs from the toggled one is left as it was. */
  lemma ToggleKeepsOthers<D(!new)>(history: seq<HistoryRecord<D>>, id: string, i: nat)
    requires i < |history| && history[i].id != id
    ensures ToggleVisibility(history, id)[i] == history[i]
  {
  }

  /** Delete: the records with the id go, the others stay in order. */
  function DeleteRecord<D(!new)>(history: seq<HistoryRecord<D>>, id: string): (r: seq<HistoryRecord<D>>)
    ensures |r| <= |history|
    ensures forall i :: 0 <= i < |r| ==> r[i].id != id
  {
    if history == [] then []
    else (if history[0].id == id then [] else [history[0]]) + DeleteRecord(history[1..], id)
  }

  /** How many records carry the id. */
  function CountId<D(!new)>(history: seq<HistoryRecord<D>>, id: string): nat {
    if history == [] then 0
    else (if history[0].id == id then 1 else 0) + CountId(history[1..], id)
  }

  /** Deleting removes exactly the records with the id. */
  lemma {:induction false} DeleteCount<D(!new)>(history: seq<HistoryRecord<D>>, id: string)
    ensures |DeleteRecord(history, id)| + CountId(history, id) == |history|
  {
    if history != [] {
      DeleteCount(history[1..], id);
    }
  }

  /** A record survives the delete iff its id differs. */
  lemma {:induction false} DeleteMembers<D(!new)>(history: seq<HistoryRecord<D>>, id: string, c: HistoryRecord<D>)
    ensures c in DeleteRecord(history, id) <==> c in history && c.id != id
  {
    if history != [] {
      DeleteMembers(history[1..], id, c);
      assert c in history <==> c == history[0] || c in history[1..];
    }
  }

  /** The records that survive keep their order. */
  lemma {:induction false} DeleteKeepsOrder<D(!new)>(history: seq<HistoryRecord<D>>, id: string)
    ensures IsSubsequence(DeleteRecord(history, id), history)
  {
    if history != [] {
      DeleteKeepsOrder(history[1..], id);
      var rest := DeleteRecord(history[1..], id);
      assert history == [history[0]] + history[1..];
      SubsequenceCons(rest, history[1..], history[0]);
      if history[0].id != id {
        assert DeleteRecord(history, id) == [history[0]] + rest;
      } else {
        assert DeleteRecord(history, id) == rest;
      }
    }
  }

  /** A second delete of the same id changes nothing. */
  lemma {:induction false} DeleteIdempotent<D(!new)>(history: seq<HistoryRecord<D>>, id: string)
    ensures DeleteRecord(DeleteRecord(history, id), id) == DeleteRecord(history, id)
  {
    if history != [] {
      DeleteIdempotent(history[1..], id);
      var rest := DeleteRecord(history[1..], id);
      if history[0].id != id {
        assert DeleteRecord(history, id) == [history[0]] + rest;
        assert ([history[0]] + rest)[1..] == rest;
      } else {
        assert DeleteRecord(history, id) == rest;
      }
    }
  }

  /** Hiding a record and then deleting it is the same as deleting it. */
  lemma {:induction false} DeleteAfterToggle<D(!new)>(history: seq<HistoryRecord<D>>, id: string)
    ensures DeleteRecord(ToggleVisibility(history, id), id) == DeleteRecord(history, id)
  {
    if history != [] {
      DeleteAfterToggle(history[1..], id);
      assert ToggleVisibility(history, id)[1..] == ToggleVisibility(history[1..], id);
    }
  }

  /** The records the page lists: all of them when hidden ones are shown,
      else those not hidden. */
  function Visible<D(!new)>(history: seq<HistoryRecord<D>>, showHidden: bool): (r: seq<HistoryRecord<D>>)
    ensures showHidden ==> r == history
    ensures !showHidden ==> forall i :: 0 <= i < |r| ==> !r[i].hidden
  {
    if showHidden || history == [] then history
    else (if history[0].hidden then [] else [history[0]]) + Visible(history[1..], showHidden)
  }

  /** A record is listed iff it is in the history and shown. */
  lemma {:induction false} VisibleMembers<D(!new)>(history: seq<HistoryRecord<D>>, showHidden: bool, c: HistoryRecord<D>)
    ensures c in Visible(history, showHidden) <==> c in history && (showHidden || !c.hidden)
  {
    if history != [] && !showHidden {
      VisibleMembers(history[1..], showHidden, c);
      assert c in history <==> c == history[0] || c in history[1..];
    }
  }

  /** Deleting commutes with taking the visible records. */
  lemma {:induction false} VisibleAfterDelete<D(!new)>(history: seq<HistoryRecord<D>>, id: string, showHidden: bool)
    ensures Visible(DeleteRecord(history, id), showHidden) == DeleteRecord(Visible(history, showHidden), id)
  {
    if history != [] && !showHidden {
      VisibleAfterDelete(history[1..], id, showHidden);
      var c := history[0];
      var d := DeleteRecord(history[1..], id);
      var v := Visible(history[1..], showHidden);
      if c.id != id {
        assert DeleteRecord(history, id) == [c] + d;
        assert ([c] + d)[1..] == d;
      } else {
        assert DeleteRecord(history, id) == d;
      }
      if !c.hidden {
        assert Visible(history, showHidden) == [c] + v;
        assert ([c] + v)[1..] == v;
      } else {
        assert Visible(history, showHidden) == v;
      }
    }
  }

  // ---------------------------------------------------------------------
  // Totals
  // ---------------------------------------------------------------------

  /** `reduce((sum, comp) => sum + comp.rows1 + comp.rows2, 0)`. */
  function TotalRowsProcessed(history: seq<ComparisonRecord>): (total: nat)
    ensures history == [] ==> total == 0
  {
    if history == [] then 0
    else
      var last := history[|history| - 1].details;
      TotalRowsProcessed(history[..|history| - 1]) + last.rows1 + last.rows2
  }

  /** The row total of two histories laid end to end is the sum of theirs. */
  lemma {:induction false} TotalRowsAppend(a: seq<ComparisonRecord>, b: seq<ComparisonRecord>)
    ensures TotalRowsProcessed(a + b) == TotalRowsProcessed(a) + TotalRowsProcessed(b)
    decreases |b|
  {
    if b != [] {
      var b' := b[..|b| - 1];
      assert (a + b)[..|a + b| - 1] == a + b';
      var last := b[|b| - 1].details;
      assert (a + b)[|a + b| - 1] == b[|b| - 1];
      TotalRowsAppend(a, b');
      assert TotalRowsProcessed(a + b) == TotalRowsProcessed(a + b') + last.rows1 + last.rows2;
      assert TotalRowsProcessed(b) == TotalRowsProcessed(b') + last.rows1 + last.rows2;
    } else {
      assert a + b == a;
    }
  }

  /** The row total counts every record: deleting the records with an id
      lowers it by exactly their rows. */
  lemma {:induction false} TotalRowsAfterDelete(history: seq<ComparisonRecord>, id: string)
    ensures TotalRowsProcessed(history)
         == TotalRowsProcessed(DeleteRecord(history, id)) + TotalRowsProcessed(Matching(history, id))
  {
    if history != [] {
      var c := history[0];
      var rest := history[1..];
      TotalRowsAfterDelete(rest, id);
      assert history == [c] + rest;
      TotalRowsAppend([c], rest);
      if c.id == id {
        assert Matching(history, id) == [c] + Matching(rest, id);
        TotalRowsAppend([c], Matching(rest, id));
        assert DeleteRecord(history, id) == DeleteRecord(rest, id);
      } else {
        assert DeleteRecord(history, id) == [c] + DeleteRecord(rest, id);
        TotalRowsAppend([c], DeleteRecord(rest, id));
        assert Matching(history, id) == Matching(rest, id);
      }
    }
  }

  /** The records that carry the id. */
  function Matching<D(!new)>(history: seq<HistoryRecord<D>>, id: string): (r: seq<HistoryRecord<D>>)
    ensures |r| == CountId(history, id)
  {
    if history == [] then []
    else (if history[0].id == id then [history[0]] else []) + Matching(history[1..], id)
  }

  // ---------------------------------------------------------------------
  // Frequency tables
  // ---------------------------------------------------------------------

  /** One entry of `Object.entries(counts)`. */
  datatype Entry = Entry(key: string, count: nat)

  /** A counts dictionary together with the order in which its keys were
      first set, which is the order `Object.entries` lists them in. */
  datatype Counter = Counter(keys: seq<string>, counts: map<string, nat>)

  const EmptyCounter := Counter([], map[])

  /** `counts[k] = (counts[k] || 0) + 1`. */
  function Bump(c: Counter, k: string): (r: Counter)
    ensures r.counts.Keys == c.counts.Keys + {k}
    ensures k in c.counts ==> r.keys == c.keys && r.counts[k] == c.counts[k] + 1
    ensures k !in c.counts ==> r.keys == c.keys + [k] && r.counts[k] == 1
    ensures forall j :: j in c.counts && j != k ==> r.counts[j] == c.counts[j]
  {
    Counter(if k in c.counts then c.keys else c.keys + [k], c.counts[k := CountOf(c.counts, k) + 1])
  }

  /** `counts[k] || 0`. */
  function CountOf(counts: map<string, nat>, k: string): nat {
    if k in counts then counts[k] else 0
  }

  /** The dictionary after bumping every item in turn. */
  function Tally(items: seq<string>): Counter {
    if items == [] then EmptyCounter
    else Bump(Tally(items[..|items| - 1]), items[|items| - 1])
  }

  /** How often k occurs in items. */
  function Occurrences(items: seq<string>, k: string): nat {
    if items == [] then 0
    else Occurrences(items[..|items| - 1], k) + (if items[|items| - 1] == k then 1 else 0)
  }

  lemma TallySnoc(items: seq<string>, k: string)
    ensures Tally(items + [k]) == Bump(Tally(items), k)
  {
    assert (items + [k])[..|items|] == items;
  }

  lemma OccurrencesSnoc(items: seq<string>, x: string, k: string)
    ensures Occurrences(items + [x], k) == Occurrences(items, k) + (if x == k then 1 else 0)
  {
    assert (items + [x])[..|items|] == items;
  }

  /** The dictionary's keys are exactly the items seen, each listed once,
      in the order they were first seen. */
  lemma TallyKeys(items: seq<string>)
    ensures forall k :: k in Tally(items).counts <==> k in items
    ensures forall k :: k in Tally(items).keys <==> k in Tally(items).counts
    ensures Distinct(Tally(items).keys)
  {
    TallyKeySet(items);
    TallyDistinct(items);
  }

  lemma {:induction false} TallyKeySet(items: seq<string>)
    ensures forall k :: k in Tally(items).counts <==> k in items
    ensures forall k :: k in Tally(items).keys <==> k in Tally(items).counts
  {
    if items != [] {
      var init := items[..|items| - 1];
      var x := items[|items| - 1];
      TallyKeySet(init);
      assert items == init + [x];
    }
  }

  lemma {:induction false} TallyDistinct(items: seq<string>)
    ensures Distinct(Tally(items).keys)
  {
    if items != [] {
      var init := items[..|items| - 1];
      TallyDistinct(init);
      TallyKeySet(init);
    }
  }

  /** Each key's count is its number of occurrences. */
  lemma {:induction false} TallyOccurrences(items: seq<string>, k: string)
    ensures Occurrences(items, k) == if k in Tally(items).counts then Tally(items).counts[k] else 0
  {
    if items != [] {
      var init := items[..|items| - 1];
      var x := items[|items| - 1];
      TallyOccurrences(init, k);
      assert Tally(items) == Bump(Tally(init), x);
    }
  }

  /** `Object.entries(counts)`, listing the keys in the order given. */
  function Entries(keys: seq<string>, counts: map<string, nat>): (es: seq<Entry>)
    ensures |es| == |keys|
  {
    seq(|keys|, i requires 0 <= i < |keys| => Entry(keys[i], CountOf(counts, keys[i])))
  }

  /** The sum of the counts of a list of entries. */
  function EntrySum(es: seq<Entry>): nat {
    if es == [] then 0 else EntrySum(es[..|es| - 1]) + es[|es| - 1].count
  }

  /** The sum of the counts stored under the keys. */
  function CountSum(keys: seq<string>, counts: map<string, nat>): nat {
    if keys == [] then 0 else CountSum(keys[..|keys| - 1], counts) + CountOf(counts, keys[|keys| - 1])
  }

  lemma {:induction false} EntrySumIsCountSum(keys: seq<string>, counts: map<string, nat>)
    ensures EntrySum(Entries(keys, counts)) == CountSum(keys, counts)
  {
    if keys != [] {
      var init := keys[..|keys| - 1];
      EntrySumIsCountSum(init, counts);
      assert Entries(keys, counts)[..|keys| - 1] == Entries(init, counts);
    }
  }

  lemma {:induction false} CountSumOther(keys: seq<string>, counts: map<string, nat>, k: string, v: nat)
    requires k !in keys
    ensures CountSum(keys, counts[k := v]) == CountSum(keys, counts)
  {
    if keys != [] {
      CountSumOther(keys[..|keys| - 1], counts, k, v);
    }
  }

  lemma CountSumSnoc(keys: seq<string>, counts: map<string, nat>, k: string)
    ensures CountSum(keys + [k], counts) == CountSum(keys, counts) + CountOf(counts, k)
  {
    assert (keys + [k])[..|keys|] == keys;
  }

  /** Bumping a key listed once raises the sum of the counts by one. */
  lemma {:induction false} CountSumBump(keys: seq<string>, counts: map<string, nat>, k: string)
    requires Distinct(keys) && k in keys
    ensures CountSum(keys, counts[k := CountOf(counts, k) + 1]) == CountSum(keys, counts) + 1
  {
    var init := keys[..|keys| - 1];
    var last := keys[|keys| - 1];
    assert keys == init + [last];
    if last == k {
      CountSumOther(init, counts, k, CountOf(counts, k) + 1);
    } else {
      CountSumBump(init, counts, k);
    }
  }

  /** One bump raises the sum of the counts by one. */
  lemma CountSumAfterBump(c: Counter, x: string)
    requires Distinct(c.keys) && forall k :: k in c.keys <==> k in c.counts
    ensures CountSum(Bump(c, x).keys, Bump(c, x).counts) == CountSum(c.keys, c.counts) + 1
  {
    if x in c.counts {
      CountSumBump(c.keys, c.counts, x);
    } else {
      CountSumSnoc(c.keys, c.counts[x := 1], x);
      CountSumOther(c.keys, c.counts, x, 1);
    }
  }

  /** The counts add up to the number of items. */
  lemma {:induction false} TallySum(items: seq<string>)
    ensures CountSum(Tally(items).keys, Tally(items).counts) == |items|
  {
    if items != [] {
      var init := items[..|items| - 1];
      TallySum(init);
      TallyKeys(init);
      CountSumAfterBump(Tally(init), items[|items| - 1]);
    }
  }

  /** `Object.entries` of the dictionary after bumping every item. */
  function Table(items: seq<string>): seq<Entry> {
    Entries(Tally(items).keys, Tally(items).counts)
  }

  /** The comparator `([, a], [, b]) => b - a`: a may stay in front of b
      when its count is not smaller. */
  function ByCountDesc(): (le: (Entry, Entry) -> bool)
    ensures forall a, b :: le(a, b) <==> a.count >= b.count
  {
    (a: Entry, b: Entry) => a.count >= b.count
  }

  function Min(a: nat, b: nat): nat {
    if a <= b then a else b
  }

  /** `entries.sort(byCountDesc).slice(0, limit)`. */
  function TopEntries(es: seq<Entry>, limit: nat): (r: seq<Entry>)
    ensures |r| == Min(limit, |es|)
  {
    var sorted := SortBy(es, ByCountDesc());
    sorted[..Min(limit, |sorted|)]
  }

  /** The top entries are the largest counts, largest first: every entry
      left out has a count no larger than any kept, and nothing is
      invented. */
  lemma TopEntriesLargest(es: seq<Entry>, limit: nat)
    ensures var r := TopEntries(es, limit);
      && (forall i, j :: 0 <= i < j < |r| ==> r[i].count >= r[j].count)
      && multiset(r) <= multiset(es)
      && (forall e, x :: e in es && e !in r && x in r ==> x.count >= e.count)
  {
    var le := ByCountDesc();
    var sorted := SortBy(es, le);
    var m := Min(limit, |sorted|);
    ByCountDescConsistent(es);
    SortBySorted(es, le);
    SortedByCount(sorted);
    PrefixDominates(sorted, m);
    assert forall e :: e in es ==> e in sorted by {
      forall e | e in es ensures e in sorted {
        assert e in multiset(es);
      }
    }
  }

  /** Sorted by the count comparator means counts never grow. */
  lemma SortedByCount(s: seq<Entry>)
    requires SortedBy(s, ByCountDesc())
    ensures forall i, j :: 0 <= i < j < |s| ==> s[i].count >= s[j].count
  {
    forall i, j | 0 <= i < j < |s| ensures s[i].count >= s[j].count {
      assert ByCountDesc()(s[i], s[j]);
    }
  }

  /** In a list of falling counts, a prefix holds the largest ones. */
  lemma PrefixDominates(s: seq<Entry>, m: nat)
    requires m <= |s|
    requires forall i, j :: 0 <= i < j < |s| ==> s[i].count >= s[j].count
    ensures forall i, j :: 0 <= i < j < |s[..m]| ==> s[..m][i].count >= s[..m][j].count
    ensures multiset(s[..m]) <= multiset(s)
    ensures forall e, x :: e in s && e !in s[..m] && x in s[..m] ==> x.count >= e.count
  {
    var r := s[..m];
    assert s == r + s[m..];
    assert multiset(s) == multiset(r) + multiset(s[m..]);
    forall e, x | e in s && e !in r && x in r
      ensures x.count >= e.count
    {
      var j :| 0 <= j < |s| && s[j] == e;
      var i :| 0 <= i < m && r[i] == x;
      assert j >= m;
    }
  }

  /** Entries with equal counts keep the order `Object.entries` listed
      them in. */
  lemma TopEntriesStable(es: seq<Entry>, x: Entry)
    ensures TiedWith(SortBy(es, ByCountDesc()), x, ByCountDesc()) == TiedWith(es, x, ByCountDesc())
  {
    ByCountDescConsistent(es + [x]);
    SortByStable(es, x, ByCountDesc());
  }

  /** Comparing counts is a total preorder. */
  lemma ByCountDescConsistent(es: seq<Entry>)
    ensures TotalPreorderOn(es, ByCountDesc())
  {
  }

  /** `fileName.split('.').pop()?.toLowerCase() || 'unknown'`. */
  function Extension(fileName: string): (ext: string)
    ensures ext != ""
  {
    var piece := ToLower(LastPiece(fileName, '.'));
    if piece == "" then "unknown" else piece
  }

  /** The extension is the text after the last dot (or the whole name when
      there is none), lower-cased; it is "unknown" exactly when that text is
      empty. */
  lemma ExtensionAfterLastDot(fileName: string, k: nat)
    requires k <= |fileName| && '.' !in fileName[k..] && (k == 0 || fileName[k - 1] == '.')
    ensures Extension(fileName) == if k == |fileName| then "unknown" else ToLower(fileName[k..])
  {
    var p := LastPiece(fileName, '.');
    LastPieceIsTail(fileName, '.');
  }

  /** The two extensions of every comparison, in history order. */
  function Extensions(history: seq<ComparisonRecord>): (exts: seq<string>)
    ensures |exts| == 2 * |history|
  {
    if history == [] then []
    else
      var last := history[|history| - 1].details;
      Extensions(history[..|history| - 1]) + [Extension(last.fileName1), Extension(last.fileName2)]
  }

  /** Every comparison's columns, in history order. */
  function ColumnList(history: seq<ComparisonRecord>): seq<string> {
    if history == [] then []
    else ColumnList(history[..|history| - 1]) + history[|history| - 1].details.columns
  }

  /** The file-type table before it is sorted and cut. */
  function FileTypeCounts(history: seq<ComparisonRecord>): seq<Entry> {
    Table(Extensions(history))
  }

  /** The column table before it is sorted and cut. */
  function ColumnCounts(history: seq<ComparisonRecord>): seq<Entry> {
    Table(ColumnList(history))
  }

  /** The entries of a tally: one per distinct item, each with its number
      of occurrences, and the counts add up to the number of items. */
  lemma TallyEntries(items: seq<string>)
    ensures var es := Table(items);
      && (forall i :: 0 <= i < |es| ==> es[i].key in items && es[i].count == Occurrences(items, es[i].key) >= 1)
      && (forall x :: x in items ==> exists i :: 0 <= i < |es| && es[i].key == x)
      && (forall i, j :: 0 <= i < j < |es| ==> es[i].key != es[j].key)
      && EntrySum(es) == |items|
  {
    var c := Tally(items);
    TallyKeys(items);
    TallySum(items);
    EntrySumIsCountSum(c.keys, c.counts);
    TallyEntriesCounted(items);
    TallyEntriesCover(items);
  }

  lemma TallyEntriesCounted(items: seq<string>)
    ensures var es := Table(items);
      forall i :: 0 <= i < |es| ==> es[i].key in items && es[i].count == Occurrences(items, es[i].key) >= 1
  {
    var c := Tally(items);
    var es := Entries(c.keys, c.counts);
    TallyKeys(items);
    forall i | 0 <= i < |es|
      ensures es[i].key in items && es[i].count == Occurrences(items, es[i].key) >= 1
    {
      TallyOccurrences(items, c.keys[i]);
      OccursPositive(items, c.keys[i]);
    }
  }

  lemma TallyEntriesCover(items: seq<string>)
    ensures var es := Table(items);
      forall x :: x in items ==> exists i :: 0 <= i < |es| && es[i].key == x
  {
    var c := Tally(items);
    var es := Entries(c.keys, c.counts);
    assert Table(items) == es;
    TallyKeys(items);
    forall x | x in items
      ensures exists i :: 0 <= i < |es| && es[i].key == x
    {
      assert x in c.keys;
      var i :| 0 <= i < |c.keys| && c.keys[i] == x;
      assert es[i].key == x;
    }
  }

  /** `getFileTypes`: each comparison adds its two extensions; the table
      lists each extension once with its number of occurrences, and the
      counts add up to twice the number of comparisons. */
  lemma FileTypesCounted(history: seq<ComparisonRecord>)
    ensures var es := FileTypeCounts(history);
      && (forall i :: 0 <= i < |es| ==> es[i].count == Occurrences(Extensions(history), es[i].key) >= 1)
      && (forall i, j :: 0 <= i < j < |es| ==> es[i].key != es[j].key)
      && EntrySum(es) == 2 * |history|
  {
    TallyEntries(Extensions(history));
  }

  /** `getMostComparedColumns`: each column of each comparison is listed
      once with its number of occurrences over all comparisons. */
  lemma ColumnsCounted(history: seq<ComparisonRecord>)
    ensures var es := ColumnCounts(history);
      && (forall i :: 0 <= i < |es| ==> es[i].count == Occurrences(ColumnList(history), es[i].key) >= 1)
      && (forall i, j :: 0 <= i < j < |es| ==> es[i].key != es[j].key)
      && (forall col :: col in ColumnList(history) ==> exists i :: 0 <= i < |es| && es[i].key == col)
  {
    var items := ColumnList(history);
    assert ColumnCounts(history) == Table(items);
    TallyEntries(items);
  }

  lemma {:induction false} OccursPositive(items: seq<string>, k: string)
    requires k in items
    ensures Occurrences(items, k) >= 1
  {
    var init := items[..|items| - 1];
    if items[|items| - 1] != k {
      assert items == init + [items[|items| - 1]];
      OccursPositive(init, k);
    }
  }

  lemma TallyExtensionsStep(history: seq<ComparisonRecord>, i: nat)
    requires i < |history|
    ensures Tally(Extensions(history[..i + 1]))
         == Bump(Bump(Tally(Extensions(history[..i])), Extension(history[i].details.fileName1)),
                 Extension(history[i].details.fileName2))
  {
    var h := history[..i + 1];
    var e := Extensions(history[..i]);
    var ext1 := Extension(history[i].details.fileName1);
    var ext2 := Extension(history[i].details.fileName2);
    assert h[..|h| - 1] == history[..i] && h[|h| - 1] == history[i];
    assert Extensions(h) == e + [ext1, ext2];
    assert e + [ext1, ext2] == (e + [ext1]) + [ext2];
    TallySnoc(e, ext1);
    TallySnoc(e + [ext1], ext2);
  }

  lemma AppendSlice<T>(a: seq<T>, s: seq<T>, j: nat)
    requires j < |s|
    ensures a + s[..j + 1] == a + s[..j] + [s[j]]
  {
    assert s[..j + 1] == s[..j] + [s[j]];
  }

  /** `getFileTypes`: bump the two extensions of each comparison, then sort
      by count, largest first, and keep five. */
  method GetFileTypes(history: seq<ComparisonRecord>) returns (top: seq<Entry>)
    ensures top == TopEntries(FileTypeCounts(history), 5)
  {
    var types := EmptyCounter;
    for i := 0 to |history|
      invariant types == Tally(Extensions(history[..i]))
    {
      var comp := history[i].details;
      var ext1 := Extension(comp.fileName1);
      var ext2 := Extension(comp.fileName2);
      TallyExtensionsStep(history, i);
      types := Bump(types, ext1);
      types := Bump(types, ext2);
    }
    assert history[..|history|] == history;
    top := TopEntries(Entries(types.keys, types.counts), 5);
  }

  /** `getMostComparedColumns`: bump every column of every comparison, then
      sort by count, largest first, and keep ten. */
  method GetMostComparedColumns(history: seq<ComparisonRecord>) returns (top: seq<Entry>)
    ensures top == TopEntries(ColumnCounts(history), 10)
  {
    var columns := EmptyCounter;
    for i := 0 to |history|
      invariant columns == Tally(ColumnList(history[..i]))
    {
      var cols := history[i].details.columns;
      assert ColumnList(history[..i]) + cols[..0] == ColumnList(history[..i]);
      for j := 0 to |cols|
        invariant columns == Tally(ColumnList(history[..i]) + cols[..j])
      {
        TallySnoc(ColumnList(history[..i]) + cols[..j], cols[j]);
        AppendSlice(ColumnList(history[..i]), cols, j);
        columns := Bump(columns, cols[j]);
      }
      assert history[..i + 1][..i] == history[..i];
      assert cols[..|cols|] == cols;
    }
    assert history[..|history|] == history;
    top := TopEntries(Entries(columns.keys, columns.counts), 10);
  }
}

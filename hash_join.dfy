// The hash join both comparator versions perform, stated once: index the
// second dataset by composite key (a later row with the same key replaces an
// earlier one), probe the index with each row of the first dataset, compare
// the partner rows column by column under `String` coercion, and finally
// collect the second dataset's rows whose key the first dataset never
// produced. The versions differ in how they build the key, in which rows
// they feed in, and in whether they attach the partner row; those are the
// parameters here.

module HashJoin {

  import opened JsValues
  import opened Rows

  /** A result row: the original row spread into a new object with
      `_source` set; mismatches also carry `_differences`, and the worker
      version adds the partner row as `_match`. */
  datatype Tagged = Tagged(row: Row, source: string, differences: Option<seq<string>>, partner: Option<Row>)

  datatype ComparisonResult = ComparisonResult(
    matches: seq<Tagged>,
    mismatches: seq<Tagged>,
    uniqueToFirst: seq<Tagged>,
    uniqueToSecond: seq<Tagged>)

  const EmptyResult := ComparisonResult([], [], [], [])

  /** The lookup map the build loop fills: `map.set(key(row), row)` for each
      row in order. */
  function IndexBy(rows: seq<Row>, keyOf: Row -> string): map<string, Row> {
    if rows == [] then map[]
    else
      var last := rows[|rows| - 1];
      IndexBy(rows[..|rows| - 1], keyOf)[keyOf(last) := last]
  }

  /** The set of keys the rows produce (the `data1Keys` set). */
  function KeySet(rows: seq<Row>, keyOf: Row -> string): set<string> {
    if rows == [] then {} else KeySet(rows[..|rows| - 1], keyOf) + {keyOf(rows[|rows| - 1])}
  }

  lemma {:induction false} KeySetMembers(rows: seq<Row>, keyOf: Row -> string, k: string)
    ensures k in KeySet(rows, keyOf) <==> exists i :: 0 <= i < |rows| && keyOf(rows[i]) == k
  {
    if rows != [] {
      var init := rows[..|rows| - 1];
      KeySetMembers(init, keyOf, k);
      assert forall i :: 0 <= i < |init| ==> init[i] == rows[i];
    }
  }

  /** Duplicate keys resolve last-write-wins: a key is in the index exactly
      when some row produces it, and it maps to the last such row. */
  lemma IndexByLastWins(rows: seq<Row>, keyOf: Row -> string, k: string)
    ensures k in IndexBy(rows, keyOf) <==> exists i :: 0 <= i < |rows| && keyOf(rows[i]) == k
    ensures k in IndexBy(rows, keyOf) ==>
      exists j :: (0 <= j < |rows| && keyOf(rows[j]) == k && IndexBy(rows, keyOf)[k] == rows[j]
        && forall i :: j < i < |rows| ==> keyOf(rows[i]) != k)
  {
    IndexByKeys(rows, keyOf, k);
    if k in IndexBy(rows, keyOf) {
      IndexByLast(rows, keyOf, k);
    }
  }

  lemma {:induction false} IndexByKeys(rows: seq<Row>, keyOf: Row -> string, k: string)
    ensures k in IndexBy(rows, keyOf) <==> exists i :: 0 <= i < |rows| && keyOf(rows[i]) == k
  {
    if rows != [] {
      var init := rows[..|rows| - 1];
      var last := rows[|rows| - 1];
      assert IndexBy(rows, keyOf) == IndexBy(init, keyOf)[keyOf(last) := last];
      IndexByKeys(init, keyOf, k);
      assert forall i :: 0 <= i < |init| ==> init[i] == rows[i];
    }
  }

  lemma {:induction false} IndexByLast(rows: seq<Row>, keyOf: Row -> string, k: string)
    requires k in IndexBy(rows, keyOf)
    ensures exists j :: (0 <= j < |rows| && keyOf(rows[j]) == k && IndexBy(rows, keyOf)[k] == rows[j]
      && forall i :: j < i < |rows| ==> keyOf(rows[i]) != k)
  {
    var init := rows[..|rows| - 1];
    var last := rows[|rows| - 1];
    var n := |rows| - 1;
    assert IndexBy(rows, keyOf) == IndexBy(init, keyOf)[keyOf(last) := last];
    if keyOf(last) == k {
      assert keyOf(rows[n]) == k && IndexBy(rows, keyOf)[k] == rows[n];
    } else {
      IndexByLast(init, keyOf, k);
      var j :| (0 <= j < |init| && keyOf(init[j]) == k && IndexBy(init, keyOf)[k] == init[j]
        && forall i :: j < i < |init| ==> keyOf(init[i]) != k);
      assert forall i :: j < i < |rows| ==> keyOf(rows[i]) != k by {
        forall i | j < i < |rows| ensures keyOf(rows[i]) != k {
          if i < n { assert rows[i] == init[i]; }
        }
      }
      assert keyOf(rows[j]) == k && IndexBy(rows, keyOf)[k] == rows[j];
    }
  }

  /** `String(row1[col]) !== String(row2[col])`. */
  predicate Differs(r1: Row, r2: Row, col: string) {
    ToStr(Get(r1, col)) != ToStr(Get(r2, col))
  }

  /** The compared columns, in order, on which the rows differ. */
  function Differences(r1: Row, r2: Row, cols: seq<string>): (d: seq<string>)
    ensures forall c :: c in d <==> c in cols && Differs(r1, r2, c)
    ensures |d| <= |cols|
  {
    if cols == [] then []
    else
      var c := cols[|cols| - 1];
      assert cols == cols[..|cols| - 1] + [c];
      Differences(r1, r2, cols[..|cols| - 1]) + (if Differs(r1, r2, c) then [c] else [])
  }

  /** The differences keep the order of the compared columns. */
  lemma {:induction false} DifferencesInOrder(r1: Row, r2: Row, cols: seq<string>)
    ensures IsSubsequence(Differences(r1, r2, cols), cols)
  {
    if cols != [] {
      var init := cols[..|cols| - 1];
      DifferencesInOrder(r1, r2, init);
      if Differs(r1, r2, cols[|cols| - 1]) {
        var d := Differences(r1, r2, cols);
        assert d[..|d| - 1] == Differences(r1, r2, init);
      } else {
        assert Differences(r1, r2, cols) == Differences(r1, r2, init);
        SubsequenceOfPrefix(Differences(r1, r2, init), cols);
      }
    }
  }

  /** The inner loop: the compared columns on which the rows' `String`
      texts differ, and whether there are none. */
  method CompareColumns(row1: Row, row2: Row, cols: seq<string>) returns (isMatch: bool, differences: seq<string>)
    ensures differences == Differences(row1, row2, cols)
    ensures isMatch <==> forall c :: c in cols ==> ToStr(Get(row1, c)) == ToStr(Get(row2, c))
  {
    isMatch := true;
    differences := [];
    for j := 0 to |cols|
      invariant differences == Differences(row1, row2, cols[..j])
      invariant isMatch <==> differences == []
    {
      assert cols[..j + 1][..j] == cols[..j];
      if ToStr(Get(row1, cols[j])) != ToStr(Get(row2, cols[j])) {
        isMatch := false;
        differences := differences + [cols[j]];
      }
    }
    assert cols[..|cols|] == cols;
    assert differences != [] ==> differences[0] in differences;
  }

  /** Where a row of the first dataset goes. */
  datatype Outcome = Unique | Match(partner: Row) | Mismatch(partner: Row, diffs: seq<string>)

  /** The probe: look the key up; if a partner exists, compare the columns. */
  function Classify(r1: Row, index: map<string, Row>, keyOf: Row -> string, cols: seq<string>): (o: Outcome)
    ensures o.Unique? <==> keyOf(r1) !in index
    ensures o.Match? ==> o.partner == index[keyOf(r1)] && forall c :: c in cols ==> !Differs(r1, o.partner, c)
    ensures o.Mismatch? ==>
      && o.partner == index[keyOf(r1)] && o.diffs != []
      && forall c :: c in o.diffs <==> c in cols && Differs(r1, o.partner, c)
    ensures keyOf(r1) in index ==> (o.Match? <==> forall c :: c in cols ==> !Differs(r1, index[keyOf(r1)], c))
  {
    var key := keyOf(r1);
    if key !in index then Unique
    else
      var r2 := index[key];
      var d := Differences(r1, r2, cols);
      assert d != [] ==> d[0] in d;
      if d == [] then Match(r2) else Mismatch(r2, d)
  }

  function PartnerTag(attach: bool, p: Row): Option<Row> {
    if attach then Some(p) else None
  }

  /** The rows of v that find an equal partner, tagged. */
  function Matches(v: seq<Row>, index: map<string, Row>, keyOf: Row -> string, cols: seq<string>,
                   source: string, attach: bool): seq<Tagged>
  {
    if v == [] then []
    else
      var r := v[|v| - 1];
      var init := Matches(v[..|v| - 1], index, keyOf, cols, source, attach);
      match Classify(r, index, keyOf, cols)
      case Match(p) => init + [Tagged(r, source, None, PartnerTag(attach, p))]
      case _ => init
  }

  /** The rows of v whose partner differs on some column, tagged with the
      differing columns. */
  function Mismatches(v: seq<Row>, index: map<string, Row>, keyOf: Row -> string, cols: seq<string>,
                      source: string, attach: bool): seq<Tagged>
  {
    if v == [] then []
    else
      var r := v[|v| - 1];
      var init := Mismatches(v[..|v| - 1], index, keyOf, cols, source, attach);
      match Classify(r, index, keyOf, cols)
      case Mismatch(p, d) => init + [Tagged(r, source, Some(d), PartnerTag(attach, p))]
      case _ => init
  }

  /** The rows of v without a partner, tagged. */
  function UniqueToFirst(v: seq<Row>, index: map<string, Row>, keyOf: Row -> string, cols: seq<string>,
                         source: string): seq<Tagged>
  {
    if v == [] then []
    else
      var r := v[|v| - 1];
      var init := UniqueToFirst(v[..|v| - 1], index, keyOf, cols, source);
      if Classify(r, index, keyOf, cols).Unique? then init + [Tagged(r, source, None, None)] else init
  }

  /** The rows of the second dataset whose key is not among `seen`. */
  function UniqueToSecond(v: seq<Row>, seen: set<string>, keyOf: Row -> string, source: string): seq<Tagged> {
    if v == [] then []
    else
      var r := v[|v| - 1];
      var init := UniqueToSecond(v[..|v| - 1], seen, keyOf, source);
      if keyOf(r) !in seen then init + [Tagged(r, source, None, None)] else init
  }

  /** The original rows behind tagged rows. */
  function Untag(ts: seq<Tagged>): (rs: seq<Row>)
    ensures |rs| == |ts| && forall i :: 0 <= i < |ts| ==> rs[i] == ts[i].row
  {
    if ts == [] then [] else Untag(ts[..|ts| - 1]) + [ts[|ts| - 1].row]
  }

  lemma UntagAppend(ts: seq<Tagged>, t: Tagged)
    ensures Untag(ts + [t]) == Untag(ts) + [t.row]
  {
    assert (ts + [t])[..|ts|] == ts;
  }

  /** The rows of v the probe sends to one bucket, in order. */
  function Bucketed(v: seq<Row>, index: map<string, Row>, keyOf: Row -> string, cols: seq<string>,
                    bucket: Bucket): seq<Row>
  {
    if v == [] then []
    else
      var r := v[|v| - 1];
      Bucketed(v[..|v| - 1], index, keyOf, cols, bucket) + (if Sends(bucket, Classify(r, index, keyOf, cols)) then [r] else [])
  }

  /** The three result lists of the probe. */
  datatype Bucket = MatchBucket | MismatchBucket | UniqueBucket

  /** Whether the probe sends a row with outcome o to bucket b. */
  predicate Sends(b: Bucket, o: Outcome) {
    match b
    case MatchBucket => o.Match?
    case MismatchBucket => o.Mismatch?
    case UniqueBucket => o.Unique?
  }

  lemma {:induction false} MatchesRows(v: seq<Row>, index: map<string, Row>, keyOf: Row -> string,
                                       cols: seq<string>, source: string, attach: bool)
    ensures Untag(Matches(v, index, keyOf, cols, source, attach)) == Bucketed(v, index, keyOf, cols, MatchBucket)
  {
    if v != [] {
      var r := v[|v| - 1];
      MatchesRows(v[..|v| - 1], index, keyOf, cols, source, attach);
      var m0 := Matches(v[..|v| - 1], index, keyOf, cols, source, attach);
      match Classify(r, index, keyOf, cols)
      case Match(p) => UntagAppend(m0, Tagged(r, source, None, PartnerTag(attach, p)));
      case _ =>
    }
  }

  lemma {:induction false} MismatchesRows(v: seq<Row>, index: map<string, Row>, keyOf: Row -> string,
                                          cols: seq<string>, source: string, attach: bool)
    ensures Untag(Mismatches(v, index, keyOf, cols, source, attach)) == Bucketed(v, index, keyOf, cols, MismatchBucket)
  {
    if v != [] {
      var r := v[|v| - 1];
      MismatchesRows(v[..|v| - 1], index, keyOf, cols, source, attach);
      var mm0 := Mismatches(v[..|v| - 1], index, keyOf, cols, source, attach);
      match Classify(r, index, keyOf, cols)
      case Mismatch(p, d) => UntagAppend(mm0, Tagged(r, source, Some(d), PartnerTag(attach, p)));
      case _ =>
    }
  }

  lemma {:induction false} UniqueToFirstRows(v: seq<Row>, index: map<string, Row>, keyOf: Row -> string,
                                             cols: seq<string>, source: string)
    ensures Untag(UniqueToFirst(v, index, keyOf, cols, source)) == Bucketed(v, index, keyOf, cols, UniqueBucket)
  {
    if v != [] {
      var r := v[|v| - 1];
      UniqueToFirstRows(v[..|v| - 1], index, keyOf, cols, source);
      if Classify(r, index, keyOf, cols).Unique? {
        UntagAppend(UniqueToFirst(v[..|v| - 1], index, keyOf, cols, source), Tagged(r, source, None, None));
      }
    }
  }

  /** Every bucket keeps the order of v. */
  lemma {:induction false} BucketedInOrder(v: seq<Row>, index: map<string, Row>, keyOf: Row -> string,
                                           cols: seq<string>, bucket: Bucket)
    ensures IsSubsequence(Bucketed(v, index, keyOf, cols, bucket), v)
  {
    if v != [] {
      var init := v[..|v| - 1];
      BucketedInOrder(init, index, keyOf, cols, bucket);
      var b := Bucketed(v, index, keyOf, cols, bucket);
      if Sends(bucket, Classify(v[|v| - 1], index, keyOf, cols)) {
        assert b[..|b| - 1] == Bucketed(init, index, keyOf, cols, bucket);
      } else {
        assert b == Bucketed(init, index, keyOf, cols, bucket);
        SubsequenceOfPrefix(b, v);
      }
    }
  }

  /** The three buckets split v: each row lands in exactly one of them, as
      often as it occurs in v. */
  lemma {:induction false} BucketsSplit(v: seq<Row>, index: map<string, Row>, keyOf: Row -> string, cols: seq<string>)
    ensures multiset(Bucketed(v, index, keyOf, cols, MatchBucket)) + multiset(Bucketed(v, index, keyOf, cols, MismatchBucket))
            + multiset(Bucketed(v, index, keyOf, cols, UniqueBucket)) == multiset(v)
  {
    if v != [] {
      var init := v[..|v| - 1];
      var r := v[|v| - 1];
      BucketsSplit(init, index, keyOf, cols);
      assert v == init + [r];
      assert multiset(v) == multiset(init) + multiset{r};
      BucketedStep(v, index, keyOf, cols, MatchBucket);
      BucketedStep(v, index, keyOf, cols, MismatchBucket);
      BucketedStep(v, index, keyOf, cols, UniqueBucket);
      var o := Classify(r, index, keyOf, cols);
      SplitStep(multiset(Bucketed(init, index, keyOf, cols, MatchBucket)),
                multiset(Bucketed(init, index, keyOf, cols, MismatchBucket)),
                multiset(Bucketed(init, index, keyOf, cols, UniqueBucket)), multiset(init), r,
                Sends(MatchBucket, o), Sends(MismatchBucket, o), Sends(UniqueBucket, o));
    }
  }

  /** Adding a row to exactly one of three parts adds it to their sum. */
  lemma SplitStep(m: multiset<Row>, mm: multiset<Row>, u: multiset<Row>, all: multiset<Row>, r: Row,
                  a: bool, b: bool, c: bool)
    requires m + mm + u == all
    requires (a && !b && !c) || (!a && b && !c) || (!a && !b && c)
    ensures (m + (if a then multiset{r} else multiset{})) + (mm + (if b then multiset{r} else multiset{}))
            + (u + (if c then multiset{r} else multiset{})) == all + multiset{r}
  {
  }

  /** One more row adds itself to the multiset of the bucket it is sent to. */
  lemma BucketedStep(v: seq<Row>, index: map<string, Row>, keyOf: Row -> string, cols: seq<string>,
                     bucket: Bucket)
    requires v != []
    ensures var r := v[|v| - 1];
      multiset(Bucketed(v, index, keyOf, cols, bucket)) ==
        multiset(Bucketed(v[..|v| - 1], index, keyOf, cols, bucket))
        + (if Sends(bucket, Classify(r, index, keyOf, cols)) then multiset{r} else multiset{})
  {
    var r := v[|v| - 1];
    var b0 := Bucketed(v[..|v| - 1], index, keyOf, cols, bucket);
    if Sends(bucket, Classify(r, index, keyOf, cols)) {
      assert multiset(b0 + [r]) == multiset(b0) + multiset{r};
    } else {
      assert Bucketed(v, index, keyOf, cols, bucket) == b0;
    }
  }

  /** The probe partitions the first dataset: each of its rows lands in
      exactly one of matches, mismatches and uniqueToFirst, as often as it
      occurs, and each list keeps the dataset's order. */
  lemma ProbePartition(v: seq<Row>, index: map<string, Row>, keyOf: Row -> string,
                       cols: seq<string>, source: string, attach: bool)
    ensures var m := Untag(Matches(v, index, keyOf, cols, source, attach));
            var mm := Untag(Mismatches(v, index, keyOf, cols, source, attach));
            var u := Untag(UniqueToFirst(v, index, keyOf, cols, source));
            && multiset(m) + multiset(mm) + multiset(u) == multiset(v)
            && |m| + |mm| + |u| == |v|
            && IsSubsequence(m, v) && IsSubsequence(mm, v) && IsSubsequence(u, v)
  {
    MatchesRows(v, index, keyOf, cols, source, attach);
    MismatchesRows(v, index, keyOf, cols, source, attach);
    UniqueToFirstRows(v, index, keyOf, cols, source);
    BucketsSplit(v, index, keyOf, cols);
    BucketedInOrder(v, index, keyOf, cols, MatchBucket);
    BucketedInOrder(v, index, keyOf, cols, MismatchBucket);
    BucketedInOrder(v, index, keyOf, cols, UniqueBucket);
    var m := Bucketed(v, index, keyOf, cols, MatchBucket);
    var mm := Bucketed(v, index, keyOf, cols, MismatchBucket);
    var u := Bucketed(v, index, keyOf, cols, UniqueBucket);
    assert |multiset(m) + multiset(mm) + multiset(u)| == |multiset(v)|;
  }

  /** What each emitted row of the probe is: a row of the first dataset,
      tagged with its source, in the bucket its classification says. */
  lemma {:induction false} ProbeMembers(v: seq<Row>, index: map<string, Row>, keyOf: Row -> string,
                                        cols: seq<string>, source: string, attach: bool)
    ensures forall t :: t in Matches(v, index, keyOf, cols, source, attach) <==>
      t.row in v && Classify(t.row, index, keyOf, cols).Match? && t.source == source && t.differences == None
      && t.partner == PartnerTag(attach, Classify(t.row, index, keyOf, cols).partner)
    ensures forall t :: t in Mismatches(v, index, keyOf, cols, source, attach) <==>
      t.row in v && Classify(t.row, index, keyOf, cols).Mismatch? && t.source == source
      && t.differences == Some(Classify(t.row, index, keyOf, cols).diffs)
      && t.partner == PartnerTag(attach, Classify(t.row, index, keyOf, cols).partner)
    ensures forall t :: t in UniqueToFirst(v, index, keyOf, cols, source) <==>
      t.row in v && keyOf(t.row) !in index && t.source == source && t.differences == None && t.partner == None
  {
    if v != [] {
      var init := v[..|v| - 1];
      ProbeMembers(init, index, keyOf, cols, source, attach);
      assert v == init + [v[|v| - 1]];
      assert forall x :: x in v <==> x in init || x == v[|v| - 1];
    }
  }

  /** The rows of v whose key is not among `seen`, in order. */
  function Unseen(v: seq<Row>, seen: set<string>, keyOf: Row -> string): seq<Row> {
    if v == [] then []
    else
      var r := v[|v| - 1];
      Unseen(v[..|v| - 1], seen, keyOf) + (if keyOf(r) !in seen then [r] else [])
  }

  lemma {:induction false} UniqueToSecondRows(v: seq<Row>, seen: set<string>, keyOf: Row -> string, source: string)
    ensures Untag(UniqueToSecond(v, seen, keyOf, source)) == Unseen(v, seen, keyOf)
  {
    if v != [] {
      var r := v[|v| - 1];
      UniqueToSecondRows(v[..|v| - 1], seen, keyOf, source);
      if keyOf(r) !in seen {
        UntagAppend(UniqueToSecond(v[..|v| - 1], seen, keyOf, source), Tagged(r, source, None, None));
      }
    }
  }

  lemma {:induction false} UnseenInOrder(v: seq<Row>, seen: set<string>, keyOf: Row -> string)
    ensures IsSubsequence(Unseen(v, seen, keyOf), v)
  {
    if v != [] {
      var init := v[..|v| - 1];
      UnseenInOrder(init, seen, keyOf);
      var u := Unseen(v, seen, keyOf);
      if keyOf(v[|v| - 1]) !in seen {
        assert u[..|u| - 1] == Unseen(init, seen, keyOf);
      } else {
        assert u == Unseen(init, seen, keyOf);
        SubsequenceOfPrefix(u, v);
      }
    }
  }

  /** Every row of v with an unseen key keeps all its occurrences; the others
      keep none. */
  lemma {:induction false} UnseenCounts(v: seq<Row>, seen: set<string>, keyOf: Row -> string, r: Row)
    ensures multiset(Unseen(v, seen, keyOf))[r] == if keyOf(r) !in seen then multiset(v)[r] else 0
  {
    if v != [] {
      var init := v[..|v| - 1];
      var last := v[|v| - 1];
      UnseenCounts(init, seen, keyOf, r);
      assert v == init + [last];
      var u0 := Unseen(init, seen, keyOf);
      if keyOf(last) !in seen {
        assert Unseen(v, seen, keyOf) == u0 + [last];
        assert multiset(u0 + [last]) == multiset(u0) + multiset{last};
      } else {
        assert Unseen(v, seen, keyOf) == u0;
      }
      assert multiset(v) == multiset(init) + multiset{last};
    }
  }

  /** The second pass: each emitted row is a row of the second dataset whose
      key was not seen, as often as it occurs there, in order. */
  lemma UniqueToSecondMembers(v: seq<Row>, seen: set<string>, keyOf: Row -> string, source: string)
    ensures forall t :: t in UniqueToSecond(v, seen, keyOf, source) ==>
      t.row in v && keyOf(t.row) !in seen && t.source == source && t.differences == None && t.partner == None
    ensures IsSubsequence(Untag(UniqueToSecond(v, seen, keyOf, source)), v)
    ensures forall r :: multiset(Untag(UniqueToSecond(v, seen, keyOf, source)))[r]
                        == if keyOf(r) !in seen then multiset(v)[r] else 0
  {
    UniqueToSecondRows(v, seen, keyOf, source);
    UnseenInOrder(v, seen, keyOf);
    var u := UniqueToSecond(v, seen, keyOf, source);
    forall r ensures multiset(Untag(u))[r] == if keyOf(r) !in seen then multiset(v)[r] else 0 {
      UnseenCounts(v, seen, keyOf, r);
    }
    forall t | t in u
      ensures t.row in v && keyOf(t.row) !in seen && t.source == source && t.differences == None && t.partner == None
    {
      UniqueToSecondEntry(v, seen, keyOf, source, t);
    }
  }

  lemma UniqueToSecondEntry(v: seq<Row>, seen: set<string>, keyOf: Row -> string, source: string, t: Tagged)
    requires t in UniqueToSecond(v, seen, keyOf, source)
    ensures t.row in v && keyOf(t.row) !in seen && t.source == source && t.differences == None && t.partner == None
  {
    var u := UniqueToSecond(v, seen, keyOf, source);
    UniqueToSecondRows(v, seen, keyOf, source);
    UniqueToSecondTagged(v, seen, keyOf, source, t);
    UnseenCounts(v, seen, keyOf, t.row);
    var i :| 0 <= i < |u| && u[i] == t;
    assert Untag(u)[i] == t.row;
    assert t.row in multiset(Untag(u));
  }

  lemma {:induction false} UniqueToSecondTagged(v: seq<Row>, seen: set<string>, keyOf: Row -> string, source: string, t: Tagged)
    requires t in UniqueToSecond(v, seen, keyOf, source)
    ensures t.source == source && t.differences == None && t.partner == None
  {
    var init := v[..|v| - 1];
    if t !in UniqueToSecond(init, seen, keyOf, source) {
      assert t == Tagged(v[|v| - 1], source, None, None);
    } else {
      UniqueToSecondTagged(init, seen, keyOf, source, t);
    }
  }

  /** A row has no partner in the index of w exactly when w never produces
      its key: the probe's uniqueToFirst and the second pass select alike. */
  lemma {:induction false} UniqueBucketIsUnseen(v: seq<Row>, w: seq<Row>, keyOf: Row -> string, cols: seq<string>)
    ensures Bucketed(v, IndexBy(w, keyOf), keyOf, cols, UniqueBucket) == Unseen(v, KeySet(w, keyOf), keyOf)
  {
    if v != [] {
      var r := v[|v| - 1];
      UniqueBucketIsUnseen(v[..|v| - 1], w, keyOf, cols);
      IndexByLastWins(w, keyOf, keyOf(r));
      KeySetMembers(w, keyOf, keyOf(r));
    }
  }

  lemma {:induction false} BucketedMembers(v: seq<Row>, index: map<string, Row>, keyOf: Row -> string,
                                           cols: seq<string>, bucket: Bucket, x: Row)
    ensures x in Bucketed(v, index, keyOf, cols, bucket) <==> x in v && Sends(bucket, Classify(x, index, keyOf, cols))
  {
    if v != [] {
      var init := v[..|v| - 1];
      BucketedMembers(init, index, keyOf, cols, bucket, x);
      assert v == init + [v[|v| - 1]];
    }
  }

  /** A row of v whose key is in the index is listed as a match or a mismatch. */
  lemma PairedListed(v: seq<Row>, index: map<string, Row>, keyOf: Row -> string,
                     cols: seq<string>, source: string, attach: bool, r: Row)
    requires r in v && keyOf(r) in index
    ensures r in Untag(Matches(v, index, keyOf, cols, source, attach)) + Untag(Mismatches(v, index, keyOf, cols, source, attach))
  {
    BucketedMembers(v, index, keyOf, cols, UniqueBucket, r);
    BucketsSplit(v, index, keyOf, cols);
    assert r in multiset(v);
    MatchesRows(v, index, keyOf, cols, source, attach);
    MismatchesRows(v, index, keyOf, cols, source, attach);
  }

  /** The entry a paired row gets among matches and mismatches. */
  lemma PairedTagged(v: seq<Row>, index: map<string, Row>, keyOf: Row -> string,
                     cols: seq<string>, source: string, attach: bool, r: Row)
    requires r in v && keyOf(r) in index
    ensures exists t :: t in Matches(v, index, keyOf, cols, source, attach) + Mismatches(v, index, keyOf, cols, source, attach)
                        && t.row == r
  {
    PairedListed(v, index, keyOf, cols, source, attach, r);
    var m := Matches(v, index, keyOf, cols, source, attach);
    var mm := Mismatches(v, index, keyOf, cols, source, attach);
    if r in Untag(m) {
      var i :| 0 <= i < |m| && Untag(m)[i] == r;
      assert m[i] in m + mm;
    } else {
      assert r in Untag(mm);
      var i :| 0 <= i < |mm| && Untag(mm)[i] == r;
      assert mm[i] in m + mm;
    }
  }

  /** One row against one row with the same key. */
  lemma SingletonJoin(r1: Row, r2: Row, keyOf: Row -> string, cols: seq<string>, name1: string, name2: string)
    requires keyOf(r1) == keyOf(r2)
    ensures var index := IndexBy([r2], keyOf);
            var d := Differences(r1, r2, cols);
            && Matches([r1], index, keyOf, cols, name1, false) == (if d == [] then [Tagged(r1, name1, None, None)] else [])
            && Mismatches([r1], index, keyOf, cols, name1, false) == (if d == [] then [] else [Tagged(r1, name1, Some(d), None)])
            && UniqueToFirst([r1], index, keyOf, cols, name1) == []
            && UniqueToSecond([r2], KeySet([r1], keyOf), keyOf, name2) == []
  {
    var k := keyOf(r1);
    assert [r1][..0] == [] && [r2][..0] == [];
    var index := IndexBy([r2], keyOf);
    assert index == IndexBy([r2][..0], keyOf)[keyOf(r2) := r2];
    assert k in index && index[k] == r2;
    assert KeySet([r1], keyOf) == KeySet([r1][..0], keyOf) + {keyOf(r1)};
  }

  /** The tagged rows with the partner row dropped. */
  function WithoutPartner(ts: seq<Tagged>): (r: seq<Tagged>)
    ensures |r| == |ts| && forall i :: 0 <= i < |ts| ==> r[i] == ts[i].(partner := None)
  {
    if ts == [] then [] else WithoutPartner(ts[..|ts| - 1]) + [ts[|ts| - 1].(partner := None)]
  }

  /** Two probes that classify every row of v alike list the same rows with
      the same sources and differences; they can differ only in the partner
      rows they attach. */
  lemma {:induction false} ProbeCongruent(v: seq<Row>, indexA: map<string, Row>, keyA: Row -> string,
                                          indexB: map<string, Row>, keyB: Row -> string,
                                          cols: seq<string>, source: string, attach: bool)
    requires forall r :: r in v ==> Classify(r, indexA, keyA, cols) == Classify(r, indexB, keyB, cols)
    ensures WithoutPartner(Matches(v, indexA, keyA, cols, source, attach)) == Matches(v, indexB, keyB, cols, source, false)
    ensures WithoutPartner(Mismatches(v, indexA, keyA, cols, source, attach)) == Mismatches(v, indexB, keyB, cols, source, false)
    ensures UniqueToFirst(v, indexA, keyA, cols, source) == UniqueToFirst(v, indexB, keyB, cols, source)
  {
    if v != [] {
      var init := v[..|v| - 1];
      var r := v[|v| - 1];
      assert forall x :: x in init ==> x in v;
      ProbeCongruent(init, indexA, keyA, indexB, keyB, cols, source, attach);
      assert r in v;
      var ma := Matches(init, indexA, keyA, cols, source, attach);
      var mma := Mismatches(init, indexA, keyA, cols, source, attach);
      match Classify(r, indexA, keyA, cols)
      case Match(p) =>
        assert WithoutPartner(ma + [Tagged(r, source, None, PartnerTag(attach, p))]) == WithoutPartner(ma) + [Tagged(r, source, None, None)];
      case Mismatch(p, d) =>
        assert WithoutPartner(mma + [Tagged(r, source, Some(d), PartnerTag(attach, p))]) == WithoutPartner(mma) + [Tagged(r, source, Some(d), None)];
      case Unique =>
    }
  }

  /** Two second passes that decide alike for every row list the same rows. */
  lemma {:induction false} UniqueToSecondCongruent(v: seq<Row>, seenA: set<string>, keyA: Row -> string,
                                                   seenB: set<string>, keyB: Row -> string, source: string)
    requires forall r :: r in v ==> (keyA(r) in seenA <==> keyB(r) in seenB)
    ensures UniqueToSecond(v, seenA, keyA, source) == UniqueToSecond(v, seenB, keyB, source)
  {
    if v != [] {
      assert forall x :: x in v[..|v| - 1] ==> x in v;
      UniqueToSecondCongruent(v[..|v| - 1], seenA, keyA, seenB, keyB, source);
      assert v[|v| - 1] in v;
    }
  }

  /** Keys that are other keys with "|" appended index the same rows. */
  lemma {:induction false} IndexByTerminated(rows: seq<Row>, key: Row -> string, terminated: Row -> string, x: string)
    requires forall r :: r in rows ==> terminated(r) == key(r) + "|"
    ensures x in IndexBy(rows, key) <==> x + "|" in IndexBy(rows, terminated)
    ensures x in IndexBy(rows, key) ==> IndexBy(rows, terminated)[x + "|"] == IndexBy(rows, key)[x]
  {
    if rows != [] {
      var last := rows[|rows| - 1];
      assert forall r :: r in rows[..|rows| - 1] ==> r in rows;
      IndexByTerminated(rows[..|rows| - 1], key, terminated, x);
      assert last in rows;
      assert key(last) + "|" == x + "|" ==> key(last) == x by {
        if key(last) + "|" == x + "|" {
          assert key(last) == (key(last) + "|")[..|key(last)|];
        }
      }
    }
  }

  lemma {:induction false} KeySetTerminated(rows: seq<Row>, key: Row -> string, terminated: Row -> string, x: string)
    requires forall r :: r in rows ==> terminated(r) == key(r) + "|"
    ensures x in KeySet(rows, key) <==> x + "|" in KeySet(rows, terminated)
  {
    if rows != [] {
      var last := rows[|rows| - 1];
      assert forall r :: r in rows[..|rows| - 1] ==> r in rows;
      KeySetTerminated(rows[..|rows| - 1], key, terminated, x);
      assert last in rows;
      assert key(last) + "|" == x + "|" ==> key(last) == x by {
        if key(last) + "|" == x + "|" {
          assert key(last) == (key(last) + "|")[..|key(last)|];
        }
      }
    }
  }

  /** Probing an index of "|"-terminated keys with a "|"-terminated key
      classifies a row as probing the plain index with the plain key does. */
  lemma ClassifyTerminated(r: Row, rows: seq<Row>, key: Row -> string, terminated: Row -> string,
                           probe: Row -> string, cols: seq<string>)
    requires forall x :: x in rows ==> terminated(x) == key(x) + "|"
    requires probe(r) == key(r) + "|"
    ensures Classify(r, IndexBy(rows, terminated), probe, cols) == Classify(r, IndexBy(rows, key), key, cols)
  {
    IndexByTerminated(rows, key, terminated, key(r));
  }
}

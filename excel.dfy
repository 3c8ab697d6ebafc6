// Excel export: splitting arrays into chunks, giving every worksheet a name
// that is unique in its workbook and at most 31 characters long, splitting
// oversized sheets over several worksheets, and projecting data rows onto
// the header row taken from the first row.
//
// The workbook is the part of the spreadsheet library this code drives: an
// ordered list of worksheets, each a name, an optional header row and its
// data rows. Styling, column widths and the download are not modelled.

module ExcelUtils {

  import opened JsValues
  import opened Rows

  /** Excel's limit on the length of a worksheet name. */
  const MaxSheetNameLength := 31
  /** Above this many rows a worksheet's rows are added chunk by chunk. */
  const ChunkSize := 10000
  /** `exportMultipleSheets` splits a sheet of more rows than this over
      several worksheets. */
  const MaxRowsPerSheet := 100000

  function Min(a: int, b: int): int {
    if a <= b then a else b
  }

  // ---------------------------------------------------------------------
  // chunkArray

  /** All chunks, one after the other. */
  function Concat<T>(chunks: seq<seq<T>>): seq<T> {
    if chunks == [] then [] else chunks[0] + Concat(chunks[1..])
  }

  lemma MulMonotone(a: int, b: int, k: int)
    requires a <= b && k >= 0
    ensures a * k <= b * k
  {
    assert b * k - a * k == (b - a) * k;
  }

  /** `Math.ceil(n / k)` written as integer division: the c with
      n <= c * k < n + k. */
  lemma CeilDiv(n: int, k: int, c: int)
    requires k > 0 && n <= c * k < n + k
    ensures (n + k - 1) / k == c
  {
    var x := n + k - 1;
    var q := x / k;
    assert x == q * k + x % k && 0 <= x % k < k;
    assert (q + 1) * k == q * k + k;
    assert (c + 1) * k == c * k + k;
    if q < c {
      MulMonotone(q + 1, c, k);
      assert false;
    } else if q > c {
      MulMonotone(c + 1, q, k);
      assert false;
    }
  }

  /** `Math.ceil(n / k)`, counted out: how many slices of k cover n elements. */
  function Ceil(n: nat, k: nat): nat
    requires k > 0
    decreases n
  {
    if n == 0 then 0 else if n <= k then 1 else 1 + Ceil(n - k, k)
  }

  lemma {:induction false} CeilBounds(n: nat, k: nat)
    requires k > 0 && n > 0
    ensures n <= Ceil(n, k) * k < n + k
    decreases n
  {
    if n > k {
      CeilBounds(n - k, k);
      assert Ceil(n, k) * k == Ceil(n - k, k) * k + k;
    }
  }

  /** The count is the rounded-up quotient. */
  lemma CeilIsDivision(n: nat, k: nat)
    requires k > 0
    ensures Ceil(n, k) == (n + k - 1) / k
  {
    if n == 0 {
      assert (k - 1) / k == 0;
    } else {
      CeilBounds(n, k);
      CeilDiv(n, k, Ceil(n, k));
    }
  }

  /** The chunks `array.slice(i, i + k)`, `array.slice(i + k, i + 2k)`, ... */
  function ChunksFrom<T>(a: seq<T>, k: nat, i: nat): (cs: seq<seq<T>>)
    requires k > 0
    ensures forall j :: 0 <= j < |cs| ==> 0 < |cs[j]| <= k
    ensures forall j :: 0 <= j < |cs| - 1 ==> |cs[j]| == k
    ensures i <= |a| ==> |cs| == Ceil(|a| - i, k)
    decreases |a| - i
  {
    if i >= |a| then []
    else [a[i..Min(i + k, |a|)]] + ChunksFrom(a, k, i + k)
  }

  /** `chunkArray(a, k)`. */
  function Chunks<T>(a: seq<T>, k: nat): (cs: seq<seq<T>>)
    requires k > 0
    ensures forall j :: 0 <= j < |cs| ==> 0 < |cs[j]| <= k
    ensures forall j :: 0 <= j < |cs| - 1 ==> |cs[j]| == k
    ensures |cs| == Ceil(|a|, k)
  {
    ChunksFrom(a, k, 0)
  }

  /** The chunks from position i put back together are the array from i. */
  lemma {:induction false} ConcatChunksFrom<T>(a: seq<T>, k: nat, i: nat)
    requires k > 0 && i <= |a|
    ensures Concat(ChunksFrom(a, k, i)) == a[i..]
    decreases |a| - i
  {
    if i < |a| {
      var j := Min(i + k, |a|);
      ConcatChunksFrom(a, k, j);
      if i + k <= |a| {
        assert ChunksFrom(a, k, i) == [a[i..j]] + ChunksFrom(a, k, j);
      } else {
        assert ChunksFrom(a, k, i + k) == [];
        assert ChunksFrom(a, k, i) == [a[i..j]];
      }
      assert a[i..] == a[i..j] + a[j..];
    } else {
      assert a[i..] == [];
    }
  }

  /** The chunks put back together are the array. */
  lemma ConcatChunks<T>(a: seq<T>, k: nat)
    requires k > 0
    ensures Concat(Chunks(a, k)) == a
  {
    ConcatChunksFrom(a, k, 0);
  }

  /** `chunkArray`: slices of k elements pushed in a stepping loop. */
  method ChunkArray<T>(a: seq<T>, k: nat) returns (chunks: seq<seq<T>>)
    requires k > 0
    ensures chunks == Chunks(a, k)
    ensures Concat(chunks) == a
    ensures forall j :: 0 <= j < |chunks| ==> 0 < |chunks[j]| <= k
    ensures forall j :: 0 <= j < |chunks| - 1 ==> |chunks[j]| == k
    ensures |chunks| == Ceil(|a|, k)
  {
    chunks := [];
    var i: nat := 0;
    while i < |a|
      invariant chunks + ChunksFrom(a, k, i) == Chunks(a, k)
      decreases |a| - i
    {
      var chunk := a[i..Min(i + k, |a|)];
      assert chunks + ChunksFrom(a, k, i) == (chunks + [chunk]) + ChunksFrom(a, k, i + k) by {
        assert ChunksFrom(a, k, i) == [chunk] + ChunksFrom(a, k, i + k);
      }
      chunks := chunks + [chunk];
      i := i + k;
    }
    assert chunks == Chunks(a, k) by {
      assert ChunksFrom(a, k, i) == [];
    }
    ConcatChunks(a, k);
  }

  // ---------------------------------------------------------------------
  // Worksheet rows

  /** A worksheet: its name, its header row (absent when it got no data)
      and its data rows. */
  datatype Worksheet = Worksheet(name: string, header: Option<seq<string>>, rows: seq<seq<Value>>)

  /** `headers.map(h => row[h] || '')`. */
  function ProjectRow(row: Row, headers: seq<string>): (cells: seq<Value>)
    ensures |cells| == |headers|
    ensures forall i :: 0 <= i < |headers| && Truthy(Get(row, headers[i])) ==> cells[i] == Get(row, headers[i])
    ensures forall i :: 0 <= i < |headers| && !Truthy(Get(row, headers[i])) ==> cells[i] == Str("")
  {
    seq(|headers|, i requires 0 <= i < |headers| => Or(Get(row, headers[i]), Str("")))
  }

  /** The projected rows, in data order. */
  function ProjectRows(data: seq<Row>, headers: seq<string>): (rows: seq<seq<Value>>)
    ensures |rows| == |data|
    ensures forall i :: 0 <= i < |data| ==> rows[i] == ProjectRow(data[i], headers)
  {
    if data == [] then []
    else ProjectRows(data[..|data| - 1], headers) + [ProjectRow(data[|data| - 1], headers)]
  }

  /** Projecting two stretches of rows one after the other is projecting them together. */
  lemma ProjectRowsAppend(a: seq<Row>, b: seq<Row>, headers: seq<string>)
    ensures ProjectRows(a + b, headers) == ProjectRows(a, headers) + ProjectRows(b, headers)
  {
    var l := ProjectRows(a + b, headers);
    var r := ProjectRows(a, headers) + ProjectRows(b, headers);
    assert |l| == |r|;
    forall i | 0 <= i < |l|
      ensures l[i] == r[i]
    {
      if i < |a| {
        assert (a + b)[i] == a[i];
      } else {
        assert (a + b)[i] == b[i - |a|];
      }
    }
  }

  /** What `addWorksheet(workbook, data, name)` adds: no header and no rows
      for empty data; otherwise the first row's keys as the header and every
      row projected onto them. */
  function SheetOf(name: string, data: seq<Row>): (w: Worksheet)
    ensures w.name == name
    ensures w.header == None <==> data == []
    ensures data != [] ==> w.header == Some(data[0].keys)
    ensures |w.rows| == |data|
  {
    if data == [] then Worksheet(name, None, [])
    else Worksheet(name, Some(data[0].keys), ProjectRows(data, data[0].keys))
  }

  class Workbook {
    var worksheets: seq<Worksheet>

    constructor()
      ensures worksheets == []
    {
      worksheets := [];
    }

    /** `addWorksheet`: rows are added chunk by chunk above ChunkSize rows
        and one by one otherwise; both paths give the same worksheet. */
    method AddWorksheet(data: seq<Row>, sheetName: string)
      modifies this
      ensures worksheets == old(worksheets) + [SheetOf(sheetName, data)]
    {
      if |data| == 0 {
        worksheets := worksheets + [Worksheet(sheetName, None, [])];
        return;
      }
      var headers := data[0].keys;
      var rows: seq<seq<Value>> := [];
      if |data| > ChunkSize {
        var i := 0;
        while i < |data|
          invariant 0 <= i
          invariant worksheets == old(worksheets)
          invariant rows == ProjectRows(data[..Min(i, |data|)], headers)
          decreases |data| - i
        {
          var end := Min(i + ChunkSize, |data|);
          var chunk := data[i..end];
          ProjectRowsAppend(data[..i], chunk, headers);
          assert data[..i] + chunk == data[..end];
          rows := rows + ProjectRows(chunk, headers);
          i := i + ChunkSize;
        }
      } else {
        var j := 0;
        while j < |data|
          invariant 0 <= j <= |data|
          invariant worksheets == old(worksheets)
          invariant rows == ProjectRows(data[..j], headers)
        {
          assert data[..j + 1][..j] == data[..j];
          rows := rows + [ProjectRow(data[j], headers)];
          j := j + 1;
        }
      }
      assert data[..|data|] == data;
      worksheets := worksheets + [Worksheet(sheetName, Some(headers), rows)];
    }
  }

  // ---------------------------------------------------------------------
  // makeUniqueName

  /** `s.substring(0, n)`: a negative end counts as 0, one past the end as the end. */
  function Prefix(s: string, n: int): (p: string)
    ensures |p| <= |s| && p == s[..|p|]
    ensures 0 <= n <= |s| ==> |p| == n
    ensures n > |s| ==> p == s
  {
    if n <= 0 then "" else if n >= |s| then s else s[..n]
  }

  /** The k-th name `makeUniqueName` tries for a base name: the base cut to
      31 characters first, then the base cut short enough to leave room for
      the suffix `_k`, with that suffix. */
  function Candidate(base: string, k: nat): (name: string)
    ensures k == 0 && |base| <= MaxSheetNameLength ==> name == base
    ensures k == 0 ==> |name| <= MaxSheetNameLength
    ensures k > 0 && |NatToDec(k)| < MaxSheetNameLength ==> |name| <= MaxSheetNameLength
    ensures k > 0 ==> (|name| > |NatToDec(k)| && name[|name| - |NatToDec(k)| - 1..] == "_" + NatToDec(k))
  {
    if k == 0 then Prefix(base, MaxSheetNameLength)
    else
      var suffix := "_" + NatToDec(k);
      Prefix(base, MaxSheetNameLength - |suffix|) + suffix
  }

  /** Different counters give different suffixed candidates. */
  lemma CandidateInjective(base: string, a: nat, b: nat)
    requires a > 0 && b > 0
    requires Candidate(base, a) == Candidate(base, b)
    ensures a == b
  {
    var s := Candidate(base, a);
    SuffixInjective(s, NatToDec(a), NatToDec(b));
    NatToDecInjective(a, b);
  }

  /** A name ends in at most one `_` followed by digits only. */
  lemma SuffixInjective(s: string, x: string, y: string)
    requires forall i :: 0 <= i < |x| ==> IsDigit(x[i])
    requires forall i :: 0 <= i < |y| ==> IsDigit(y[i])
    requires |x| < |s| && |y| < |s|
    requires s[|s| - |x| - 1..] == "_" + x
    requires s[|s| - |y| - 1..] == "_" + y
    ensures x == y
  {
    if |x| < |y| {
      DigitBeforeSeparator(s, x, y);
      assert false;
    } else if |y| < |x| {
      DigitBeforeSeparator(s, y, x);
      assert false;
    } else {
      assert x == s[|s| - |x|..];
      assert y == s[|s| - |y|..];
    }
  }

  /** A name ending in both `_x` and `_y` with x shorter than y has a '_'
      among y's characters. */
  lemma DigitBeforeSeparator(s: string, x: string, y: string)
    requires |x| < |y| < |s|
    requires s[|s| - |x| - 1..] == "_" + x
    requires s[|s| - |y| - 1..] == "_" + y
    ensures y[|y| - |x| - 1] == '_'
  {
    var i := |s| - |x| - 1;
    assert s[i] == (s[|s| - |x| - 1..])[0];
    assert s[i] == (s[|s| - |y| - 1..])[|y| - |x|];
  }

  /** Injective on 1..n. */
  ghost predicate InjectiveUpTo(f: nat -> string, n: nat) {
    forall a, b :: 1 <= a <= n && 1 <= b <= n && f(a) == f(b) ==> a == b
  }

  /** The values f(1), ..., f(n) of a function injective on 1..n: n of them. */
  ghost function Image(f: nat -> string, n: nat): (t: set<string>)
    requires InjectiveUpTo(f, n)
    ensures |t| == n
    ensures forall x :: x in t ==> exists k :: 1 <= k <= n && x == f(k)
  {
    if n == 0 then {}
    else
      var t := Image(f, n - 1);
      assert f(n) !in t;
      t + {f(n)}
  }

  /** Whatever names are taken, one of the first |used| + 1 suffixed
      candidates is free: the search in `makeUniqueName` always stops. */
  lemma FreeCandidateExists(base: string, used: set<string>)
    ensures exists k :: 1 <= k <= |used| + 1 && Candidate(base, k) !in used
  {
    var n := |used| + 1;
    var f := (k: nat) => Candidate(base, k);
    forall a, b | 1 <= a <= n && 1 <= b <= n && f(a) == f(b)
      ensures a == b
    {
      CandidateInjective(base, a, b);
    }
    var tried := Image(f, n);
    if forall k :: 1 <= k <= n ==> Candidate(base, k) in used {
      forall x | x in tried
        ensures x in used
      {
        var k :| 1 <= k <= n && x == f(k);
      }
      SubsetCard(tried, used);
      assert false;
    }
  }

  lemma SubsetCard(a: set<string>, b: set<string>)
    requires a <= b
    ensures |a| <= |b|
  {
    assert b == a + (b - a);
  }

  function FirstFreeFrom(base: string, used: set<string>, k: nat): (r: nat)
    requires k <= |used| + 1
    requires exists j :: k <= j <= |used| + 1 && Candidate(base, j) !in used
    ensures k <= r <= |used| + 1
    ensures Candidate(base, r) !in used
    ensures forall j :: k <= j < r ==> Candidate(base, j) in used
    decreases |used| + 1 - k
  {
    if Candidate(base, k) !in used then k else FirstFreeFrom(base, used, k + 1)
  }

  /** The position of the name `makeUniqueName` settles on: the first
      candidate that is not taken. */
  function FirstFree(base: string, used: set<string>): (r: nat)
    ensures r <= |used| + 1
    ensures Candidate(base, r) !in used
    ensures forall j :: 0 <= j < r ==> Candidate(base, j) in used
  {
    FreeCandidateExists(base, used);
    FirstFreeFrom(base, used, 0)
  }

  /** Only the first free candidate is free with every earlier one taken. */
  lemma FirstFreeUnique(base: string, used: set<string>, k: nat)
    requires Candidate(base, k) !in used
    requires forall j :: 0 <= j < k ==> Candidate(base, j) in used
    ensures k == FirstFree(base, used)
  {
  }

  lemma {:induction false} NatToDecLengthMonotone(a: nat, b: nat)
    requires a <= b
    ensures |NatToDec(a)| <= |NatToDec(b)|
    decreases b
  {
    if a >= 10 {
      NatToDecLengthMonotone(a / 10, b / 10);
    }
  }

  /** While fewer than 10^29 names are taken, the chosen name has at most
      31 characters. */
  lemma UniqueNameLength(base: string, used: set<string>)
    requires |NatToDec(|used| + 1)| < MaxSheetNameLength
    ensures |UniqueName(base, used)| <= MaxSheetNameLength
  {
    var r := FirstFree(base, used);
    if r > 0 {
      NatToDecLengthMonotone(r, |used| + 1);
    }
  }

  /** The name `makeUniqueName(base)` returns when `used` holds the names
      handed out so far: a name not handed out before, of at most 31
      characters while fewer than 10^29 names are taken, and the base itself
      when that is short enough and free. */
  function UniqueName(base: string, used: set<string>): (name: string)
    ensures name !in used
    ensures |base| <= MaxSheetNameLength && base !in used ==> name == base
  {
    Candidate(base, FirstFree(base, used))
  }

  /** The set of names `makeUniqueName` has handed out. */
  class SheetNamer {
    var usedNames: set<string>

    constructor()
      ensures usedNames == {}
    {
      usedNames := {};
    }

    /** `makeUniqueName(baseName)`. */
    method MakeUniqueName(baseName: string) returns (uniqueName: string)
      modifies this
      ensures uniqueName == UniqueName(baseName, old(usedNames))
      ensures uniqueName !in old(usedNames)
      ensures usedNames == old(usedNames) + {uniqueName}
    {
      uniqueName := baseName;
      var counter := 1;
      if |uniqueName| > MaxSheetNameLength {
        uniqueName := uniqueName[..MaxSheetNameLength];
      }
      ghost var last := FirstFree(baseName, usedNames);
      while uniqueName in usedNames
        invariant 1 <= counter <= last + 1
        invariant uniqueName == Candidate(baseName, counter - 1)
        invariant forall j :: 0 <= j < counter - 1 ==> Candidate(baseName, j) in usedNames
        decreases last + 1 - counter
      {
        var suffix := "_" + NatToDec(counter);
        var maxLength := MaxSheetNameLength - |suffix|;
        uniqueName := Prefix(baseName, maxLength) + suffix;
        counter := counter + 1;
      }
      FirstFreeUnique(baseName, usedNames, counter - 1);
      usedNames := usedNames + {uniqueName};
    }
  }

  // ---------------------------------------------------------------------
  // exportMultipleSheets

  /** A sheet to export: its name and its rows. */
  datatype Sheet = Sheet(name: string, data: seq<Row>)

  /** The worksheets one sheet becomes before names are made unique: the
      sheet itself, or one per chunk named `${name}_${i}` from 1. */
  function SheetParts(s: Sheet, maxRows: nat): (parts: seq<Sheet>)
    requires maxRows > 0
    ensures |s.data| <= maxRows ==> parts == [s]
    ensures |s.data| > maxRows ==> |parts| == Ceil(|s.data|, maxRows)
  {
    if |s.data| > maxRows then
      var chunks := Chunks(s.data, maxRows);
      seq(|chunks|, i requires 0 <= i < |chunks| =>
        Sheet(if |chunks| > 1 then s.name + "_" + NatToDec(i + 1) else s.name, chunks[i]))
    else [s]
  }

  /** A sheet over the limit always becomes at least two worksheets, named
      `${name}_1`, `${name}_2`, ... and holding at most `maxRows` rows each. */
  lemma SheetPartsNamed(s: Sheet, maxRows: nat)
    requires maxRows > 0 && |s.data| > maxRows
    ensures var parts := SheetParts(s, maxRows);
      && |parts| > 1
      && forall i :: 0 <= i < |parts| ==>
           parts[i].name == s.name + "_" + NatToDec(i + 1) && 0 < |parts[i].data| <= maxRows
  {
  }

  /** The rows of a list of sheets, one sheet after the other. */
  function AllRows(sheets: seq<Sheet>): seq<Row> {
    if sheets == [] then [] else AllRows(sheets[..|sheets| - 1]) + sheets[|sheets| - 1].data
  }

  lemma {:induction false} AllRowsIsConcat(sheets: seq<Sheet>, chunks: seq<seq<Row>>)
    requires |sheets| == |chunks|
    requires forall i :: 0 <= i < |sheets| ==> sheets[i].data == chunks[i]
    ensures AllRows(sheets) == Concat(chunks)
    decreases |sheets|
  {
    if sheets != [] {
      var n := |sheets|;
      AllRowsIsConcat(sheets[..n - 1], chunks[..n - 1]);
      ConcatSnoc(chunks[..n - 1], chunks[n - 1]);
      assert chunks[..n - 1] + [chunks[n - 1]] == chunks;
    }
  }

  lemma {:induction false} ConcatSnoc<T>(chunks: seq<seq<T>>, c: seq<T>)
    ensures Concat(chunks + [c]) == Concat(chunks) + c
    decreases |chunks|
  {
    if chunks == [] {
      assert Concat([c]) == c + Concat([]);
    } else {
      ConcatSnoc(chunks[1..], c);
      assert (chunks + [c])[1..] == chunks[1..] + [c];
    }
  }

  /** Splitting a sheet loses no row, duplicates none and keeps their order. */
  lemma SheetPartsRows(s: Sheet, maxRows: nat)
    requires maxRows > 0
    ensures AllRows(SheetParts(s, maxRows)) == s.data
  {
    var parts := SheetParts(s, maxRows);
    if |s.data| > maxRows {
      var chunks := Chunks(s.data, maxRows);
      AllRowsIsConcat(parts, chunks);
      ConcatChunks(s.data, maxRows);
    } else {
      assert parts[..0] == [];
    }
  }

  /** The worksheets a list of sheets becomes before names are made unique. */
  function Parts(sheets: seq<Sheet>, maxRows: nat): seq<Sheet>
    requires maxRows > 0
  {
    if sheets == [] then []
    else Parts(sheets[..|sheets| - 1], maxRows) + SheetParts(sheets[|sheets| - 1], maxRows)
  }

  /** The names in a list, as a set. */
  function Elems(names: seq<string>): (s: set<string>)
    ensures forall i :: 0 <= i < |names| ==> names[i] in s
    ensures |s| <= |names|
  {
    if names == [] then {} else Elems(names[..|names| - 1]) + {names[|names| - 1]}
  }

  /** The names `makeUniqueName` hands out when called on the parts' names
      in turn. */
  function ChosenNames(parts: seq<Sheet>): (names: seq<string>)
    ensures |names| == |parts|
  {
    if parts == [] then []
    else
      var prev := ChosenNames(parts[..|parts| - 1]);
      prev + [UniqueName(parts[|parts| - 1].name, Elems(prev))]
  }

  /** The worksheets `addWorksheet` builds for the parts under the given names. */
  function Worksheets(names: seq<string>, parts: seq<Sheet>): (ws: seq<Worksheet>)
    requires |names| == |parts|
    ensures |ws| == |parts|
    ensures forall i :: 0 <= i < |parts| ==> ws[i] == SheetOf(names[i], parts[i].data)
  {
    if parts == [] then []
    else
      var n := |parts|;
      Worksheets(names[..n - 1], parts[..n - 1]) + [SheetOf(names[n - 1], parts[n - 1].data)]
  }

  /** The workbook `exportMultipleSheets(sheets)` writes. */
  function Export(sheets: seq<Sheet>, maxRows: nat): seq<Worksheet>
    requires maxRows > 0
  {
    var parts := Parts(sheets, maxRows);
    Worksheets(ChosenNames(parts), parts)
  }

  lemma {:induction false} ChosenNamesPrefix(parts: seq<Sheet>, k: nat)
    requires k <= |parts|
    ensures ChosenNames(parts)[..k] == ChosenNames(parts[..k])
    decreases |parts|
  {
    var n := |parts|;
    if k < n {
      var init := parts[..n - 1];
      var all := ChosenNames(parts);
      ChosenNamesPrefix(init, k);
      assert init[..k] == parts[..k];
      ChosenNamesInit(parts);
      assert all[..k] == all[..n - 1][..k];
    } else {
      assert parts[..k] == parts;
    }
  }

  lemma ChosenNamesLast(parts: seq<Sheet>)
    requires parts != []
    ensures var n := |parts|;
      var prev := ChosenNames(parts[..n - 1]);
      ChosenNames(parts)[n - 1] == UniqueName(parts[n - 1].name, Elems(prev))
  {
  }

  lemma ChosenNamesInit(parts: seq<Sheet>)
    requires parts != []
    ensures ChosenNames(parts)[..|parts| - 1] == ChosenNames(parts[..|parts| - 1])
  {
  }

  /** The i-th name is the one `makeUniqueName` gives the i-th part's name,
      the names before it being taken. */
  lemma ChosenNameAt(parts: seq<Sheet>, i: nat)
    requires i < |parts|
    ensures ChosenNames(parts)[i] == UniqueName(parts[i].name, Elems(ChosenNames(parts[..i])))
  {
    var pre := parts[..i + 1];
    assert pre[..i] == parts[..i] && pre[i] == parts[i];
    assert ChosenNames(parts)[i] == ChosenNames(pre)[i] by {
      ChosenNamesPrefix(parts, i + 1);
    }
    ChosenNamesLast(pre);
  }

  /** No two parts get the same name. */
  lemma {:induction false} ChosenNamesDistinct(parts: seq<Sheet>)
    ensures Distinct(ChosenNames(parts))
    decreases |parts|
  {
    if parts != [] {
      var n := |parts|;
      ChosenNamesDistinct(parts[..n - 1]);
      var prev := ChosenNames(parts[..n - 1]);
      var names := ChosenNames(parts);
      assert names == prev + [names[n - 1]];
      assert names[n - 1] !in Elems(prev);
      forall i, j | 0 <= i < j < n
        ensures names[i] != names[j]
      {
        assert names[i] == prev[i];
        if j < n - 1 {
          assert names[j] == prev[j];
        }
      }
    }
  }

  /** Every name has at most 31 characters while there are fewer than 10^29
      worksheets. */
  lemma ChosenNameLength(parts: seq<Sheet>, i: nat)
    requires i < |parts|
    requires |NatToDec(|parts|)| < MaxSheetNameLength
    ensures |ChosenNames(parts)[i]| <= MaxSheetNameLength
  {
    ChosenNameAt(parts, i);
    var taken := Elems(ChosenNames(parts[..i]));
    NatToDecLengthMonotone(|taken| + 1, |parts|);
    UniqueNameLength(parts[i].name, taken);
  }

  /** The exported workbook: one worksheet per part, in order, holding that
      part's rows, under pairwise distinct names. */
  lemma ExportShape(sheets: seq<Sheet>, maxRows: nat)
    requires maxRows > 0
    ensures var parts := Parts(sheets, maxRows);
      var ws := Export(sheets, maxRows);
      && |ws| == |parts|
      && (forall i :: 0 <= i < |ws| ==> ws[i] == SheetOf(ws[i].name, parts[i].data))
      && (forall i, j :: 0 <= i < j < |ws| ==> ws[i].name != ws[j].name)
  {
    var parts := Parts(sheets, maxRows);
    ChosenNamesDistinct(parts);
  }

  /** The workbook and the namer after the parts `done` have been added
      under the names `names`. */
  predicate Written(ws: seq<Worksheet>, used: set<string>, names: seq<string>, done: seq<Sheet>) {
    && names == ChosenNames(done)
    && ws == Worksheets(names, done)
    && used == Elems(names)
  }

  /** `exportMultipleSheets`: each sheet becomes its worksheets in turn,
      none of them holding more than MaxRowsPerSheet rows. */
  method ExportMultipleSheets(sheets: seq<Sheet>) returns (workbook: Workbook)
    ensures fresh(workbook)
    ensures workbook.worksheets == Export(sheets, MaxRowsPerSheet)
    ensures forall i :: 0 <= i < |workbook.worksheets| ==> |workbook.worksheets[i].rows| <= MaxRowsPerSheet
  {
    workbook := new Workbook();
    var namer := new SheetNamer();
    ghost var names: seq<string> := [];
    var i := 0;
    while i < |sheets|
      invariant 0 <= i <= |sheets|
      invariant fresh(workbook) && fresh(namer)
      invariant Written(workbook.worksheets, namer.usedNames, names, Parts(sheets[..i], MaxRowsPerSheet))
    {
      PartsStep(sheets, i, MaxRowsPerSheet);
      ghost var done := Parts(sheets[..i], MaxRowsPerSheet);
      names := AddSheet(workbook, namer, sheets[i], MaxRowsPerSheet, done, names);
      i := i + 1;
    }
    assert sheets[..i] == sheets;
    ExportWithinLimit(sheets, MaxRowsPerSheet);
  }

  /** Every part holds at most `maxRows` rows. */
  lemma {:induction false} PartsWithinLimit(sheets: seq<Sheet>, maxRows: nat)
    requires maxRows > 0
    ensures forall p :: p in Parts(sheets, maxRows) ==> |p.data| <= maxRows
    decreases |sheets|
  {
    if sheets != [] {
      var s := sheets[|sheets| - 1];
      PartsWithinLimit(sheets[..|sheets| - 1], maxRows);
      if |s.data| > maxRows {
        SheetPartsNamed(s, maxRows);
      }
    }
  }

  /** No exported worksheet holds more than `maxRows` data rows. */
  lemma ExportWithinLimit(sheets: seq<Sheet>, maxRows: nat)
    requires maxRows > 0
    ensures forall i :: 0 <= i < |Export(sheets, maxRows)| ==> |Export(sheets, maxRows)[i].rows| <= maxRows
  {
    var parts := Parts(sheets, maxRows);
    var ws := Export(sheets, maxRows);
    ExportShape(sheets, maxRows);
    PartsWithinLimit(sheets, maxRows);
    forall i | 0 <= i < |ws|
      ensures |ws[i].rows| <= maxRows
    {
      assert parts[i] in parts;
    }
  }

  /** Splitting loses no row, duplicates none and keeps their order: the
      parts' rows, one after the other, are the sheets' rows. */
  lemma {:induction false} PartsRows(sheets: seq<Sheet>, maxRows: nat)
    requires maxRows > 0
    ensures AllRows(Parts(sheets, maxRows)) == AllRows(sheets)
    decreases |sheets|
  {
    if sheets != [] {
      var init := sheets[..|sheets| - 1];
      var s := sheets[|sheets| - 1];
      PartsRows(init, maxRows);
      AllRowsAppend(Parts(init, maxRows), SheetParts(s, maxRows));
      SheetPartsRows(s, maxRows);
    }
  }

  lemma {:induction false} AllRowsAppend(a: seq<Sheet>, b: seq<Sheet>)
    ensures AllRows(a + b) == AllRows(a) + AllRows(b)
    decreases |b|
  {
    if b == [] {
      assert a + b == a;
    } else {
      var bi := b[..|b| - 1];
      AllRowsAppend(a, bi);
      assert (a + b)[..|a + b| - 1] == a + bi;
      assert (a + b)[|a + b| - 1] == b[|b| - 1];
    }
  }

  lemma PartsStep(sheets: seq<Sheet>, i: nat, maxRows: nat)
    requires maxRows > 0 && i < |sheets|
    ensures Parts(sheets[..i + 1], maxRows) == Parts(sheets[..i], maxRows) + SheetParts(sheets[i], maxRows)
  {
    assert sheets[..i + 1][..i] == sheets[..i];
  }

  /** One sheet of `exportMultipleSheets`: a sheet over `maxRows` rows is
      split; any other sheet is added under a unique name made from its own. */
  method AddSheet(workbook: Workbook, namer: SheetNamer, sheet: Sheet, maxRows: nat,
                  ghost done: seq<Sheet>, ghost names: seq<string>)
    returns (ghost names': seq<string>)
    requires maxRows > 0
    requires names == ChosenNames(done)
    requires workbook.worksheets == Worksheets(names, done)
    requires namer.usedNames == Elems(names)
    modifies workbook, namer
    ensures names' == ChosenNames(done + SheetParts(sheet, maxRows))
    ensures workbook.worksheets == Worksheets(names', done + SheetParts(sheet, maxRows))
    ensures namer.usedNames == Elems(names')
  {
    if |sheet.data| > maxRows {
      names' := AddSplitSheet(workbook, namer, sheet, maxRows, done, names);
    } else {
      names' := AddPart(workbook, namer, sheet.name, sheet.data, done, names);
    }
  }

  /** `addWorksheet(workbook, data, makeUniqueName(baseName))`. */
  method AddPart(workbook: Workbook, namer: SheetNamer, baseName: string, data: seq<Row>,
                 ghost done: seq<Sheet>, ghost names: seq<string>)
    returns (ghost names': seq<string>)
    requires names == ChosenNames(done)
    requires workbook.worksheets == Worksheets(names, done)
    requires namer.usedNames == Elems(names)
    modifies workbook, namer
    ensures names' == ChosenNames(done + [Sheet(baseName, data)])
    ensures workbook.worksheets == Worksheets(names', done + [Sheet(baseName, data)])
    ensures namer.usedNames == Elems(names')
  {
    var uniqueName := namer.MakeUniqueName(baseName);
    AddStep(done, Sheet(baseName, data), names, workbook.worksheets, uniqueName);
    workbook.AddWorksheet(data, uniqueName);
    names' := names + [uniqueName];
  }

  /** A sheet over `maxRows` rows: split with `chunkArray`, each chunk added
      under a unique name made from `${name}_${i}`. */
  method AddSplitSheet(workbook: Workbook, namer: SheetNamer, sheet: Sheet, maxRows: nat,
                       ghost done: seq<Sheet>, ghost names: seq<string>)
    returns (ghost names': seq<string>)
    requires maxRows > 0 && |sheet.data| > maxRows
    requires names == ChosenNames(done)
    requires workbook.worksheets == Worksheets(names, done)
    requires namer.usedNames == Elems(names)
    modifies workbook, namer
    ensures names' == ChosenNames(done + SheetParts(sheet, maxRows))
    ensures workbook.worksheets == Worksheets(names', done + SheetParts(sheet, maxRows))
    ensures namer.usedNames == Elems(names')
  {
    ghost var parts := SheetParts(sheet, maxRows);
    var chunks := ChunkArray(sheet.data, maxRows);
    var j := 0;
    names' := names;
    assert done + parts[..0] == done;
    while j < |chunks|
      invariant 0 <= j <= |chunks| == |parts|
      invariant names' == ChosenNames(done + parts[..j])
      invariant workbook.worksheets == Worksheets(names', done + parts[..j])
      invariant namer.usedNames == Elems(names')
    {
      names' := AddChunk(workbook, namer, sheet, maxRows, chunks, j, done, names');
      j := j + 1;
    }
    assert parts[..j] == parts;
  }

  /** One step of the split loop: the j-th chunk under `${name}_${j+1}`. */
  method AddChunk(workbook: Workbook, namer: SheetNamer, sheet: Sheet, maxRows: nat,
                  chunks: seq<seq<Row>>, j: nat, ghost done: seq<Sheet>, ghost names: seq<string>)
    returns (ghost names': seq<string>)
    requires maxRows > 0 && |sheet.data| > maxRows
    requires chunks == Chunks(sheet.data, maxRows) && j < |chunks|
    requires names == ChosenNames(done + SheetParts(sheet, maxRows)[..j])
    requires workbook.worksheets == Worksheets(names, done + SheetParts(sheet, maxRows)[..j])
    requires namer.usedNames == Elems(names)
    modifies workbook, namer
    ensures names' == ChosenNames(done + SheetParts(sheet, maxRows)[..j + 1])
    ensures workbook.worksheets == Worksheets(names', done + SheetParts(sheet, maxRows)[..j + 1])
    ensures namer.usedNames == Elems(names')
  {
    var baseName := if |chunks| > 1 then sheet.name + "_" + NatToDec(j + 1) else sheet.name;
    NextPart(done, sheet, maxRows, j);
    names' := AddPart(workbook, namer, baseName, chunks[j], done + SheetParts(sheet, maxRows)[..j], names);
  }

  /** The j-th part of a split sheet is its j-th chunk under `${name}_${j+1}`. */
  lemma SheetPartAt(s: Sheet, maxRows: nat, j: nat)
    requires maxRows > 0 && |s.data| > maxRows
    requires j < |Chunks(s.data, maxRows)|
    ensures var chunks := Chunks(s.data, maxRows);
      SheetParts(s, maxRows)[j]
        == Sheet(if |chunks| > 1 then s.name + "_" + NatToDec(j + 1) else s.name, chunks[j])
  {
  }

  /** Adding the j-th chunk under `${name}_${j+1}` adds the j-th part. */
  lemma NextPart(done: seq<Sheet>, s: Sheet, maxRows: nat, j: nat)
    requires maxRows > 0 && |s.data| > maxRows
    requires j < |Chunks(s.data, maxRows)|
    ensures var chunks := Chunks(s.data, maxRows);
      var parts := SheetParts(s, maxRows);
      var baseName := if |chunks| > 1 then s.name + "_" + NatToDec(j + 1) else s.name;
      (done + parts[..j]) + [Sheet(baseName, chunks[j])] == done + parts[..j + 1]
  {
    SheetPartAt(s, maxRows, j);
    SnocSlice(done, SheetParts(s, maxRows), j);
  }

  lemma SnocSlice<T>(a: seq<T>, b: seq<T>, j: nat)
    requires j < |b|
    ensures (a + b[..j]) + [b[j]] == a + b[..j + 1]
  {
    assert b[..j + 1] == b[..j] + [b[j]];
  }

  /** One more part, added under the name the namer hands out, extends both
      the names and the worksheets. */
  lemma AddStep(prevParts: seq<Sheet>, p: Sheet, names: seq<string>, ws: seq<Worksheet>, name: string)
    requires names == ChosenNames(prevParts)
    requires ws == Worksheets(names, prevParts)
    requires name == UniqueName(p.name, Elems(names))
    ensures ChosenNames(prevParts + [p]) == names + [name]
    ensures Worksheets(names + [name], prevParts + [p]) == ws + [SheetOf(name, p.data)]
    ensures Elems(names + [name]) == Elems(names) + {name}
  {
    ChosenNamesSnoc(prevParts, p);
    WorksheetsSnoc(names, prevParts, name, p);
    ElemsSnoc(names, name);
  }

  lemma ChosenNamesSnoc(prevParts: seq<Sheet>, p: Sheet)
    ensures var prev := ChosenNames(prevParts);
      ChosenNames(prevParts + [p]) == prev + [UniqueName(p.name, Elems(prev))]
  {
    var all := prevParts + [p];
    assert all[..|all| - 1] == prevParts && all[|all| - 1] == p;
  }

  lemma WorksheetsSnoc(names: seq<string>, prevParts: seq<Sheet>, name: string, p: Sheet)
    requires |names| == |prevParts|
    ensures Worksheets(names + [name], prevParts + [p]) == Worksheets(names, prevParts) + [SheetOf(name, p.data)]
  {
    var all := prevParts + [p];
    var ns := names + [name];
    assert all[..|all| - 1] == prevParts && all[|all| - 1] == p;
    assert ns[..|ns| - 1] == names && ns[|ns| - 1] == name;
  }

  lemma ElemsSnoc(names: seq<string>, name: string)
    ensures Elems(names + [name]) == Elems(names) + {name}
  {
    var ns := names + [name];
    assert ns[..|ns| - 1] == names;
  }
}

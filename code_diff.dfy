// The code comparison page: a line-by-line comparison of two texts (line i
// of the first against line i of the second, no alignment), the four
// counters it keeps, and the `.diff` text it exports.

module CodeComparison {

  import opened Strings
  import opened JsValues

  datatype DiffType = Added | Removed | Modified | Unchanged

  /** One entry of `differences`; `originalContent` is present on modified lines only. */
  datatype CodeDifference = CodeDifference(kind: DiffType, lineNumber: nat, content: string,
                                           originalContent: Option<string>)

  /** The comparison result without the similarity percentage. */
  datatype ComparisonResult = ComparisonResult(differences: seq<CodeDifference>,
                                               addedLines: nat, removedLines: nat,
                                               modifiedLines: nat, unchangedLines: nat)

  function Max(a: nat, b: nat): nat {
    if a >= b then a else b
  }

  /** `lines[i] || ''`: the line, or the empty string past the end. */
  function LineAt(lines: seq<string>, i: nat): string {
    if i < |lines| then lines[i] else ""
  }

  /** The type of entry i: added past the end of the first text, removed
      past the end of the second, else unchanged or modified as the two lines
      agree. */
  function KindAt(lines1: seq<string>, lines2: seq<string>, i: nat): (t: DiffType)
    ensures t == Added <==> i >= |lines1|
    ensures t == Removed <==> |lines2| <= i < |lines1|
    ensures t == Unchanged <==> i < |lines1| && i < |lines2| && lines1[i] == lines2[i]
  {
    if i >= |lines1| then Added
    else if i >= |lines2| then Removed
    else if lines1[i] == lines2[i] then Unchanged
    else Modified
  }

  /** The entry the loop pushes for index i: the modified entry shows the
      second text's line and keeps the first's as `originalContent`. */
  function Classify(lines1: seq<string>, lines2: seq<string>, i: nat): (d: CodeDifference)
    ensures d.kind == KindAt(lines1, lines2, i) && d.lineNumber == i + 1
    ensures d.content == if d.kind == Added || d.kind == Modified then LineAt(lines2, i) else lines1[i]
    ensures d.originalContent == if d.kind == Modified then Some(lines1[i]) else None
  {
    var line1 := LineAt(lines1, i);
    var line2 := LineAt(lines2, i);
    if i >= |lines1| then CodeDifference(Added, i + 1, line2, None)
    else if i >= |lines2| then CodeDifference(Removed, i + 1, line1, None)
    else if line1 == line2 then CodeDifference(Unchanged, i + 1, line1, None)
    else CodeDifference(Modified, i + 1, line2, Some(line1))
  }

  /** The number of indices below n whose entry has type t. */
  function CountKind(lines1: seq<string>, lines2: seq<string>, t: DiffType, n: nat): (c: nat)
    ensures c <= n
  {
    if n == 0 then 0 else CountKind(lines1, lines2, t, n - 1) + (if KindAt(lines1, lines2, n - 1) == t then 1 else 0)
  }

  /** The first n entries of `differences`. */
  function DiffsUpTo(lines1: seq<string>, lines2: seq<string>, n: nat): (ds: seq<CodeDifference>)
    ensures |ds| == n
    ensures forall i :: 0 <= i < n ==> ds[i] == Classify(lines1, lines2, i)
  {
    if n == 0 then [] else DiffsUpTo(lines1, lines2, n - 1) + [Classify(lines1, lines2, n - 1)]
  }

  /** `differences`: one entry per line of the longer text. */
  function Differences(lines1: seq<string>, lines2: seq<string>): seq<CodeDifference> {
    DiffsUpTo(lines1, lines2, Max(|lines1|, |lines2|))
  }

  /** The number of entries of type t among the first n. */
  function CountUpTo(ds: seq<CodeDifference>, t: DiffType, n: nat): (c: nat)
    requires n <= |ds|
    ensures c <= n
  {
    if n == 0 then 0 else CountUpTo(ds, t, n - 1) + (if ds[n - 1].kind == t then 1 else 0)
  }

  /** The number of entries of type t. */
  function CountOf(ds: seq<CodeDifference>, t: DiffType): nat {
    CountUpTo(ds, t, |ds|)
  }

  /** The comparison of two non-blank texts, split into lines. */
  function CompareLines(lines1: seq<string>, lines2: seq<string>): ComparisonResult {
    var ds := Differences(lines1, lines2);
    ComparisonResult(ds, CountOf(ds, Added), CountOf(ds, Removed),
                     CountOf(ds, Modified), CountOf(ds, Unchanged))
  }

  /** The result of `compareCode`, or None when either text is blank
      (the alert branch). */
  function Compare(code1: string, code2: string): Option<ComparisonResult> {
    if IsBlank(code1) || IsBlank(code2) then None
    else Some(CompareLines(Split(code1, '\n'), Split(code2, '\n')))
  }

  /** `compareCode`: the blank check, then the line loop. */
  method CompareCode(code1: string, code2: string) returns (result: Option<ComparisonResult>)
    ensures result == Compare(code1, code2)
    ensures result == None <==> Trim(code1) == "" || Trim(code2) == ""
  {
    TrimEmptyIffBlank(code1);
    TrimEmptyIffBlank(code2);
    if IsBlank(code1) || IsBlank(code2) {
      return None;
    }
    var r := CompareLineByLine(Split(code1, '\n'), Split(code2, '\n'));
    return Some(r);
  }

  /** The loop of `compareCode` over line indices, with its four counters. */
  method CompareLineByLine(lines1: seq<string>, lines2: seq<string>) returns (result: ComparisonResult)
    ensures result == CompareLines(lines1, lines2)
  {
    var differences: seq<CodeDifference> := [];
    var addedLines, removedLines, modifiedLines, unchangedLines := 0, 0, 0, 0;
    var maxLines := Max(|lines1|, |lines2|);
    var i := 0;
    while i < maxLines
      invariant i <= maxLines
      invariant differences == DiffsUpTo(lines1, lines2, i)
      invariant Counted(lines1, lines2, i, addedLines, removedLines, modifiedLines, unchangedLines)
    {
      var line1 := LineAt(lines1, i);
      var line2 := LineAt(lines2, i);
      ghost var before := differences;
      if i >= |lines1| {
        CountedStep(lines1, lines2, i, addedLines, removedLines, modifiedLines, unchangedLines, Added);
        DiffsSnoc(lines1, lines2, i, CodeDifference(Added, i + 1, line2, None));
        differences := differences + [CodeDifference(Added, i + 1, line2, None)];
        addedLines := addedLines + 1;
      } else if i >= |lines2| {
        CountedStep(lines1, lines2, i, addedLines, removedLines, modifiedLines, unchangedLines, Removed);
        DiffsSnoc(lines1, lines2, i, CodeDifference(Removed, i + 1, line1, None));
        differences := differences + [CodeDifference(Removed, i + 1, line1, None)];
        removedLines := removedLines + 1;
      } else if line1 == line2 {
        CountedStep(lines1, lines2, i, addedLines, removedLines, modifiedLines, unchangedLines, Unchanged);
        DiffsSnoc(lines1, lines2, i, CodeDifference(Unchanged, i + 1, line1, None));
        differences := differences + [CodeDifference(Unchanged, i + 1, line1, None)];
        unchangedLines := unchangedLines + 1;
      } else {
        CountedStep(lines1, lines2, i, addedLines, removedLines, modifiedLines, unchangedLines, Modified);
        DiffsSnoc(lines1, lines2, i, CodeDifference(Modified, i + 1, line2, Some(line1)));
        differences := differences + [CodeDifference(Modified, i + 1, line2, Some(line1))];
        modifiedLines := modifiedLines + 1;
      }
      i := i + 1;
    }
    CountOfDifferences(lines1, lines2, maxLines);
    result := ComparisonResult(differences, addedLines, removedLines, modifiedLines, unchangedLines);
  }

  /** The four counters after i indices. */
  predicate Counted(lines1: seq<string>, lines2: seq<string>, i: nat, nAdded: nat, nRemoved: nat, nModified: nat, nUnchanged: nat) {
    && nAdded == CountKind(lines1, lines2, Added, i)
    && nRemoved == CountKind(lines1, lines2, Removed, i)
    && nModified == CountKind(lines1, lines2, Modified, i)
    && nUnchanged == CountKind(lines1, lines2, Unchanged, i)
  }

  /** The entry for index i extends the first i entries. */
  lemma DiffsSnoc(lines1: seq<string>, lines2: seq<string>, i: nat, d: CodeDifference)
    requires d == Classify(lines1, lines2, i)
    ensures DiffsUpTo(lines1, lines2, i + 1) == DiffsUpTo(lines1, lines2, i) + [d]
  {
  }

  /** One more index adds one to the counter of its type. */
  lemma CountedStep(lines1: seq<string>, lines2: seq<string>, i: nat,
                    nAdded: nat, nRemoved: nat, nModified: nat, nUnchanged: nat, k: DiffType)
    requires Counted(lines1, lines2, i, nAdded, nRemoved, nModified, nUnchanged)
    requires KindAt(lines1, lines2, i) == k
    ensures k == Added ==> Counted(lines1, lines2, i + 1, nAdded + 1, nRemoved, nModified, nUnchanged)
    ensures k == Removed ==> Counted(lines1, lines2, i + 1, nAdded, nRemoved + 1, nModified, nUnchanged)
    ensures k == Modified ==> Counted(lines1, lines2, i + 1, nAdded, nRemoved, nModified + 1, nUnchanged)
    ensures k == Unchanged ==> Counted(lines1, lines2, i + 1, nAdded, nRemoved, nModified, nUnchanged + 1)
  {
  }

  /** The four counts add up to the number of entries counted. */
  lemma {:induction false} CountsSum(ds: seq<CodeDifference>, n: nat)
    requires n <= |ds|
    ensures CountUpTo(ds, Added, n) + CountUpTo(ds, Removed, n) + CountUpTo(ds, Modified, n)
            + CountUpTo(ds, Unchanged, n) == n
  {
    if n > 0 {
      CountsSum(ds, n - 1);
    }
  }

  /** Counting the entries of `differences` by type is counting the indices by type. */
  lemma {:induction false} CountUpToKind(lines1: seq<string>, lines2: seq<string>, t: DiffType,
                                         total: nat, n: nat)
    requires n <= total
    ensures CountUpTo(DiffsUpTo(lines1, lines2, total), t, n) == CountKind(lines1, lines2, t, n)
  {
    if n > 0 {
      CountUpToKind(lines1, lines2, t, total, n - 1);
    }
  }

  lemma CountOfDifferences(lines1: seq<string>, lines2: seq<string>, total: nat)
    ensures forall t :: CountOf(DiffsUpTo(lines1, lines2, total), t) == CountKind(lines1, lines2, t, total)
  {
    forall t {
      CountUpToKind(lines1, lines2, t, total, total);
    }
  }

  /** Among the first n indices, the added ones are those at or past the end
      of the first text. */
  lemma {:induction false} AddedUpTo(lines1: seq<string>, lines2: seq<string>, n: nat)
    ensures CountKind(lines1, lines2, Added, n) == if n <= |lines1| then 0 else n - |lines1|
  {
    if n > 0 {
      AddedUpTo(lines1, lines2, n - 1);
    }
  }

  /** Among the first n indices, the removed ones are those past the end of
      the second text but inside the first. */
  lemma {:induction false} RemovedUpTo(lines1: seq<string>, lines2: seq<string>, n: nat)
    ensures CountKind(lines1, lines2, Removed, n)
            == var m := if n <= |lines1| then n else |lines1|;
               if m <= |lines2| then 0 else m - |lines2|
  {
    if n > 0 {
      RemovedUpTo(lines1, lines2, n - 1);
    }
  }

  /** `addedLines = max(0, len2 - len1)` and `removedLines = max(0, len1 - len2)`:
      at most one of them is non-zero, and the counters sum to the entry count. */
  lemma CompareCounters(code1: string, code2: string)
    requires Compare(code1, code2).Some?
    ensures var r := Compare(code1, code2).value;
      var len1 := |Split(code1, '\n')|;
      var len2 := |Split(code2, '\n')|;
      && |r.differences| == Max(len1, len2)
      && r.addedLines == (if len2 > len1 then len2 - len1 else 0)
      && r.removedLines == (if len1 > len2 then len1 - len2 else 0)
      && (r.addedLines == 0 || r.removedLines == 0)
      && r.addedLines + r.removedLines + r.modifiedLines + r.unchangedLines == |r.differences|
  {
    var lines1, lines2 := Split(code1, '\n'), Split(code2, '\n');
    var total := Max(|lines1|, |lines2|);
    CountOfDifferences(lines1, lines2, total);
    AddedUpTo(lines1, lines2, total);
    RemovedUpTo(lines1, lines2, total);
    CountsSum(Differences(lines1, lines2), total);
  }

  /** Every one of the first n indices is unchanged when the texts have the same lines. */
  lemma {:induction false} UnchangedUpTo(lines: seq<string>, n: nat)
    requires n <= |lines|
    ensures CountKind(lines, lines, Unchanged, n) == n
  {
    if n > 0 {
      UnchangedUpTo(lines, n - 1);
    }
  }

  /** Identical non-blank texts give only unchanged entries, so
      `unchangedLines` equals the total (the 100% similarity branch). */
  lemma IdenticalUnchanged(code: string)
    requires !IsBlank(code)
    ensures Compare(code, code).Some?
    ensures var r := Compare(code, code).value;
      && |r.differences| > 0
      && (forall i :: 0 <= i < |r.differences| ==> r.differences[i].kind == Unchanged)
      && r.unchangedLines == |r.differences|
      && r.addedLines == 0 && r.removedLines == 0 && r.modifiedLines == 0
  {
    var lines := Split(code, '\n');
    CountOfDifferences(lines, lines, |lines|);
    UnchangedUpTo(lines, |lines|);
    CountsSum(Differences(lines, lines), |lines|);
  }

  /** The prefix of an exported line: `+`, `-`, `~` or a space. */
  function PrefixOf(t: DiffType): char {
    match t
    case Added => '+'
    case Removed => '-'
    case Modified => '~'
    case Unchanged => ' '
  }

  /** The text of an exported line between its two-character prefix and the
      `": "` that precedes the content. */
  function NumberField(line: string, content: string): string {
    if |line| >= 2 + 2 + |content| then line[2..|line| - |content| - 2] else ""
  }

  /** `${prefix} ${lineNumber.toString().padStart(3, ' ')}: ${content}`. */
  function FormatLine(d: CodeDifference): (line: string)
    ensures |line| >= 2 + 3 + 2 + |d.content|
    ensures line[0] == PrefixOf(d.kind) && line[1] == ' '
    ensures EndsWith(line, ": " + d.content) && EndsWith(line, d.content)
    ensures NumberField(line, d.content) == PadStart(NatToDec(d.lineNumber), 3)
  {
    var number := PadStart(NatToDec(d.lineNumber), 3);
    var line := [PrefixOf(d.kind)] + " " + number + ": " + d.content;
    assert line[|line| - |d.content|..] == d.content;
    line
  }

  /** The field between the prefix and the colon is at least three
      characters wide: spaces, then the decimal digits of the line number. */
  lemma FormatLineNumber(d: CodeDifference)
    ensures var field := NumberField(FormatLine(d), d.content);
      && |field| >= 3
      && exists k ::
           && 0 <= k < |field|
           && (forall i :: 0 <= i < k ==> field[i] == ' ')
           && (forall i :: k <= i < |field| ==> IsDigit(field[i]))
           && DigitsValue(field[k..]) == d.lineNumber
  {
    var field := NumberField(FormatLine(d), d.content);
    var digits := NatToDec(d.lineNumber);
    var k := |field| - |digits|;
    assert field[k..] == digits;
    DigitsValueOfNatToDec(d.lineNumber);
  }

  /** The formatted lines, one per entry. */
  function FormatLines(ds: seq<CodeDifference>): (lines: seq<string>)
    ensures |lines| == |ds| && forall i :: 0 <= i < |ds| ==> lines[i] == FormatLine(ds[i])
  {
    seq(|ds|, i requires 0 <= i < |ds| => FormatLine(ds[i]))
  }

  /** The exported `.diff` text: the formatted lines joined by newlines. */
  function ExportComparison(r: ComparisonResult): string {
    Join(FormatLines(r.differences), "\n")
  }

  /** The prefix character tells the entry type back. */
  function KindOfPrefix(c: char): (t: Option<DiffType>)
    ensures forall k :: PrefixOf(k) == c <==> t == Some(k)
  {
    if c == '+' then Some(Added)
    else if c == '-' then Some(Removed)
    else if c == '~' then Some(Modified)
    else if c == ' ' then Some(Unchanged)
    else None
  }

  /** A formatted line holds no newline when its content holds none. */
  lemma FormatLineNoNewline(d: CodeDifference)
    requires '\n' !in d.content
    ensures '\n' !in FormatLine(d)
  {
    var number := PadStart(NatToDec(d.lineNumber), 3);
    assert forall i :: 0 <= i < |number| ==> number[i] == ' ' || IsDigit(number[i]) by {
      forall i | 0 <= i < |number|
        ensures number[i] == ' ' || IsDigit(number[i])
      {
        var s := NatToDec(d.lineNumber);
        if i >= |number| - |s| {
          assert number[i] == s[i - (|number| - |s|)];
        }
      }
    }
  }

  /** The lines of the text being compared hold no newline, so neither do
      the entries' contents. */
  lemma {:induction false} ContentsNoNewline(code1: string, code2: string)
    requires Compare(code1, code2).Some?
    ensures var ds := Compare(code1, code2).value.differences;
      forall i :: 0 <= i < |ds| ==> '\n' !in ds[i].content
  {
    var lines1, lines2 := Split(code1, '\n'), Split(code2, '\n');
    var ds := Compare(code1, code2).value.differences;
    forall i | 0 <= i < |ds|
      ensures '\n' !in ds[i].content
    {
      if ds[i].kind == Added {
        assert ds[i].content == LineAt(lines2, i);
      }
    }
  }

  /** Splitting the exported text on newlines gives back one line per entry,
      in order, each of which names its type by its first character and ends
      with the entry's content. */
  lemma ExportLines(code1: string, code2: string)
    requires Compare(code1, code2).Some?
    ensures var r := Compare(code1, code2).value;
      var lines := Split(ExportComparison(r), '\n');
      && |lines| == |r.differences|
      && forall i :: 0 <= i < |lines| ==>
           && lines[i] == FormatLine(r.differences[i])
           && KindOfPrefix(lines[i][0]) == Some(r.differences[i].kind)
           && EndsWith(lines[i], r.differences[i].content)
  {
    var r := Compare(code1, code2).value;
    ContentsNoNewline(code1, code2);
    CompareCounters(code1, code2);
    SplitFormatted(r.differences);
  }

  /** The i-th exported line carries the number i + 1, padded to width 3,
      between its prefix and the colon. */
  lemma ExportLineNumbers(code1: string, code2: string)
    requires Compare(code1, code2).Some?
    ensures var r := Compare(code1, code2).value;
      var lines := Split(ExportComparison(r), '\n');
      && |lines| == |r.differences|
      && forall i :: 0 <= i < |lines| ==>
           NumberField(lines[i], r.differences[i].content) == PadStart(NatToDec(i + 1), 3)
  {
    var r := Compare(code1, code2).value;
    ExportLines(code1, code2);
    CompareNumbers(code1, code2);
    NumberedFields(Split(ExportComparison(r), '\n'), r.differences);
  }

  /** The entries of a comparison are numbered 1, 2, ... */
  lemma CompareNumbers(code1: string, code2: string)
    requires Compare(code1, code2).Some?
    ensures var ds := Compare(code1, code2).value.differences;
      forall i :: 0 <= i < |ds| ==> ds[i].lineNumber == i + 1
  {
  }

  /** Entries numbered 1, 2, ... give formatted lines with those numbers. */
  lemma NumberedFields(lines: seq<string>, ds: seq<CodeDifference>)
    requires |lines| == |ds|
    requires forall i :: 0 <= i < |ds| ==> lines[i] == FormatLine(ds[i]) && ds[i].lineNumber == i + 1
    ensures forall i :: 0 <= i < |ds| ==> NumberField(lines[i], ds[i].content) == PadStart(NatToDec(i + 1), 3)
  {
  }

  /** Joining the formatted lines of entries without newlines and splitting
      again gives the formatted lines back. */
  lemma SplitFormatted(ds: seq<CodeDifference>)
    requires |ds| >= 1
    requires forall i :: 0 <= i < |ds| ==> '\n' !in ds[i].content
    ensures Split(Join(FormatLines(ds), "\n"), '\n') == FormatLines(ds)
  {
    var formatted := FormatLines(ds);
    forall i | 0 <= i < |ds|
      ensures '\n' !in formatted[i]
    {
      FormatLineNoNewline(ds[i]);
    }
    SplitJoin(formatted, '\n');
  }
}

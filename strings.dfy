// The JavaScript string operations the application uses: `trim`, `split`
// and `join` with a one-character separator, `includes`, `startsWith`,
// `endsWith`, `padStart` and `toLowerCase`. Strings are sequences of
// characters; `toLowerCase` folds only the ASCII letters.

module Strings {

  /** The characters that `String.prototype.trim` removes. */
  predicate IsWhitespace(c: char) {
    c == ' ' || c == '\t' || c == '\n' || c == '\r'
    || c as int == 0x0B || c as int == 0x0C || c as int == 0xA0 || c as int == 0x1680
    || (0x2000 <= c as int <= 0x200A) || c as int == 0x2028 || c as int == 0x2029
    || c as int == 0x202F || c as int == 0x205F || c as int == 0x3000 || c as int == 0xFEFF
  }

  /** Leading white space removed. */
  function TrimStart(s: string): (r: string)
    ensures |r| <= |s| && r == s[|s| - |r|..]
    ensures r == [] || !IsWhitespace(r[0])
    ensures forall i :: 0 <= i < |s| - |r| ==> IsWhitespace(s[i])
  {
    if s != [] && IsWhitespace(s[0]) then TrimStart(s[1..]) else s
  }

  /** Trailing white space removed. */
  function TrimEnd(s: string): (r: string)
    ensures |r| <= |s| && r == s[..|r|]
    ensures r == [] || !IsWhitespace(r[|r| - 1])
    ensures forall i :: |r| <= i < |s| ==> IsWhitespace(s[i])
  {
    if s != [] && IsWhitespace(s[|s| - 1]) then TrimEnd(s[..|s| - 1]) else s
  }

  /** `s.trim()`. */
  function Trim(s: string): string {
    TrimEnd(TrimStart(s))
  }

  /** `s.trim() === ''` holds exactly when every character is white space. */
  predicate IsBlank(s: string) {
    forall i :: 0 <= i < |s| ==> IsWhitespace(s[i])
  }

  lemma TrimEmptyIffBlank(s: string)
    ensures Trim(s) == "" <==> IsBlank(s)
  {
  }

  /** `parts.join(sep)`. */
  function Join(parts: seq<string>, sep: string): string {
    if parts == [] then ""
    else if |parts| == 1 then parts[0]
    else parts[0] + sep + Join(parts[1..], sep)
  }

  /** Joining ends with the separator and the last part. */
  lemma JoinLast(parts: seq<string>, sep: string)
    requires |parts| > 1
    ensures Join(parts, sep) == Join(parts[..|parts| - 1], sep) + sep + parts[|parts| - 1]
  {
    JoinSnoc(parts[..|parts| - 1], parts[|parts| - 1], sep);
    assert parts[..|parts| - 1] + [parts[|parts| - 1]] == parts;
  }

  lemma {:induction false} JoinSnoc(parts: seq<string>, p: string, sep: string)
    requires |parts| > 0
    ensures Join(parts + [p], sep) == Join(parts, sep) + sep + p
  {
    if |parts| == 1 {
      assert (parts + [p])[1..] == [p];
    } else {
      assert (parts + [p])[1..] == parts[1..] + [p];
      JoinSnoc(parts[1..], p, sep);
    }
  }

  /** `s.split(c)` for a one-character separator: the pieces between the
      occurrences of c, one more piece than there are occurrences. */
  function Split(s: string, c: char): (r: seq<string>)
    ensures |r| >= 1
    ensures forall k :: 0 <= k < |r| ==> c !in r[k]
  {
    if s == [] then [""]
    else if s[0] == c then [""] + Split(s[1..], c)
    else
      var rest := Split(s[1..], c);
      [[s[0]] + rest[0]] + rest[1..]
  }

  /** Joining the pieces of a split with the separator restores the string. */
  lemma {:induction false} JoinSplit(s: string, c: char)
    ensures Join(Split(s, c), [c]) == s
  {
    if s != [] {
      var rest := Split(s[1..], c);
      JoinSplit(s[1..], c);
      if s[0] == c {
        assert Split(s, c) == [""] + rest;
        assert Split(s, c)[1..] == rest;
      } else {
        var r := Split(s, c);
        assert r[1..] == rest[1..];
        if |rest| > 1 {
          assert Join(rest, [c]) == rest[0] + [c] + Join(rest[1..], [c]);
        }
      }
    }
  }

  /** Splitting a join whose pieces avoid the separator gives the pieces back. */
  lemma {:induction false} SplitJoin(parts: seq<string>, c: char)
    requires |parts| >= 1
    requires forall k :: 0 <= k < |parts| ==> c !in parts[k]
    ensures Split(Join(parts, [c]), c) == parts
  {
    if |parts| == 1 {
      SplitNoSeparator(parts[0], c);
    } else {
      SplitJoin(parts[1..], c);
      SplitAround(parts[0], Join(parts[1..], [c]), c);
      assert [parts[0]] + parts[1..] == parts;
    }
  }

  /** A string without the separator splits into itself. */
  lemma {:induction false} SplitNoSeparator(s: string, c: char)
    requires c !in s
    ensures Split(s, c) == [s]
  {
    if s != [] {
      SplitNoSeparator(s[1..], c);
      assert [s[0]] + s[1..] == s;
    }
  }

  /** Splitting `a + c + b` where a has no separator. */
  lemma {:induction false} SplitAround(a: string, b: string, c: char)
    requires c !in a
    ensures Split(a + [c] + b, c) == [a] + Split(b, c)
  {
    if a == [] {
      assert a + [c] + b == [c] + b;
      assert ([c] + b)[1..] == b;
    } else {
      SplitAround(a[1..], b, c);
      var s := a + [c] + b;
      assert s[0] == a[0] && s[1..] == a[1..] + [c] + b;
      assert [a[0]] + a[1..] == a;
    }
  }

  /** Every piece of a list of strings is blank. */
  predicate AllBlank(pieces: seq<string>) {
    forall k :: 0 <= k < |pieces| ==> IsBlank(pieces[k])
  }

  /** Every character is white space or the separator c. */
  predicate BlankOrSeparator(s: string, c: char) {
    forall i :: 0 <= i < |s| ==> IsWhitespace(s[i]) || s[i] == c
  }

  lemma BlankCons(ch: char, t: string)
    ensures IsBlank([ch] + t) <==> IsWhitespace(ch) && IsBlank(t)
  {
    var s := [ch] + t;
    assert s[0] == ch;
    assert forall i :: 0 <= i < |t| ==> s[i + 1] == t[i];
    assert forall i :: 1 <= i < |s| ==> s[i] == t[i - 1];
  }

  lemma AllBlankCons(p: string, ps: seq<string>)
    ensures AllBlank([p] + ps) <==> IsBlank(p) && AllBlank(ps)
  {
    var r := [p] + ps;
    assert r[0] == p;
    assert forall k :: 0 <= k < |ps| ==> r[k + 1] == ps[k];
    assert forall k :: 1 <= k < |r| ==> r[k] == ps[k - 1];
  }

  lemma BlankOrSeparatorCons(s: string, c: char)
    requires s != []
    ensures BlankOrSeparator(s, c) <==> (IsWhitespace(s[0]) || s[0] == c) && BlankOrSeparator(s[1..], c)
  {
    assert forall i :: 1 <= i < |s| ==> s[i] == s[1..][i - 1];
  }

  /** Every piece of a split is blank exactly when every character of the
      string is white space or the separator. */
  lemma {:induction false} SplitAllBlank(s: string, c: char)
    requires !IsWhitespace(c)
    ensures AllBlank(Split(s, c)) <==> BlankOrSeparator(s, c)
  {
    if s != [] {
      SplitAllBlank(s[1..], c);
      BlankOrSeparatorCons(s, c);
      var rest := Split(s[1..], c);
      if s[0] == c {
        AllBlankCons("", rest);
        assert IsBlank("");
      } else {
        assert rest == [rest[0]] + rest[1..];
        AllBlankCons(rest[0], rest[1..]);
        BlankCons(s[0], rest[0]);
        AllBlankCons([s[0]] + rest[0], rest[1..]);
      }
    }
  }

  /** The last piece of `s.split(c)`: `s.split(c).pop()`. */
  function LastPiece(s: string, c: char): (r: string)
    ensures c !in r
  {
    var pieces := Split(s, c);
    pieces[|pieces| - 1]
  }

  /** The last piece is what follows the last separator, or all of s. */
  lemma LastPieceIsTail(s: string, c: char)
    ensures |LastPiece(s, c)| <= |s|
    ensures LastPiece(s, c) == s[|s| - |LastPiece(s, c)|..]
    ensures |LastPiece(s, c)| < |s| ==> s[|s| - |LastPiece(s, c)| - 1] == c
    ensures |LastPiece(s, c)| == |s| <==> c !in s
  {
    LastPieceTail(s, c);
  }

  /** lp is the end of s after its last c, or all of s when it has none. */
  predicate IsLastTail(s: string, lp: string, c: char) {
    && |lp| <= |s|
    && lp == s[|s| - |lp|..]
    && (|lp| < |s| ==> s[|s| - |lp| - 1] == c)
    && (|lp| == |s| <==> c !in s)
  }

  lemma {:induction false} LastPieceTail(s: string, c: char)
    ensures IsLastTail(s, LastPiece(s, c), c)
  {
    if s != [] {
      var t := s[1..];
      LastPieceTail(t, c);
      if s[0] == c {
        LastPieceAfterSeparator(s, c);
      } else if |Split(t, c)| == 1 {
        LastPieceWhole(s, c);
      } else {
        LastPieceOfTail(s, c);
      }
    }
  }

  lemma LastPieceAfterSeparator(s: string, c: char)
    requires s != [] && s[0] == c
    requires IsLastTail(s[1..], LastPiece(s[1..], c), c)
    ensures IsLastTail(s, LastPiece(s, c), c)
  {
    var t := s[1..];
    var lp := LastPiece(t, c);
    assert Split(s, c) == [""] + Split(t, c);
    assert LastPiece(s, c) == lp;
    assert s[|s| - |lp|..] == t[|t| - |lp|..];
    if |lp| < |t| {
      assert s[|s| - |lp| - 1] == t[|t| - |lp| - 1];
    }
    assert s[0] == c && |lp| < |s|;
  }

  lemma LastPieceWhole(s: string, c: char)
    requires s != [] && s[0] != c && |Split(s[1..], c)| == 1
    ensures IsLastTail(s, LastPiece(s, c), c)
  {
    var t := s[1..];
    var rest := Split(t, c);
    assert s == [s[0]] + t;
    JoinSplit(t, c);
    assert rest[0] == t && c !in t;
    assert LastPiece(s, c) == [s[0]] + rest[0];
  }

  lemma LastPieceOfTail(s: string, c: char)
    requires s != [] && s[0] != c && |Split(s[1..], c)| > 1
    requires IsLastTail(s[1..], LastPiece(s[1..], c), c)
    ensures IsLastTail(s, LastPiece(s, c), c)
  {
    var t := s[1..];
    var lp := LastPiece(t, c);
    assert s == [s[0]] + t;
    assert LastPiece(s, c) == lp;
    assert c in t by {
      if c !in t { SplitNoSeparator(t, c); }
    }
    assert |lp| < |t|;
    assert s[|s| - |lp|..] == t[|t| - |lp|..];
    assert s[|s| - |lp| - 1] == t[|t| - |lp| - 1];
  }

  /** `t` occurs in `s` starting at position i. */
  predicate OccursAt(s: string, t: string, i: nat) {
    i + |t| <= |s| && s[i..i + |t|] == t
  }

  /** `s.startsWith(t)`. */
  predicate StartsWith(s: string, t: string) {
    |t| <= |s| && s[..|t|] == t
  }

  /** `s.endsWith(t)`. */
  predicate EndsWith(s: string, t: string) {
    |t| <= |s| && s[|s| - |t|..] == t
  }

  /** `s.includes(t)`. */
  predicate Contains(s: string, t: string)
    decreases |s|
  {
    StartsWith(s, t) || (s != [] && Contains(s[1..], t))
  }

  /** includes holds exactly when t occurs at some position of s. */
  lemma {:induction false} ContainsIffOccurs(s: string, t: string)
    ensures Contains(s, t) <==> exists i: nat :: OccursAt(s, t, i)
    decreases |s|
  {
    if Contains(s, t) {
      if StartsWith(s, t) {
        assert OccursAt(s, t, 0);
      } else {
        ContainsIffOccurs(s[1..], t);
        var i: nat :| OccursAt(s[1..], t, i);
        assert s[i + 1..i + 1 + |t|] == s[1..][i..i + |t|];
        assert OccursAt(s, t, i + 1);
      }
    }
    if exists i: nat :: OccursAt(s, t, i) {
      var i: nat :| OccursAt(s, t, i);
      if i == 0 {
        assert StartsWith(s, t);
      } else {
        assert s[1..][i - 1..i - 1 + |t|] == s[i..i + |t|];
        assert OccursAt(s[1..], t, i - 1);
        ContainsIffOccurs(s[1..], t);
      }
    }
  }

  /** A string contains itself. */
  lemma ContainsSelf(s: string)
    ensures Contains(s, s)
  {
  }

  /** `c.toLowerCase()` on one character (ASCII letters only). */
  function LowerChar(c: char): (d: char)
    ensures 'A' <= c <= 'Z' ==> 'a' <= d <= 'z'
    ensures !('A' <= c <= 'Z') ==> d == c
  {
    if 'A' <= c <= 'Z' then (c as int + 32) as char else c
  }

  /** `s.toLowerCase()`. */
  function ToLower(s: string): (r: string)
    ensures |r| == |s|
    ensures forall i :: 0 <= i < |s| ==> r[i] == LowerChar(s[i])
  {
    if s == [] then [] else [LowerChar(s[0])] + ToLower(s[1..])
  }

  /** Lowering twice is lowering once. */
  lemma ToLowerIdempotent(s: string)
    ensures ToLower(ToLower(s)) == ToLower(s)
  {
    assert forall i :: 0 <= i < |s| ==> LowerChar(LowerChar(s[i])) == LowerChar(s[i]);
  }

  /** `s.padStart(n, ' ')`. */
  function PadStart(s: string, n: nat): (r: string)
    ensures |r| == if |s| >= n then |s| else n
    ensures EndsWith(r, s)
    ensures forall i :: 0 <= i < |r| - |s| ==> r[i] == ' '
  {
    if |s| >= n then s else seq(n - |s|, _ => ' ') + s
  }

  /** `a < b` on two strings: lexicographic order of the character codes. */
  predicate StrLess(a: string, b: string) {
    if a == [] then b != []
    else if b == [] then false
    else if a[0] != b[0] then a[0] < b[0]
    else StrLess(a[1..], b[1..])
  }

  lemma {:induction false} StrLessIrreflexive(a: string)
    ensures !StrLess(a, a)
  {
    if a != [] {
      StrLessIrreflexive(a[1..]);
    }
  }

  /** Two different strings are ordered one way or the other, never both. */
  lemma {:induction false} StrLessTrichotomy(a: string, b: string)
    ensures a == b || StrLess(a, b) || StrLess(b, a)
    ensures !(StrLess(a, b) && StrLess(b, a))
  {
    if a != [] && b != [] && a[0] == b[0] {
      StrLessTrichotomy(a[1..], b[1..]);
      if a[1..] == b[1..] {
        assert a == [a[0]] + a[1..] && b == [b[0]] + b[1..];
      }
    }
  }

  lemma {:induction false} StrLessTransitive(a: string, b: string, c: string)
    requires StrLess(a, b) && StrLess(b, c)
    ensures StrLess(a, c)
  {
    if a != [] && b != [] && c != [] && a[0] == b[0] && b[0] == c[0] {
      StrLessTransitive(a[1..], b[1..], c[1..]);
    }
  }
}

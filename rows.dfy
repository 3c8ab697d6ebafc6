// A data row as the comparator and the transforms see it: a JavaScript
// object with string keys, enumerated in a fixed order (`Object.keys`), and
// the value stored under each key. Reading a key the row does not have gives
// `undefined`.

module Rows {

  import opened JsValues

  datatype Row = Row(keys: seq<string>, cells: map<string, Value>)

  predicate Distinct<T(==)>(s: seq<T>) {
    forall i, j :: 0 <= i < j < |s| ==> s[i] != s[j]
  }

  /** The enumeration order lists each own key exactly once. */
  predicate WellFormed(r: Row) {
    Distinct(r.keys) && r.cells.Keys == set k | k in r.keys
  }

  /** `row[col]`. */
  function Get(r: Row, col: string): (v: Value)
    ensures col !in r.cells ==> v == Undef
  {
    if col in r.cells then r.cells[col] else Undef
  }

  /** `keys.indexOf(k)`: the first position of k, or -1. */
  function IndexOf(keys: seq<string>, k: string): (i: int)
    ensures -1 <= i < |keys|
    ensures i == -1 <==> k !in keys
    ensures 0 <= i ==> keys[i] == k && k !in keys[..i]
  {
    if keys == [] then -1
    else if keys[0] == k then 0
    else
      var j := IndexOf(keys[1..], k);
      assert j >= 0 ==> keys[1..][..j] == keys[1..j + 1];
      if j < 0 then -1 else j + 1
  }

  /** `Object.values(row)[i]`: undefined outside the row. */
  function ValueAt(r: Row, i: int): Value {
    if 0 <= i < |r.keys| then Get(r, r.keys[i]) else Undef
  }

  /** Reading by position at the key's index is reading by name. */
  lemma ValueAtIndexOf(r: Row, col: string)
    requires col in r.keys
    ensures ValueAt(r, IndexOf(r.keys, col)) == Get(r, col)
  {
  }

  /** The sequence with every occurrence of x removed (`filter(y => y !== x)`):
      the other elements stay, as often as they were there and in their order. */
  function Remove(s: seq<string>, x: string): (r: seq<string>)
    ensures forall y :: y in r <==> y in s && y != x
    ensures multiset(r) == multiset(s)[x := 0]
    ensures IsSubsequence(r, s)
    ensures x !in s ==> r == s
    ensures Distinct(s) ==> Distinct(r)
    ensures |r| <= |s|
  {
    if s == [] then []
    else
      var rest := Remove(s[1..], x);
      RemoveStep(s, x, rest);
      if s[0] == x then rest else [s[0]] + rest
  }

  /** The contract of `Remove` carries over from the tail to the whole. */
  lemma RemoveStep(s: seq<string>, x: string, rest: seq<string>)
    requires s != []
    requires forall y :: y in rest <==> y in s[1..] && y != x
    requires multiset(rest) == multiset(s[1..])[x := 0]
    requires IsSubsequence(rest, s[1..])
    requires x !in s[1..] ==> rest == s[1..]
    requires Distinct(s[1..]) ==> Distinct(rest)
    requires |rest| <= |s| - 1
    ensures var r := if s[0] == x then rest else [s[0]] + rest;
      && (forall y :: y in r <==> y in s && y != x)
      && multiset(r) == multiset(s)[x := 0]
      && IsSubsequence(r, s)
      && (x !in s ==> r == s)
      && (Distinct(s) ==> Distinct(r))
      && |r| <= |s|
  {
    var tail := s[1..];
    assert s == [s[0]] + tail;
    if s[0] == x {
      RemoveDropped(s[0], tail, rest);
    } else {
      RemoveKept(s[0], tail, x, rest);
    }
  }

  lemma RemoveDropped(x: string, tail: seq<string>, rest: seq<string>)
    requires multiset(rest) == multiset(tail)[x := 0]
    requires IsSubsequence(rest, tail)
    ensures multiset(rest) == multiset([x] + tail)[x := 0]
    ensures IsSubsequence(rest, [x] + tail)
  {
    assert multiset([x] + tail) == multiset{x} + multiset(tail);
    SubsequenceCons(rest, tail, x);
  }

  lemma RemoveKept(y: string, tail: seq<string>, x: string, rest: seq<string>)
    requires y != x
    requires forall z :: z in rest ==> z in tail
    requires multiset(rest) == multiset(tail)[x := 0]
    requires IsSubsequence(rest, tail)
    requires Distinct(tail) ==> Distinct(rest)
    ensures multiset([y] + rest) == multiset([y] + tail)[x := 0]
    ensures IsSubsequence([y] + rest, [y] + tail)
    ensures Distinct([y] + tail) ==> Distinct([y] + rest)
  {
    assert multiset([y] + tail) == multiset{y} + multiset(tail);
    assert multiset([y] + rest) == multiset{y} + multiset(rest);
    SubsequenceCons(rest, tail, y);
    if Distinct([y] + tail) {
      assert tail == ([y] + tail)[1..];
      assert y !in tail;
      DistinctCons(y, rest);
    }
  }

  lemma DistinctCons(x: string, s: seq<string>)
    requires Distinct(s) && x !in s
    ensures Distinct([x] + s)
  {
    forall i, j | 0 <= i < j < |s| + 1
      ensures ([x] + s)[i] != ([x] + s)[j]
    {
      if i == 0 {
        assert ([x] + s)[j] == s[j - 1];
      } else {
        assert ([x] + s)[i] == s[i - 1] && ([x] + s)[j] == s[j - 1];
      }
    }
  }

  /** Removing x from a sequence with one more element at the end. */
  lemma {:induction false} RemoveSnoc(s: seq<string>, y: string, x: string)
    ensures Remove(s + [y], x) == if y == x then Remove(s, x) else Remove(s, x) + [y]
  {
    if s == [] {
      assert [y][1..] == [];
    } else {
      assert (s + [y])[1..] == s[1..] + [y];
      RemoveSnoc(s[1..], y, x);
    }
  }

  /** `row[k] = v` on a copy: an existing key keeps its place, a new key is
      enumerated last. */
  function Set(r: Row, k: string, v: Value): (r': Row)
    ensures WellFormed(r) ==> WellFormed(r')
    ensures k in r'.cells && r'.cells[k] == v
    ensures forall c :: c != k ==> Get(r', c) == Get(r, c) && (c in r'.cells <==> c in r.cells)
    ensures WellFormed(r) ==> r'.keys == if k in r.keys then r.keys else r.keys + [k]
  {
    if k in r.cells then Row(r.keys, r.cells[k := v])
    else Row(r.keys + [k], r.cells[k := v])
  }

  /** `delete row[k]` on a copy. */
  function Delete(r: Row, k: string): (r': Row)
    ensures WellFormed(r) ==> WellFormed(r')
    ensures k !in r'.cells && k !in r'.keys && Get(r', k) == Undef
    ensures forall c :: c != k ==> Get(r', c) == Get(r, c) && (c in r'.cells <==> c in r.cells)
    ensures r'.keys == Remove(r.keys, k)
  {
    Row(Remove(r.keys, k), r.cells - {k})
  }

  /** a can be obtained from b by leaving elements out: what is kept keeps
      its order. */
  predicate IsSubsequence<T(==)>(a: seq<T>, b: seq<T>)
    decreases |b|
  {
    a == [] ||
    (b != [] &&
      ((a[|a| - 1] == b[|b| - 1] && IsSubsequence(a[..|a| - 1], b[..|b| - 1]))
       || IsSubsequence(a, b[..|b| - 1])))
  }

  lemma SubsequenceOfPrefix<T>(a: seq<T>, b: seq<T>)
    requires b != [] && IsSubsequence(a, b[..|b| - 1])
    ensures IsSubsequence(a, b)
  {
  }

  /** Putting an element in front of b keeps a subsequence of b one, and
      putting it in front of both gives a subsequence again. */
  lemma {:induction false} SubsequenceCons<T>(a: seq<T>, b: seq<T>, x: T)
    requires IsSubsequence(a, b)
    ensures IsSubsequence(a, [x] + b)
    ensures IsSubsequence([x] + a, [x] + b)
    decreases |b|
  {
    var xb := [x] + b;
    var xa := [x] + a;
    if b == [] {
      assert a == [] && xa == [x] && xb == [x];
      assert xb[..0] == xa[..0];
    } else {
      var bi := b[..|b| - 1];
      assert xb[..|xb| - 1] == [x] + bi;
      assert xb[|xb| - 1] == b[|b| - 1];
      if a == [] {
        SubsequenceCons(a, bi, x);
        assert xa == [x] + [];
      } else if a[|a| - 1] == b[|b| - 1] && IsSubsequence(a[..|a| - 1], bi) {
        SubsequenceCons(a[..|a| - 1], bi, x);
        assert xa[..|xa| - 1] == [x] + a[..|a| - 1];
      } else {
        SubsequenceCons(a, bi, x);
      }
    }
  }

  /** A subsequence is never longer than the sequence. */
  lemma {:induction false} SubsequenceLength<T>(a: seq<T>, b: seq<T>)
    requires IsSubsequence(a, b)
    ensures |a| <= |b|
    decreases |b|
  {
    if a != [] {
      if a[|a| - 1] == b[|b| - 1] && IsSubsequence(a[..|a| - 1], b[..|b| - 1]) {
        SubsequenceLength(a[..|a| - 1], b[..|b| - 1]);
      } else {
        SubsequenceLength(a, b[..|b| - 1]);
      }
    }
  }

  /** A subsequence as long as the sequence is the sequence. */
  lemma {:induction false} SubsequenceFull<T>(a: seq<T>, b: seq<T>)
    requires IsSubsequence(a, b) && |a| == |b|
    ensures a == b
    decreases |b|
  {
    if a != [] {
      if a[|a| - 1] == b[|b| - 1] && IsSubsequence(a[..|a| - 1], b[..|b| - 1]) {
        SubsequenceFull(a[..|a| - 1], b[..|b| - 1]);
        assert a == a[..|a| - 1] + [a[|a| - 1]];
        assert b == b[..|b| - 1] + [b[|b| - 1]];
      } else {
        SubsequenceLength(a, b[..|b| - 1]);
      }
    }
  }
}

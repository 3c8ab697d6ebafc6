// The stable sort that `Array.prototype.sort` performs, for a comparator
// given as `le(a, b)`: "a may stay in front of b", that is, the source's
// comparator returns a value <= 0 for (a, b). The model sorts by insertion:
// each element, taken in input order, goes after every element already
// placed that may stay in front of it.

module Sorting {

  /** A comparator is consistent on the elements of s when it is total and
      transitive there; only then does the sort promise an order. */
  ghost predicate TotalPreorderOn<T>(s: seq<T>, le: (T, T) -> bool) {
    && (forall a, b :: a in s && b in s ==> le(a, b) || le(b, a))
    && (forall a, b, c :: a in s && b in s && c in s && le(a, b) && le(b, c) ==> le(a, c))
  }

  ghost predicate SortedBy<T>(s: seq<T>, le: (T, T) -> bool) {
    forall i, j :: 0 <= i < j < |s| ==> le(s[i], s[j])
  }

  /** The comparator calls a and b equal. */
  predicate Tied<T>(a: T, b: T, le: (T, T) -> bool) {
    le(a, b) && le(b, a)
  }

  /** The elements of s the comparator calls equal to x, in order. */
  function TiedWith<T>(s: seq<T>, x: T, le: (T, T) -> bool): seq<T> {
    if s == [] then []
    else (if Tied(s[0], x, le) then [s[0]] else []) + TiedWith(s[1..], x, le)
  }

  /** Put x after the leading elements that may stay in front of it. */
  function Insert<T>(x: T, s: seq<T>, le: (T, T) -> bool): (r: seq<T>)
    ensures |r| == |s| + 1
  {
    if s == [] then [x]
    else if le(s[0], x) then [s[0]] + Insert(x, s[1..], le)
    else [x] + s
  }

  /** Inserting adds x and loses nothing. */
  lemma {:induction false} InsertMultiset<T>(x: T, s: seq<T>, le: (T, T) -> bool)
    ensures multiset(Insert(x, s, le)) == multiset(s) + multiset{x}
  {
    if s != [] && le(s[0], x) {
      InsertMultiset(x, s[1..], le);
      assert s == [s[0]] + s[1..];
    }
  }

  /** `[...s].sort(cmp)`. */
  function SortBy<T>(s: seq<T>, le: (T, T) -> bool): (r: seq<T>)
    ensures multiset(r) == multiset(s)
    ensures |r| == |s|
  {
    if s == [] then []
    else
      assert s == s[..|s| - 1] + [s[|s| - 1]];
      InsertMultiset(s[|s| - 1], SortBy(s[..|s| - 1], le), le);
      Insert(s[|s| - 1], SortBy(s[..|s| - 1], le), le)
  }

  /** The proofs below fix a domain d on which the comparator is
      consistent, so that recursion does not have to re-establish it. */
  ghost predicate PreorderOn<T>(d: set<T>, le: (T, T) -> bool) {
    && (forall a, b {:trigger le(a, b)} :: a in d && b in d ==> le(a, b) || le(b, a))
    && (forall a, b, c {:trigger le(a, b), le(b, c)} :: a in d && b in d && c in d && le(a, b) && le(b, c) ==> le(a, c))
  }

  ghost predicate Within<T>(s: seq<T>, d: set<T>) {
    forall k :: 0 <= k < |s| ==> s[k] in d
  }

  ghost function Elems<T>(s: seq<T>): set<T> {
    set z | z in s
  }

  lemma PreorderOfSeq<T>(s: seq<T>, le: (T, T) -> bool)
    requires TotalPreorderOn(s, le)
    ensures PreorderOn(Elems(s), le) && Within(s, Elems(s))
  {
  }

  lemma {:induction false} InsertWithin<T>(x: T, s: seq<T>, le: (T, T) -> bool, d: set<T>)
    requires x in d && Within(s, d)
    ensures Within(Insert(x, s, le), d)
  {
    if s != [] && le(s[0], x) {
      InsertWithin(x, s[1..], le, d);
    }
  }

  lemma {:induction false} SortByWithin<T>(s: seq<T>, le: (T, T) -> bool, d: set<T>)
    requires Within(s, d)
    ensures Within(SortBy(s, le), d)
  {
    if s != [] {
      SortByWithin(s[..|s| - 1], le, d);
      InsertWithin(s[|s| - 1], SortBy(s[..|s| - 1], le), le, d);
    }
  }

  /** Whatever every element of s and x may follow, every element of
      Insert(x, s) may follow. */
  lemma {:induction false} InsertBelow<T>(b: T, x: T, s: seq<T>, le: (T, T) -> bool)
    requires le(b, x) && forall k :: 0 <= k < |s| ==> le(b, s[k])
    ensures forall j :: 0 <= j < |Insert(x, s, le)| ==> le(b, Insert(x, s, le)[j])
  {
    if s != [] && le(s[0], x) {
      InsertBelow(b, x, s[1..], le);
      assert Insert(x, s, le) == [s[0]] + Insert(x, s[1..], le);
    }
  }

  lemma TiedWithCons<T>(h: T, t: seq<T>, x: T, le: (T, T) -> bool)
    ensures TiedWith([h] + t, x, le) == (if Tied(h, x, le) then [h] else []) + TiedWith(t, x, le)
  {
    assert ([h] + t)[1..] == t;
  }

  lemma SortedTail<T>(s: seq<T>, le: (T, T) -> bool)
    requires s != [] && SortedBy(s, le)
    ensures SortedBy(s[1..], le)
  {
    forall i, j | 0 <= i < j < |s| - 1 ensures le(s[1..][i], s[1..][j]) {
      assert s[1..][i] == s[i + 1] && s[1..][j] == s[j + 1];
    }
  }

  lemma SortedCons<T>(h: T, t: seq<T>, le: (T, T) -> bool)
    requires SortedBy(t, le) && forall j :: 0 <= j < |t| ==> le(h, t[j])
    ensures SortedBy([h] + t, le)
  {
    var r := [h] + t;
    forall i, j | 0 <= i < j < |r| ensures le(r[i], r[j]) {
      assert r[j] == t[j - 1];
      if i > 0 { assert r[i] == t[i - 1]; }
    }
  }

  lemma {:induction false} InsertSortedOn<T>(x: T, s: seq<T>, le: (T, T) -> bool, d: set<T>)
    requires PreorderOn(d, le) && x in d && Within(s, d)
    requires SortedBy(s, le)
    ensures SortedBy(Insert(x, s, le), le)
  {
    if s != [] {
      SortedTail(s, le);
      if le(s[0], x) {
        var t := s[1..];
        InsertSortedOn(x, t, le, d);
        assert forall k :: 0 <= k < |t| ==> le(s[0], t[k]) by {
          forall k | 0 <= k < |t| ensures le(s[0], t[k]) { assert t[k] == s[k + 1]; }
        }
        InsertBelow(s[0], x, t, le);
        SortedCons(s[0], Insert(x, t, le), le);
      } else {
        assert s[0] in d;
        assert le(x, s[0]);
        forall j | 0 <= j < |s| ensures le(x, s[j]) {
          if j > 0 {
            assert le(s[0], s[j]) && s[j] in d;
          }
        }
        SortedCons(x, s, le);
      }
    }
  }

  lemma {:induction false} SortBySortedOn<T>(s: seq<T>, le: (T, T) -> bool, d: set<T>)
    requires PreorderOn(d, le) && Within(s, d)
    ensures SortedBy(SortBy(s, le), le)
  {
    if s != [] {
      var init := s[..|s| - 1];
      SortBySortedOn(init, le, d);
      SortByWithin(init, le, d);
      InsertSortedOn(s[|s| - 1], SortBy(init, le), le, d);
    }
  }

  /** The sort orders the elements when the comparator is consistent on them. */
  lemma SortBySorted<T>(s: seq<T>, le: (T, T) -> bool)
    requires TotalPreorderOn(s, le)
    ensures SortedBy(SortBy(s, le), le)
  {
    PreorderOfSeq(s, le);
    SortBySortedOn(s, le, Elems(s));
  }

  lemma {:induction false} TiedWithAppend<T>(s: seq<T>, y: T, x: T, le: (T, T) -> bool)
    ensures TiedWith(s + [y], x, le) == TiedWith(s, x, le) + (if Tied(y, x, le) then [y] else [])
  {
    if s == [] {
      TiedWithCons(y, [], x, le);
      assert [y] + [] == [y];
    } else {
      assert s + [y] == [s[0]] + (s[1..] + [y]);
      TiedWithCons(s[0], s[1..] + [y], x, le);
      TiedWithAppend(s[1..], y, x, le);
      assert s == [s[0]] + s[1..];
      TiedWithCons(s[0], s[1..], x, le);
    }
  }

  lemma {:induction false} TiedWithNone<T>(s: seq<T>, x: T, le: (T, T) -> bool)
    requires forall k :: 0 <= k < |s| ==> !Tied(s[k], x, le)
    ensures TiedWith(s, x, le) == []
  {
    if s != [] {
      TiedWithNone(s[1..], x, le);
    }
  }

  /** When x goes in front, no element of s is tied with anything tied with x. */
  lemma NoneTiedAfterFront<T>(x: T, s: seq<T>, y: T, le: (T, T) -> bool, d: set<T>)
    requires PreorderOn(d, le) && x in d && y in d && Within(s, d)
    requires SortedBy(s, le)
    requires s != [] && !le(s[0], x) && Tied(x, y, le)
    ensures TiedWith(s, y, le) == []
  {
    assert s[0] in d;
    forall k | 0 <= k < |s| ensures !Tied(s[k], y, le) {
      if Tied(s[k], y, le) {
        assert false;
      }
    }
    TiedWithNone(s, y, le);
  }

  /** When x goes in front of s, it is the first of the elements tied with y. */
  lemma InsertTiedFront<T>(x: T, s: seq<T>, y: T, le: (T, T) -> bool, d: set<T>)
    requires PreorderOn(d, le) && x in d && y in d && Within(s, d)
    requires SortedBy(s, le)
    requires s != [] && !le(s[0], x)
    ensures TiedWith([x] + s, y, le) == TiedWith(s, y, le) + (if Tied(x, y, le) then [x] else [])
  {
    TiedWithCons(x, s, y, le);
    if Tied(x, y, le) {
      NoneTiedAfterFront(x, s, y, le, d);
    }
  }

  lemma {:induction false} InsertTied<T>(x: T, s: seq<T>, y: T, le: (T, T) -> bool, d: set<T>)
    requires PreorderOn(d, le) && x in d && y in d && Within(s, d)
    requires SortedBy(s, le)
    ensures TiedWith(Insert(x, s, le), y, le) == TiedWith(s, y, le) + (if Tied(x, y, le) then [x] else [])
  {
    if s != [] {
      if le(s[0], x) {
        var t := s[1..];
        SortedTail(s, le);
        InsertTied(x, t, y, le, d);
        var rt := Insert(x, t, le);
        TiedWithCons(s[0], rt, y, le);
        assert s == [s[0]] + t;
        TiedWithCons(s[0], t, y, le);
        var head := if Tied(s[0], y, le) then [s[0]] else [];
        var tail := if Tied(x, y, le) then [x] else [];
        assert head + (TiedWith(t, y, le) + tail) == (head + TiedWith(t, y, le)) + tail;
      } else {
        InsertTiedFront(x, s, y, le, d);
      }
    }
  }

  lemma {:induction false} SortByStableOn<T>(s: seq<T>, x: T, le: (T, T) -> bool, d: set<T>)
    requires PreorderOn(d, le) && x in d && Within(s, d)
    ensures TiedWith(SortBy(s, le), x, le) == TiedWith(s, x, le)
  {
    if s != [] {
      var init := s[..|s| - 1];
      var y := s[|s| - 1];
      var t := SortBy(init, le);
      WithinInit(s, d);
      SplitLast(s);
      assert SortBy(s, le) == Insert(y, t, le);
      SortByStableOn(init, x, le, d);
      SortBySortedOn(init, le, d);
      SortByWithin(init, le, d);
      InsertTied(y, t, x, le, d);
      TiedWithAppend(init, y, x, le);
    }
  }

  /** A sequence is its front followed by its last element. */
  lemma SplitLast<T>(s: seq<T>)
    requires s != []
    ensures s[..|s| - 1] + [s[|s| - 1]] == s
    ensures multiset(s) == multiset(s[..|s| - 1]) + multiset{s[|s| - 1]}
  {
    assert s[..|s| - 1] + [s[|s| - 1]] == s;
  }

  lemma WithinInit<T>(s: seq<T>, d: set<T>)
    requires s != [] && Within(s, d)
    ensures Within(s[..|s| - 1], d) && s[|s| - 1] in d
  {
  }

  /** The sort is stable: the elements the comparator calls equal to any x
      keep their input order. */
  lemma SortByStable<T>(s: seq<T>, x: T, le: (T, T) -> bool)
    requires TotalPreorderOn(s + [x], le)
    ensures TiedWith(SortBy(s, le), x, le) == TiedWith(s, x, le)
  {
    PreorderOfSeq(s + [x], le);
    var d := Elems(s + [x]);
    assert x == (s + [x])[|s|];
    assert Within(s, d) by {
      forall k | 0 <= k < |s| ensures s[k] in d { assert s[k] == (s + [x])[k]; }
    }
    SortByStableOn(s, x, le, d);
  }
}

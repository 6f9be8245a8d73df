/** The matches `Search` reports and the order it reports them in: by start
    position, and at one position the longer word first, ties kept in the
    order the scan found them (`slices.SortStableFunc`). */
module MatchOrder {
  import opened Nodes

  /** A dictionary word found in the text, starting at code point
      `position`. */
  datatype Match = Match(word: Word, position: int)

  /** The text searched and the matches found in it, in report order. */
  datatype MatchesResult = MatchesResult(text: string, matches: seq<Match>)

  /** The sort's comparison: `a` goes strictly before `b`. */
  predicate Before(a: Match, b: Match) {
    || a.position < b.position
    || (a.position == b.position && |a.word.word| > |b.word.word|)
  }

  /** Neither goes before the other: the comparison returns 0. */
  predicate SameKey(a: Match, b: Match) {
    a.position == b.position && |a.word.word| == |b.word.word|
  }

  predicate Sorted(s: seq<Match>) {
    forall i, j :: 0 <= i < j < |s| ==> !Before(s[j], s[i])
  }

  /** The matches of `s` that compare equal to `k`, in their order in `s`. */
  function Keyed(s: seq<Match>, k: Match): (r: seq<Match>)
    ensures |r| <= |s|
    ensures forall m :: m in r <==> m in s && SameKey(m, k)
  {
    if s == [] then []
    else (if SameKey(s[0], k) then [s[0]] else []) + Keyed(s[1..], k)
  }

  /** Put `m` in front of the first element that does not go strictly
      before it. */
  function InsertSorted(m: Match, s: seq<Match>): (r: seq<Match>)
    requires Sorted(s)
    ensures Sorted(r)
    ensures multiset(r) == multiset(s) + multiset{m}
    ensures forall k :: Keyed(r, k) == (if SameKey(m, k) then [m] + Keyed(s, k) else Keyed(s, k))
  {
    if s == [] || !Before(s[0], m) then
      InsertFront(m, s);
      [m] + s
    else
      var rest := InsertSorted(m, s[1..]);
      InsertBehind(m, s, rest);
      [s[0]] + rest
  }

  /** `m` in front of a sorted sequence whose first element does not go
      strictly before it. */
  lemma InsertFront(m: Match, s: seq<Match>)
    requires Sorted(s) && (s == [] || !Before(s[0], m))
    ensures Sorted([m] + s)
    ensures multiset([m] + s) == multiset(s) + multiset{m}
    ensures forall k :: Keyed([m] + s, k) == (if SameKey(m, k) then [m] + Keyed(s, k) else Keyed(s, k))
  {
    NoneBefore(m, s);
    SortedCons(m, s);
    KeyedCons(m, s);
  }

  /** The first element of a sorted sequence that goes strictly before
      `m`, in front of `m` inserted into the rest. */
  lemma InsertBehind(m: Match, s: seq<Match>, rest: seq<Match>)
    requires Sorted(s) && s != [] && Before(s[0], m)
    requires Sorted(rest) && multiset(rest) == multiset(s[1..]) + multiset{m}
    requires forall k :: Keyed(rest, k) == (if SameKey(m, k) then [m] + Keyed(s[1..], k) else Keyed(s[1..], k))
    ensures Sorted([s[0]] + rest)
    ensures multiset([s[0]] + rest) == multiset(s) + multiset{m}
    ensures forall k :: Keyed([s[0]] + rest, k) == (if SameKey(m, k) then [m] + Keyed(s, k) else Keyed(s, k))
  {
    HeadStaysFirst(m, s, rest);
    SortedCons(s[0], rest);
    assert [s[0]] + s[1..] == s;
    KeyedBehind(m, s, rest);
  }

  /** The classes of equal matches after putting the first element of `s`
      in front of `m` inserted into the rest. */
  lemma KeyedBehind(m: Match, s: seq<Match>, rest: seq<Match>)
    requires s != [] && !SameKey(s[0], m)
    requires forall k :: Keyed(rest, k) == (if SameKey(m, k) then [m] + Keyed(s[1..], k) else Keyed(s[1..], k))
    ensures forall k :: Keyed([s[0]] + rest, k) == (if SameKey(m, k) then [m] + Keyed(s, k) else Keyed(s, k))
  {
    forall k ensures Keyed([s[0]] + rest, k) == (if SameKey(m, k) then [m] + Keyed(s, k) else Keyed(s, k)) {
      var a := [s[0]] + rest;
      assert a[0] == s[0] && a[1..] == rest;
      if SameKey(m, k) {
        assert !SameKey(s[0], k);
        assert Keyed(a, k) == Keyed(rest, k);
        assert Keyed(s, k) == Keyed(s[1..], k);
      } else if SameKey(s[0], k) {
        assert Keyed(a, k) == [s[0]] + Keyed(rest, k);
        assert Keyed(s, k) == [s[0]] + Keyed(s[1..], k);
      } else {
        assert Keyed(a, k) == Keyed(rest, k);
        assert Keyed(s, k) == Keyed(s[1..], k);
      }
    }
  }

  /** Nothing in a sorted sequence goes strictly before `m` when its first
      element does not. */
  lemma NoneBefore(m: Match, s: seq<Match>)
    requires Sorted(s) && (s == [] || !Before(s[0], m))
    ensures forall y :: y in s ==> !Before(y, m)
  {
    forall y | y in s ensures !Before(y, m) {
      var j :| 0 <= j < |s| && s[j] == y;
      assert !Before(s[j], s[0]);
    }
  }

  /** The first element of a sorted sequence that goes strictly before `m`
      stays first when `m` joins the rest. */
  lemma HeadStaysFirst(m: Match, s: seq<Match>, rest: seq<Match>)
    requires Sorted(s) && s != [] && Before(s[0], m)
    requires multiset(rest) == multiset(s[1..]) + multiset{m}
    ensures forall y :: y in rest ==> !Before(y, s[0])
  {
    forall y | y in rest ensures !Before(y, s[0]) {
      assert y in multiset(rest);
      if y != m {
        var j :| 0 <= j < |s[1..]| && s[1..][j] == y;
        assert s[j + 1] == y;
      }
    }
  }

  /** A match that nothing in a sorted sequence goes strictly before can be
      put in front of it. */
  lemma SortedCons(x: Match, s: seq<Match>)
    requires Sorted(s) && forall y :: y in s ==> !Before(y, x)
    ensures Sorted([x] + s)
  {
    forall i, j | 0 <= i < j < |[x] + s| ensures !Before(([x] + s)[j], ([x] + s)[i]) {
      assert ([x] + s)[j] == s[j - 1];
      if i > 0 {
        assert ([x] + s)[i] == s[i - 1];
      }
    }
  }

  /** A stable sort by `Before`: the result is sorted, holds the same
      matches, and matches that compare equal keep their relative order. */
  function SortStable(s: seq<Match>): (r: seq<Match>)
    ensures Sorted(r)
    ensures multiset(r) == multiset(s)
    ensures forall k :: Keyed(r, k) == Keyed(s, k)
  {
    if s == [] then []
    else
      KeyedCons(s[0], s[1..]);
      assert [s[0]] + s[1..] == s;
      InsertSorted(s[0], SortStable(s[1..]))
  }

  /** `Keyed` of a sequence with one match in front. */
  lemma KeyedCons(m: Match, s: seq<Match>)
    ensures forall k :: Keyed([m] + s, k) == (if SameKey(m, k) then [m] else []) + Keyed(s, k)
  {
    assert ([m] + s)[1..] == s;
  }

  /** A sorted sequence is determined by its classes of equal matches: two
      sorted sequences whose classes agree, each in the same order, are
      equal. */
  lemma {:induction false} SortedByClasses(a: seq<Match>, b: seq<Match>)
    requires Sorted(a) && Sorted(b)
    requires forall k :: Keyed(a, k) == Keyed(b, k)
    ensures a == b
    decreases |a|
  {
    if a != [] {
      assert a[0] in Keyed(a, a[0]);
    }
    if b != [] {
      assert b[0] in Keyed(b, b[0]);
    }
    if a != [] && b != [] {
      assert b[0] in Keyed(a, b[0]);
      assert a[0] in Keyed(b, a[0]);
      assert SameKey(a[0], b[0]);
      assert Keyed(a, a[0])[0] == a[0] && Keyed(b, a[0])[0] == b[0];
      assert a[0] == b[0];
      forall k ensures Keyed(a[1..], k) == Keyed(b[1..], k) {
        var p := if SameKey(a[0], k) then [a[0]] else [];
        assert Keyed(a, k) == p + Keyed(a[1..], k);
        assert Keyed(b, k) == p + Keyed(b[1..], k);
        CancelFront(p, Keyed(a[1..], k), Keyed(b[1..], k));
      }
      SortedByClasses(a[1..], b[1..]);
    }
  }

  /** Equal sequences with equal fronts have equal rests. */
  lemma CancelFront(p: seq<Match>, x: seq<Match>, y: seq<Match>)
    requires p + x == p + y
    ensures x == y
  {
    assert (p + x)[|p|..] == x && (p + y)[|p|..] == y;
  }

  /** Any stable sort by `Before` gives exactly `SortStable`'s answer, so
      the order `Search` reports in does not depend on how the library
      sorts. */
  lemma StableSortUnique(s: seq<Match>, t: seq<Match>)
    requires Sorted(t) && forall k :: Keyed(t, k) == Keyed(s, k)
    ensures t == SortStable(s)
  {
    SortedByClasses(t, SortStable(s));
  }
}

/** Sequence vocabulary shared by the id map, the predecessor paths and the
    betweenness engine: early-stopping traversals, reversal, id ranges and
    duplicate-free sequences. */
module Sequences {

  /** What a visitor is offered when it walks `s` in order and the walk ends
      right after the first element the visitor rejects. */
  function TakeUntilFalse<T>(s: seq<T>, visit: T -> bool): (r: seq<T>)
    ensures |r| <= |s| && r == s[..|r|]
  {
    if s == [] then []
    else if !visit(s[0]) then [s[0]]
    else [s[0]] + TakeUntilFalse(s[1..], visit)
  }

  /** A visitor that never rejects is offered every element. */
  lemma {:induction false} TakeUntilFalseAllTrue<T>(s: seq<T>, visit: T -> bool)
    requires forall i :: 0 <= i < |s| ==> visit(s[i])
    ensures TakeUntilFalse(s, visit) == s
  {
    if s != [] {
      assert visit(s[0]);
      TakeUntilFalseAllTrue(s[1..], visit);
    }
  }

  /** The walk stops immediately after the first rejected element. */
  lemma {:induction false} TakeUntilFalseStops<T>(s: seq<T>, visit: T -> bool, k: nat)
    requires k < |s| && !visit(s[k])
    requires forall i :: 0 <= i < k ==> visit(s[i])
    ensures TakeUntilFalse(s, visit) == s[..k + 1]
  {
    if k > 0 {
      assert visit(s[0]);
      TakeUntilFalseStops(s[1..], visit, k - 1);
      assert s[..k + 1] == [s[0]] + s[1..][..k];
    }
  }

  /** Every element offered, except possibly the last, was accepted. */
  lemma {:induction false} TakeUntilFalseAccepted<T>(s: seq<T>, visit: T -> bool, i: nat)
    requires i + 1 < |TakeUntilFalse(s, visit)|
    ensures visit(s[i])
  {
    if i > 0 {
      TakeUntilFalseAccepted(s[1..], visit, i - 1);
    }
  }

  function Reverse<T>(s: seq<T>): (r: seq<T>)
    ensures |r| == |s|
  {
    if s == [] then [] else [s[|s| - 1]] + Reverse(s[..|s| - 1])
  }

  lemma {:induction false} ReverseAt<T>(s: seq<T>, k: nat)
    requires k < |s|
    ensures Reverse(s)[k] == s[|s| - 1 - k]
  {
    if k > 0 {
      ReverseAt(s[..|s| - 1], k - 1);
    }
  }

  /** Reversal reorders but neither loses nor duplicates an element. */
  lemma {:induction false} ReverseMultiset<T>(s: seq<T>)
    ensures multiset(Reverse(s)) == multiset(s)
  {
    if s != [] {
      ReverseMultiset(s[..|s| - 1]);
      assert s == s[..|s| - 1] + [s[|s| - 1]];
    }
  }

  /** The ids lo, lo+1, ..., hi-1 in ascending order. */
  function Interval(lo: int, hi: int): (r: seq<int>)
    decreases hi - lo
    ensures |r| == if lo <= hi then hi - lo else 0
    ensures forall i :: 0 <= i < |r| ==> r[i] == lo + i
  {
    if lo >= hi then [] else [lo] + Interval(lo + 1, hi)
  }

  /** An interval holds each id of [lo, hi) exactly once, ascending. */
  lemma IntervalExactlyOnce(lo: int, hi: int)
    ensures forall x :: x in Interval(lo, hi) <==> lo <= x < hi
    ensures forall i, j :: 0 <= i < j < |Interval(lo, hi)| ==> Interval(lo, hi)[i] < Interval(lo, hi)[j]
  {
    var r := Interval(lo, hi);
    forall x | lo <= x < hi ensures x in r {
      assert r[x - lo] == x;
    }
  }

  /** Any two positions hold different elements. */
  predicate Distinct(s: seq<int>)
  {
    forall i, j :: 0 <= i < j < |s| ==> s[i] != s[j]
  }

  /** The elements of a sequence, as a set. */
  function ElementSet(s: seq<int>): (r: set<int>)
    ensures forall x :: x in r <==> x in s
  {
    set x | x in s
  }

  /** A sequence has at least as many positions as distinct elements, and
      strictly more when some element repeats. */
  lemma {:induction false} ElementSetCount(s: seq<int>)
    ensures |ElementSet(s)| <= |s|
    ensures !Distinct(s) ==> |ElementSet(s)| < |s|
  {
    if s != [] {
      var init := s[..|s| - 1];
      var x := s[|s| - 1];
      ElementSetCount(init);
      assert s == init + [x];
      assert ElementSet(s) == ElementSet(init) + {x};
      if !Distinct(s) && x !in init {
        var i, j :| 0 <= i < j < |s| && s[i] == s[j];
        assert init[i] == s[i];
        assert j < |s| - 1;
        assert init[j] == s[j];
      }
    }
  }

  /** A sequence that lists a set of its own length lists each member once. */
  lemma CoverDistinct(s: seq<int>, ids: set<int>)
    requires ElementSet(s) == ids && |s| == |ids|
    ensures Distinct(s)
  {
    ElementSetCount(s);
  }

  /** A member of a non-empty set. */
  lemma Pick(s: set<int>) returns (x: int)
    requires s != {}
    ensures x in s
  {
    if forall y :: y !in s {
      assert false;
    }
    x :| x in s;
  }

  /** A set of ids below n has at most n members. */
  lemma {:induction false} BoundedSetSize(ids: set<int>, n: nat)
    requires forall x :: x in ids ==> 0 <= x < n
    ensures |ids| <= n
  {
    if n == 0 {
      if ids != {} {
        var x := Pick(ids);
        assert false;
      }
    } else {
      BoundedSetSize(ids - {n - 1}, n - 1);
    }
  }
}

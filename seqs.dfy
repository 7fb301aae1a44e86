/**
 * The two array operations of the JavaScript standard library that the inventory
 * engine relies on: `Array.prototype.filter` (Keep) and `Array.prototype.findIndex`
 * (FirstIndex), with the order-preservation facts used by deletion and filtering.
 */
module Seqs {
  import opened Wrappers

  /** `s.filter(p)`: the elements of s that satisfy p, in their original order. */
  function Keep<T(==)>(s: seq<T>, p: T -> bool): (r: seq<T>)
    ensures |r| <= |s|
    ensures forall i :: 0 <= i < |r| ==> r[i] in s && p(r[i])
    ensures forall i :: 0 <= i < |s| && p(s[i]) ==> s[i] in r
  {
    if s == [] then []
    else
      assert s == [s[0]] + s[1..];
      (if p(s[0]) then [s[0]] else []) + Keep(s[1..], p)
  }

  /**
   * `s.findIndex(p)`: the position of the first element satisfying p, or None
   * where JavaScript answers -1.
   */
  function FirstIndex<T>(s: seq<T>, p: T -> bool): (r: Option<nat>)
    ensures r.Some? ==> r.value < |s| && p(s[r.value])
    ensures r.Some? ==> forall j :: 0 <= j < r.value ==> !p(s[j])
    ensures r.None? ==> forall j :: 0 <= j < |s| ==> !p(s[j])
  {
    if s == [] then None
    else if p(s[0]) then Some(0)
    else match FirstIndex(s[1..], p)
      case None => None
      case Some(i) => Some(i + 1)
  }

  /** a can be obtained from b by deleting elements (greedy left-to-right matching). */
  predicate IsSubsequence<T(==)>(a: seq<T>, b: seq<T>)
    decreases |b|
  {
    a == [] ||
    (b != [] &&
     if a[0] == b[0] then IsSubsequence(a[1..], b[1..]) else IsSubsequence(a, b[1..]))
  }

  /** Filtering keeps every copy of a selected value and no copy of any other. */
  lemma {:induction false} KeepCount<T>(s: seq<T>, p: T -> bool)
    ensures forall x :: multiset(Keep(s, p))[x] == if p(x) then multiset(s)[x] else 0
  {
    if s != [] {
      KeepCount(s[1..], p);
      assert s == [s[0]] + s[1..];
    }
  }

  /** Filtering preserves the relative order of what it keeps. */
  lemma {:induction false} KeepIsSubsequence<T>(s: seq<T>, p: T -> bool)
    ensures IsSubsequence(Keep(s, p), s)
  {
    if s != [] {
      KeepIsSubsequence(s[1..], p);
      var r := Keep(s, p);
      if !p(s[0]) {
        assert r == Keep(s[1..], p);
        if r != [] {
          assert p(r[0]);
        }
      }
    }
  }

  /** A predicate that holds of every element keeps them all. */
  lemma {:induction false} KeepAll<T>(s: seq<T>, p: T -> bool)
    requires forall j :: 0 <= j < |s| ==> p(s[j])
    ensures Keep(s, p) == s
  {
    if s != [] {
      KeepAll(s[1..], p);
    }
  }

  /** A subsequence never has more copies of any value than the sequence it is taken from. */
  lemma {:induction false} SubsequenceMultiset<T>(a: seq<T>, b: seq<T>)
    requires IsSubsequence(a, b)
    ensures multiset(a) <= multiset(b)
    decreases |b|
  {
    if a != [] {
      assert b == [b[0]] + b[1..];
      if a[0] == b[0] {
        SubsequenceMultiset(a[1..], b[1..]);
        assert a == [a[0]] + a[1..];
      } else {
        SubsequenceMultiset(a, b[1..]);
      }
    }
  }

  /**
   * Keep is the only order-preserving selection from s that holds every copy of the
   * values satisfying p and nothing else: the filter result is determined by those two facts.
   */
  lemma {:induction false} KeepUnique<T>(s: seq<T>, p: T -> bool, r: seq<T>)
    requires IsSubsequence(r, s)
    requires forall x :: multiset(r)[x] == if p(x) then multiset(s)[x] else 0
    ensures r == Keep(s, p)
  {
    if s != [] {
      var t := s[1..];
      assert s == [s[0]] + t;
      if r == [] {
        KeepCount(s, p);
        assert multiset(Keep(s, p)) == multiset(r);
      } else if r[0] == s[0] {
        assert r == [r[0]] + r[1..];
        assert multiset(r)[s[0]] > 0;
        forall x ensures multiset(r[1..])[x] == if p(x) then multiset(t)[x] else 0 {
          if x == s[0] {
          } else {
          }
        }
        KeepUnique(t, p, r[1..]);
      } else {
        SubsequenceMultiset(r, t);
        if p(s[0]) {
          assert false;
        }
        forall x ensures multiset(r)[x] == if p(x) then multiset(t)[x] else 0 {
          if p(x) {
            assert x != s[0];
          }
        }
        KeepUnique(t, p, r);
      }
    }
  }
}

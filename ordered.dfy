/**
 * Sequence helpers behind the table reconstruction: the ascending index list that a
 * boolean filter followed by `.index.tolist()` produces, and the sorted distinct keys
 * that a pivot table uses for its rows and columns.
 */
module Ordered {

  predicate StrictlyIncreasing(s: seq<int>)
  {
    forall i, j :: 0 <= i < j < |s| ==> s[i] < s[j]
  }

  /** Inserts `x` into a strictly increasing sequence, dropping it if already present. */
  function InsertSorted(x: int, s: seq<int>): (r: seq<int>)
    requires StrictlyIncreasing(s)
    ensures StrictlyIncreasing(r)
    ensures forall y :: y in r <==> y == x || y in s
  {
    if s == [] then [x]
    else if x < s[0] then [x] + s
    else if x == s[0] then s
    else
      var rest := InsertSorted(x, s[1..]);
      assert forall k :: 0 <= k < |rest| ==> s[0] < rest[k] by {
        forall k | 0 <= k < |rest| ensures s[0] < rest[k] {
          assert rest[k] in rest;
          if rest[k] != x {
            var m :| 0 <= m < |s[1..]| && s[1..][m] == rest[k];
            assert s[m + 1] == rest[k];
          }
        }
      }
      [s[0]] + rest
  }

  /** A strictly increasing sequence whose only member is `x` is `[x]`. */
  lemma SingleMember(s: seq<int>, x: int)
    requires StrictlyIncreasing(s)
    requires x in s && forall k :: 0 <= k < |s| ==> s[k] == x
    ensures s == [x]
  {
    assert s[0] == x && s[|s| - 1] == x;
  }

  /** The distinct values of `xs` in ascending order, as a pivot table orders its keys. */
  function SortedDistinct(xs: seq<int>): (r: seq<int>)
    ensures StrictlyIncreasing(r)
    ensures forall y :: y in r <==> y in xs
  {
    if xs == [] then [] else InsertSorted(xs[0], SortedDistinct(xs[1..]))
  }

  /** The indices at or after `i` whose element satisfies `p`, in ascending order. */
  function PositionsFrom<T>(s: seq<T>, p: T -> bool, i: nat): (ps: seq<nat>)
    requires i <= |s|
    ensures StrictlyIncreasing(ps)
    ensures forall k :: 0 <= k < |ps| ==> i <= ps[k] < |s|
    decreases |s| - i
  {
    if i == |s| then []
    else if p(s[i]) then [i] + PositionsFrom(s, p, i + 1)
    else PositionsFrom(s, p, i + 1)
  }

  /** The positions found from `i` on are exactly the indices from `i` on that satisfy `p`. */
  lemma {:induction false} PositionsFromMembers<T>(s: seq<T>, p: T -> bool, i: nat)
    requires i <= |s|
    ensures forall j :: j in PositionsFrom(s, p, i) <==> i <= j < |s| && p(s[j])
    decreases |s| - i
  {
    if i < |s| {
      PositionsFromMembers(s, p, i + 1);
    }
  }

  /** The indices of the elements satisfying `p`, in ascending order. */
  function Positions<T>(s: seq<T>, p: T -> bool): (ps: seq<nat>)
    ensures StrictlyIncreasing(ps)
    ensures forall k :: 0 <= k < |ps| ==> ps[k] < |s|
    ensures forall j :: j in ps <==> 0 <= j < |s| && p(s[j])
  {
    PositionsFromMembers(s, p, 0);
    PositionsFrom(s, p, 0)
  }

  /** How many elements satisfy `p`. */
  function Count<T>(s: seq<T>, p: T -> bool): (n: nat)
    ensures n <= |s|
  {
    if s == [] then 0 else (if p(s[0]) then 1 else 0) + Count(s[1..], p)
  }

  lemma {:induction false} PositionsFromCount<T>(s: seq<T>, p: T -> bool, i: nat)
    requires i <= |s|
    ensures |PositionsFrom(s, p, i)| == Count(s[i..], p)
    decreases |s| - i
  {
    if i < |s| {
      assert s[i..][1..] == s[i + 1..];
      PositionsFromCount(s, p, i + 1);
    }
  }

  /** There is one position per element that satisfies `p`. */
  lemma PositionsCount<T>(s: seq<T>, p: T -> bool)
    ensures |Positions(s, p)| == Count(s, p)
  {
    PositionsFromCount(s, p, 0);
    assert s[0..] == s;
  }
}

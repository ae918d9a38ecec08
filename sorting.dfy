/** `std::sort` on the ids to merge (heuristics.cpp:53), as an insertion sort on values. */
module Sorting {

  predicate Ascending(s: seq<nat>) {
    forall j, k | 0 <= j < k < |s| :: s[j] <= s[k]
  }

  /** Inserts `x` into an ascending sequence. */
  function Insert(x: nat, s: seq<nat>): (r: seq<nat>)
    requires Ascending(s)
    ensures Ascending(r) && multiset(r) == multiset(s) + multiset{x}
    decreases |s|
  {
    if s == [] then [x]
    else if x <= s[0] then [x] + s
    else
      var rest := Insert(x, s[1..]);
      assert s == [s[0]] + s[1..];
      LowerBoundKept(s[0], s[1..], x, rest);
      [s[0]] + rest
  }

  /** A lower bound of `t` and of `x` bounds every rearrangement of `t` with `x` added. */
  lemma LowerBoundKept(b: nat, t: seq<nat>, x: nat, rest: seq<nat>)
    requires b <= x && forall i | 0 <= i < |t| :: b <= t[i]
    requires multiset(rest) == multiset(t) + multiset{x}
    ensures forall k | 0 <= k < |rest| :: b <= rest[k]
  {
    forall k | 0 <= k < |rest| ensures b <= rest[k] {
      assert rest[k] in multiset(rest);
      if rest[k] != x {
        assert rest[k] in multiset(t);
        var i :| 0 <= i < |t| && t[i] == rest[k];
      }
    }
  }

  /** The ids of `s` in ascending order. */
  function SortAscending(s: seq<nat>): (r: seq<nat>)
    ensures Ascending(r) && multiset(r) == multiset(s) && |r| == |s|
    decreases |s|
  {
    if s == [] then []
    else
      assert s == [s[0]] + s[1..];
      Insert(s[0], SortAscending(s[1..]))
  }

  /** Ids already in ascending order are left as they are. */
  lemma {:induction false} SortAscendingFixes(s: seq<nat>)
    requires Ascending(s)
    ensures SortAscending(s) == s
    decreases |s|
  {
    if s != [] {
      assert Ascending(s[1..]);
      SortAscendingFixes(s[1..]);
      assert s == [s[0]] + s[1..];
    }
  }

  /** The first element of the sorted ids is the minimum of the ids. */
  lemma SortedHeadIsMinimum(s: seq<nat>)
    requires s != []
    ensures var r := SortAscending(s);
      |r| == |s| && r[0] in s && forall x | x in s :: r[0] <= x
  {
    var r := SortAscending(s);
    assert r[0] in multiset(r);
    forall x | x in s ensures r[0] <= x {
      assert x in multiset(s);
      assert x in multiset(r);
      var k :| 0 <= k < |r| && r[k] == x;
    }
  }
}

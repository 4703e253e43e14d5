/** Permutations of `0 .. n - 1` held as sequences. */
module Permutations {

  /** `s` lists each of `0 .. n - 1` exactly once. */
  ghost predicate IsPermutation(s: seq<nat>, n: nat) {
    && |s| == n
    && (forall i | 0 <= i < n :: s[i] < n)
    && (forall i, j | 0 <= i < j < n :: s[i] != s[j])
  }

  function Below(n: nat): (s: set<nat>)
    ensures |s| == n && forall i: nat :: i in s <==> i < n
  {
    if n == 0 then {} else Below(n - 1) + {n - 1}
  }

  function Elements(s: seq<nat>): set<nat> {
    set x | x in s
  }

  lemma {:induction false} ElementsSize(s: seq<nat>)
    requires forall i, j | 0 <= i < j < |s| :: s[i] != s[j]
    ensures |Elements(s)| == |s|
  {
    if s != [] {
      var front, last := s[..|s| - 1], s[|s| - 1];
      ElementsSize(front);
      assert s == front + [last];
      assert Elements(s) == Elements(front) + {last};
    }
  }

  lemma {:induction false} SubsetOfSameSize(a: set<nat>, b: set<nat>)
    requires a <= b && |a| == |b|
    ensures a == b
  {
    assert b == a + (b - a);
  }

  /** Nothing below `n` is missing from a permutation. */
  lemma {:induction false} PermutationOnto(s: seq<nat>, n: nat, x: nat) returns (i: nat)
    requires IsPermutation(s, n) && x < n
    ensures i < n && s[i] == x
  {
    ElementsSize(s);
    SubsetOfSameSize(Elements(s), Below(n));
    assert x in Elements(s);
    i :| i < n && s[i] == x;
  }

  // ---------------------------------------------------------------- sums over a permutation

  function Sum(costs: seq<nat>, s: seq<nat>): nat
    requires forall i | 0 <= i < |s| :: s[i] < |costs|
  {
    if s == [] then 0 else Sum(costs, s[..|s| - 1]) + costs[s[|s| - 1]]
  }

  function Total(costs: seq<nat>): nat {
    if costs == [] then 0 else Total(costs[..|costs| - 1]) + costs[|costs| - 1]
  }

  lemma {:induction false} SnocWithout(s: seq<nat>, x: nat, i: nat)
    requires i < |s|
    ensures var t, kept := s + [x], s[..i] + s[i + 1..];
            t[..i] + t[i + 1..] == kept + [x] && (kept + [x])[..|kept|] == kept
  {
    var t := s + [x];
    assert t[..i] == s[..i];
    assert t[i + 1..] == s[i + 1..] + [x];
  }

  lemma {:induction false} SumRemove(costs: seq<nat>, s: seq<nat>, i: nat)
    requires i < |s| && forall i | 0 <= i < |s| :: s[i] < |costs|
    ensures Sum(costs, s) == Sum(costs, s[..i] + s[i + 1..]) + costs[s[i]]
  {
    var r := s[..i] + s[i + 1..];
    if i == |s| - 1 {
      assert r == s[..i];
    } else {
      var front := s[..|s| - 1];
      var kept := front[..i] + front[i + 1..];
      SumRemove(costs, front, i);
      SnocWithout(front, s[|s| - 1], i);
      assert s == front + [s[|s| - 1]];
      assert r == kept + [s[|s| - 1]];
    }
  }

  lemma {:induction false} SumPrefix(costs: seq<nat>, s: seq<nat>, n: nat)
    requires n < |costs| && forall i | 0 <= i < |s| :: s[i] < n
    ensures Sum(costs, s) == Sum(costs[..n], s)
  {
    if s != [] { SumPrefix(costs, s[..|s| - 1], n); }
  }

  /** Visiting distinct indices, in whatever order, costs at most the total. */
  lemma {:induction false} SumAtMostTotal(costs: seq<nat>, s: seq<nat>)
    requires forall i | 0 <= i < |s| :: s[i] < |costs|
    requires forall i, j | 0 <= i < j < |s| :: s[i] != s[j]
    ensures Sum(costs, s) <= Total(costs)
    decreases |costs|
  {
    if costs == [] {
      assert s == [];
    } else {
      var n := |costs| - 1;
      if n in s {
        var i :| 0 <= i < |s| && s[i] == n;
        var r := s[..i] + s[i + 1..];
        SumRemove(costs, s, i);
        SumPrefix(costs, r, n);
        SumAtMostTotal(costs[..n], r);
      } else {
        assert forall i | 0 <= i < |s| :: s[i] in s;
        SumPrefix(costs, s, n);
        SumAtMostTotal(costs[..n], s);
      }
    }
  }
}

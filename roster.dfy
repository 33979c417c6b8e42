/**
 The roster of participants: an ordered sequence of names in which no name
 occurs twice, and the notion of one sequence being a reordering of another
 (what `random.shuffle` produces from a copy of the roster).
 */
module Roster {

  type Name = string

  /** No name occurs twice. */
  predicate Distinct(s: seq<Name>)
  {
    forall i, j :: 0 <= i < j < |s| ==> s[i] != s[j]
  }

  /** `s` holds exactly the names of `t`, each as often, in some order. */
  predicate IsPermutationOf(s: seq<Name>, t: seq<Name>)
  {
    multiset(s) == multiset(t)
  }

  /** In a roster without duplicates every name is counted at most once. */
  lemma {:induction false} DistinctCountsAtMostOne(s: seq<Name>, x: Name)
    requires Distinct(s)
    ensures multiset(s)[x] <= 1
  {
    if s != [] {
      var rest := s[1..];
      assert s == [s[0]] + rest;
      assert Distinct(rest) by {
        forall i, j | 0 <= i < j < |rest| ensures rest[i] != rest[j] {
          assert rest[i] == s[i + 1] && rest[j] == s[j + 1];
        }
      }
      DistinctCountsAtMostOne(rest, x);
      if s[0] == x {
        assert x !in rest by {
          forall k | 0 <= k < |rest| ensures rest[k] != x {
            assert rest[k] == s[k + 1];
          }
        }
      }
    }
  }

  /** Any reordering of a roster without duplicates has no duplicates either. */
  lemma PermutationKeepsDistinct(s: seq<Name>, t: seq<Name>)
    requires Distinct(s) && IsPermutationOf(t, s)
    ensures Distinct(t)
  {
    forall a, b | 0 <= a < b < |t| ensures t[a] != t[b] {
      if t[a] == t[b] {
        var x := t[a];
        assert t == t[..b] + t[b..];
        assert x in t[..b] by { assert t[..b][a] == x; }
        assert x in t[b..] by { assert t[b..][0] == x; }
        assert multiset(t)[x] == multiset(t[..b])[x] + multiset(t[b..])[x];
        DistinctCountsAtMostOne(s, x);
        assert false;
      }
    }
  }

  /** A reordering contains exactly the names of the original. */
  lemma PermutationSameMembers(s: seq<Name>, t: seq<Name>, x: Name)
    requires IsPermutationOf(t, s)
    ensures x in t <==> x in s
  {
    assert x in t <==> x in multiset(t);
    assert x in s <==> x in multiset(s);
  }
}

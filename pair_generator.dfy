/**
 The secret-gift ("manito") pair generator: every participant (the assigner)
 is given one recipient. The roster is copied and shuffled; a single
 left-to-right pass then repairs every position that holds its own name by
 swapping it with the next position (the last position wraps to the first);
 finally one record per roster position pairs `names[i]` with the repaired
 `shuffled[i]`.

 The shuffle is not modelled: its result is an input, any reordering of the
 roster.
 */
module PairGenerator {
  import opened Roster

  /** One record of the assignment: `assigner` gives a gift to `recipient`. */
  datatype Pair = Pair(assigner: Name, recipient: Name)

  /** No position of `recipients` holds the roster's name at that position. */
  predicate NoSelfPair(names: seq<Name>, recipients: seq<Name>)
    requires |recipients| == |names|
  {
    forall i :: 0 <= i < |names| ==> recipients[i] != names[i]
  }

  /** Index that position `i` swaps with: the next one, wrapping to 0. */
  function NextIndex(i: nat, n: nat): (j: nat)
    requires i < n
    ensures j < n
    ensures j == if i == n - 1 then 0 else i + 1
  {
    (i + 1) % n
  }

  /**
   One iteration of the fix-up pass: if position `i` holds its own name,
   exchange it with the next position; otherwise leave everything alone.
   */
  function FixStep(names: seq<Name>, s: seq<Name>, i: nat): (r: seq<Name>)
    requires |s| == |names| && i < |s|
    ensures |r| == |s|
    ensures IsPermutationOf(r, s)
    ensures forall k :: 0 <= k < |s| && k != i && k != NextIndex(i, |s|) ==> r[k] == s[k]
  {
    if names[i] == s[i] then
      var next := NextIndex(i, |s|);
      s[i := s[next]][next := s[i]]
    else
      s
  }

  /** The fix-up pass from position `i` to the end. */
  function FixUpFrom(names: seq<Name>, s: seq<Name>, i: nat): (r: seq<Name>)
    requires |s| == |names| && i <= |s|
    ensures |r| == |s|
    decreases |s| - i
  {
    if i == |s| then s else FixUpFrom(names, FixStep(names, s, i), i + 1)
  }

  /** The whole fix-up pass over a shuffled roster. */
  function FixUp(names: seq<Name>, s: seq<Name>): (r: seq<Name>)
    requires |s| == |names|
    ensures |r| == |s|
  {
    FixUpFrom(names, s, 0)
  }

  /**
   The records built from the roster and the repaired recipients, in roster
   order: reading the assigners back gives the roster, reading the recipients
   back gives `recipients`.
   */
  function MakePairs(names: seq<Name>, recipients: seq<Name>): (pairs: seq<Pair>)
    requires |recipients| == |names|
    ensures |pairs| == |names|
    ensures forall i :: 0 <= i < |pairs| ==> pairs[i].assigner == names[i]
    ensures Recipients(pairs) == recipients
  {
    var pairs := seq(|names|, i requires 0 <= i < |names| => Pair(names[i], recipients[i]));
    assert Recipients(pairs) == recipients;
    pairs
  }

  /** The recipients of a list of records, in order. */
  function Recipients(pairs: seq<Pair>): (r: seq<Name>)
  {
    seq(|pairs|, i requires 0 <= i < |pairs| => pairs[i].recipient)
  }

  /**
   The assignment the generator draws when the shuffle yields `shuffled`: one
   record per roster name, in roster order, whose recipients are the repaired
   shuffle and, for a reordering of the roster, a reordering of the roster.
   */
  function ManitoPairs(names: seq<Name>, shuffled: seq<Name>): (pairs: seq<Pair>)
    requires |shuffled| == |names|
    ensures |pairs| == |names|
    ensures forall i :: 0 <= i < |pairs| ==> pairs[i].assigner == names[i]
    ensures Recipients(pairs) == FixUp(names, shuffled)
    ensures IsPermutationOf(shuffled, names) ==> IsPermutationOf(Recipients(pairs), names)
  {
    FixUpFromIsPermutation(names, shuffled, 0);
    MakePairs(names, FixUp(names, shuffled))
  }

  /** Length of a reordering equals the length of the original. */
  lemma PermutationSameLength(s: seq<Name>, t: seq<Name>)
    requires IsPermutationOf(t, s)
    ensures |t| == |s|
  {
    assert |multiset(t)| == |t| && |multiset(s)| == |s|;
  }

  // ---------------------------------------------------------------------
  // Properties of the fix-up pass
  // ---------------------------------------------------------------------

  /** The pass only exchanges elements, so it yields a reordering of its input. */
  lemma {:induction false} FixUpFromIsPermutation(names: seq<Name>, s: seq<Name>, i: nat)
    requires |s| == |names| && i <= |s|
    ensures |FixUpFrom(names, s, i)| == |s|
    ensures IsPermutationOf(FixUpFrom(names, s, i), s)
    decreases |s| - i
  {
    if i < |s| {
      FixUpFromIsPermutation(names, FixStep(names, s, i), i + 1);
    }
  }

  /**
   The derangement invariant of the pass, in recursive form: if the names are
   distinct, there are at least two of them, the current sequence is a
   reordering of the roster and every position before `i` is already free of
   its own name, then so is every position after the rest of the pass.
   */
  lemma {:induction false} FixUpFromDeranges(names: seq<Name>, s: seq<Name>, i: nat)
    requires |s| == |names| && i <= |s| && |s| >= 2
    requires Distinct(names) && IsPermutationOf(s, names)
    requires forall j :: 0 <= j < i ==> s[j] != names[j]
    ensures NoSelfPair(names, FixUpFrom(names, s, i))
    decreases |s| - i
  {
    var n := |s|;
    if i < n {
      PermutationKeepsDistinct(names, s);
      var t := FixStep(names, s, i);
      var next := NextIndex(i, n);
      if names[i] == s[i] {
        // the name that was at `next` moves into position i, and it is not names[i]
        assert next != i;
        assert t[i] == s[next] && s[next] != s[i];
        // names[i] moves to `next`, which is another person's position
        assert t[next] == names[i] && names[next] != names[i];
      }
      forall j | 0 <= j < i + 1 ensures t[j] != names[j] {
        if j != i && j != next {
          assert t[j] == s[j];
        }
      }
      FixUpFromDeranges(names, t, i + 1);
    }
  }

  /** For at least two distinct names, every reordering is repaired into a derangement. */
  lemma FixUpDeranges(names: seq<Name>, s: seq<Name>)
    requires |s| == |names| >= 2
    requires Distinct(names) && IsPermutationOf(s, names)
    ensures NoSelfPair(names, FixUp(names, s))
  {
    FixUpFromDeranges(names, s, 0);
  }

  /** When the shuffle already has no self-pair, the pass performs no swap. */
  lemma {:induction false} FixUpFromKeepsDerangement(names: seq<Name>, s: seq<Name>, i: nat)
    requires |s| == |names| && i <= |s|
    requires NoSelfPair(names, s)
    ensures FixUpFrom(names, s, i) == s
    decreases |s| - i
  {
    if i < |s| {
      assert FixStep(names, s, i) == s;
      FixUpFromKeepsDerangement(names, s, i + 1);
    }
  }

  /**
   At the last position the swap partner is position 0: afterwards position 0
   holds the last name and the last position holds the former first element.
   */
  lemma FixStepWrapsAround(names: seq<Name>, s: seq<Name>)
    requires |s| == |names| >= 1
    requires s[|s| - 1] == names[|s| - 1]
    ensures var r := FixStep(names, s, |s| - 1);
      r[0] == names[|s| - 1] && r[|s| - 1] == s[0]
  {
  }

  /**
   With a single name the swap partner is the position itself, so the only
   possible draw keeps its self-pair: the derangement needs two names.
   */
  lemma SingleNameKeepsSelfPair(names: seq<Name>, s: seq<Name>)
    requires |s| == |names| == 1 && IsPermutationOf(s, names)
    ensures FixUp(names, s) == names
  {
    PermutationSameMembers(names, s, s[0]);
    assert s[0] in names;
    assert s == names;
    assert FixStep(names, s, 0) == s;
    assert FixUpFrom(names, s, 1) == s;
  }

  /** With two distinct names the only possible draw is the two-cycle. */
  lemma TwoNamesGiveTheSwap(names: seq<Name>, s: seq<Name>)
    requires |s| == |names| == 2 && Distinct(names) && IsPermutationOf(s, names)
    ensures FixUp(names, s) == [names[1], names[0]]
  {
    var r := FixUp(names, s);
    FixUpFromIsPermutation(names, s, 0);
    FixUpDeranges(names, s);
    PermutationSameMembers(names, r, r[0]);
    PermutationSameMembers(names, r, r[1]);
    PermutationKeepsDistinct(names, r);
    assert r[0] == names[1];
    assert r[1] == names[0];
  }

  // ---------------------------------------------------------------------
  // The assignment as a whole
  // ---------------------------------------------------------------------

  /**
   The records follow the roster order and their recipients are a reordering
   of the roster; for at least two distinct names, nobody draws themselves.
   */
  lemma ManitoPairsIsAssignment(names: seq<Name>, shuffled: seq<Name>)
    requires IsPermutationOf(shuffled, names)
    ensures |shuffled| == |names|
    ensures var pairs := ManitoPairs(names, shuffled);
      && |pairs| == |names|
      && (forall i :: 0 <= i < |pairs| ==> pairs[i].assigner == names[i])
      && IsPermutationOf(Recipients(pairs), names)
      && (Distinct(names) && |names| >= 2 ==>
            forall i :: 0 <= i < |pairs| ==> pairs[i].assigner != pairs[i].recipient)
  {
    PermutationSameLength(names, shuffled);
    var r := FixUp(names, shuffled);
    FixUpFromIsPermutation(names, shuffled, 0);
    var pairs := MakePairs(names, r);
    assert Recipients(pairs) == r;
    if Distinct(names) && |names| >= 2 {
      FixUpDeranges(names, shuffled);
      assert forall i :: 0 <= i < |pairs| ==> pairs[i].recipient == r[i];
    }
  }

  /**
   `create_manito_pairs`: copy the shuffled roster into a buffer, repair it in
   place in one pass, then pair each roster name with the buffer's element at
   the same position.
   */
  method CreateManitoPairs(names: seq<Name>, shuffled: seq<Name>) returns (pairs: seq<Pair>)
    requires IsPermutationOf(shuffled, names)
    ensures |shuffled| == |names|
    ensures pairs == ManitoPairs(names, shuffled)
    ensures |pairs| == |names|
    ensures forall i :: 0 <= i < |pairs| ==> pairs[i].assigner == names[i]
    ensures IsPermutationOf(Recipients(pairs), names)
    ensures Distinct(names) && |names| >= 2 ==>
      forall i :: 0 <= i < |pairs| ==> pairs[i].assigner != pairs[i].recipient
  {
    PermutationSameLength(names, shuffled);
    var a := new Name[|shuffled|](k requires 0 <= k < |shuffled| => shuffled[k]);
    assert a[..] == shuffled;
    var n := a.Length;
    var i := 0;
    while i < n
      invariant 0 <= i <= n == a.Length == |names|
      invariant FixUpFrom(names, a[..], i) == FixUp(names, shuffled)
    {
      ghost var before := a[..];
      if names[i] == a[i] {
        var next := (i + 1) % n;
        a[i], a[next] := a[next], a[i];
      }
      assert a[..] == FixStep(names, before, i);
      i := i + 1;
    }
    pairs := MakePairs(names, a[..]);
    ManitoPairsIsAssignment(names, shuffled);
  }
}

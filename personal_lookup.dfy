/**
 The personal look-up: a participant gives their name, it is checked against
 the roster, the stored list of records is decrypted, turned into an
 assigner-to-recipient dictionary, and only that participant's recipient is
 shown.

 Loading the stored file and decrypting it are not modelled; their outcome
 is an input (`Unlocked`).
 */
module PersonalLookup {
  import opened Roster
  import opened PairGenerator

  datatype Option<T> = None | Some(value: T)

  /** The assigners of a list of records are all different. */
  predicate DistinctAssigners(pairs: seq<Pair>)
  {
    forall i, j :: 0 <= i < j < |pairs| ==> pairs[i].assigner != pairs[j].assigner
  }

  /**
   The dictionary built from the records in order, a later record for the
   same assigner replacing an earlier one. Its keys are exactly the assigners,
   and every entry is one of the records.
   */
  function PairsDict(pairs: seq<Pair>): (d: map<Name, Name>)
    ensures forall k :: k in d <==> exists i :: 0 <= i < |pairs| && pairs[i].assigner == k
    ensures forall k :: k in d ==> exists i :: 0 <= i < |pairs| && pairs[i] == Pair(k, d[k])
  {
    if pairs == [] then
      map[]
    else
      var init := pairs[..|pairs| - 1];
      var last := pairs[|pairs| - 1];
      var d0 := PairsDict(init);
      assert forall i :: 0 <= i < |init| ==> init[i] == pairs[i];
      d0[last.assigner := last.recipient]
  }

  /** The record of an assigner that no later record repeats is the one the dictionary keeps. */
  lemma {:induction false} PairsDictKeepsLast(pairs: seq<Pair>, i: nat)
    requires i < |pairs|
    requires forall j :: i < j < |pairs| ==> pairs[j].assigner != pairs[i].assigner
    ensures pairs[i].assigner in PairsDict(pairs)
    ensures PairsDict(pairs)[pairs[i].assigner] == pairs[i].recipient
  {
    var init := pairs[..|pairs| - 1];
    if i < |pairs| - 1 {
      assert init[i] == pairs[i];
      forall j | i < j < |init| ensures init[j].assigner != init[i].assigner {
        assert init[j] == pairs[j];
      }
      PairsDictKeepsLast(init, i);
    }
  }

  /**
   Look `name` up in the dictionary of the records: its recipient when some
   record has `name` as assigner, nothing otherwise.
   */
  function Lookup(pairs: seq<Pair>, name: Name): (r: Option<Name>)
    ensures r.None? <==> forall i :: 0 <= i < |pairs| ==> pairs[i].assigner != name
    ensures r.Some? ==> exists i :: 0 <= i < |pairs| && pairs[i] == Pair(name, r.value)
  {
    var d := PairsDict(pairs);
    if name in d then Some(d[name]) else None
  }

  /**
   With distinct assigners, every assigner finds exactly the recipient of its
   own record (the contract of `Lookup` pins the record down).
   */
  lemma LookupFindsOwnRecord(pairs: seq<Pair>, i: nat)
    requires DistinctAssigners(pairs) && i < |pairs|
    ensures Lookup(pairs, pairs[i].assigner) == Some(pairs[i].recipient)
  {
  }

  /** What the load-and-decrypt steps yield. */
  datatype Unlocked =
    | LoadFailed                   // the file vanished, was empty or could not be read
    | WrongPasswordOrCorrupt       // decryption failed: the two causes are not told apart
    | Decrypted(pairs: seq<Pair>)

  /** What the personal look-up reports. */
  datatype Outcome =
    | NoSavedPairs                 // no stored assignment yet: back to the menu
    | InvalidName                  // the name is not on the roster
    | NothingLoaded
    | AuthFailed
    | NotOnList                    // the decrypted records have no entry for the name
    | Recipient(recipient: Name)

  /**
   Menu choice 3: the stored file must exist, the name must be on the roster,
   and only then are the records decrypted and the name looked up.
   */
  function ShowPersonalManito(roster: seq<Name>, fileExists: bool, name: Name, unlocked: Unlocked): (out: Outcome)
    ensures out.NoSavedPairs? <==> !fileExists
    ensures out.InvalidName? <==> fileExists && name !in roster
    ensures out.NothingLoaded? <==> fileExists && name in roster && unlocked.LoadFailed?
    ensures out.AuthFailed? <==> fileExists && name in roster && unlocked.WrongPasswordOrCorrupt?
    ensures out.Recipient? <==>
      && fileExists && name in roster && unlocked.Decrypted?
      && exists i :: 0 <= i < |unlocked.pairs| && unlocked.pairs[i].assigner == name
    ensures out.Recipient? ==>
      && Lookup(unlocked.pairs, name) == Some(out.recipient)
      && exists i :: 0 <= i < |unlocked.pairs| && unlocked.pairs[i] == Pair(name, out.recipient)
    ensures out.NotOnList? <==>
      && fileExists && name in roster && unlocked.Decrypted?
      && forall i :: 0 <= i < |unlocked.pairs| ==> unlocked.pairs[i].assigner != name
  {
    if !fileExists then NoSavedPairs
    else if name !in roster then InvalidName
    else
      match unlocked
      case LoadFailed => NothingLoaded
      case WrongPasswordOrCorrupt => AuthFailed
      case Decrypted(pairs) =>
        match Lookup(pairs, name)
        case Some(r) => Recipient(r)
        case None => NotOnList
  }

  /**
   End to end: after a draw over at least two distinct names is stored and
   decrypted again, every roster member is shown a recipient that is on the
   roster and is not themselves; nobody falls into the not-found branch.
   */
  lemma DrawnPairsServeEveryMember(roster: seq<Name>, shuffled: seq<Name>, name: Name)
    requires Distinct(roster) && |roster| >= 2 && IsPermutationOf(shuffled, roster)
    requires name in roster
    ensures |shuffled| == |roster|
    ensures var out := ShowPersonalManito(roster, true, name, Decrypted(ManitoPairs(roster, shuffled)));
      out.Recipient? && out.recipient != name && out.recipient in roster
  {
    ManitoPairsIsAssignment(roster, shuffled);
    var pairs := ManitoPairs(roster, shuffled);
    var k :| 0 <= k < |roster| && roster[k] == name;
    var r := pairs[k].recipient;
    assert pairs[k].assigner == name && r != name;
    assert DistinctAssigners(pairs);
    LookupFindsOwnRecord(pairs, k);
    assert ShowPersonalManito(roster, true, name, Decrypted(pairs)) == Recipient(r);
    var recipients := Recipients(pairs);
    assert recipients[k] == r;
    PermutationSameMembers(roster, recipients, r);
  }
}

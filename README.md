# Secret-gift ("manito") pair assignment

This project models the core of a small command-line program that runs a secret-gift draw. The program keeps a fixed roster of club members. To draw, it copies the roster and shuffles the copy. It then makes one left-to-right pass over the copy. Whenever position `i` holds the name of the member at roster position `i`, it swaps that position with position `(i + 1) % n`. Finally, it pairs each roster member (the assigner) with the name at the same position of the repaired copy (the recipient). The list of records is encrypted and stored. Later, a member can enter their name, which is checked against the roster, and see only their own recipient.

Modules:

- `Roster` (`roster.dfy`) defines names, distinct rosters and reorderings. Reorderings are stated through multisets.
- `PairGenerator` (`pair_generator.dfy`) holds `create_manito_pairs`:
  - `CreateManitoPairs` is a method. It copies the shuffled roster into an array and repairs it in place with the same loop as the source. Then it builds the records.
  - The loop is proved against `FixUpFrom`, a function that performs the same pass one step (`FixStep`) at a time.
  - The lemmas about `FixUpFrom` give the properties of the draw.
- `PersonalLookup` (`personal_lookup.dfy`) holds three things:
  - the dictionary built from the decrypted records (`PairsDict`);
  - the membership look-up (`Lookup`);
  - the menu branch that guards it with the roster check (`ShowPersonalManito`).
  - The end-to-end lemma `DrawnPairsServeEveryMember` connects the draw to the look-up.

The result of `random.shuffle` is an input to the model: `shuffled` may be any reordering of the roster (`IsPermutationOf(shuffled, names)`). The hard-coded roster becomes the parameter `names`. The derangement properties assume that its names are distinct and that there are at least two of them.

Two behaviours of the code are worth stating outright:

- **Rosters with fewer than two names.** The code does not reject them. With one name, the swap partner `(0 + 1) % 1` is the position itself, so the self-pair survives (`SingleNameKeepsSelfPair`). With no names, the result is empty.
- **Adjacent self-pairs.** For distinct names, no self-pair survives the single pass, even when self-pairs sit next to each other. There are two reasons:
  - A swap at `i` moves `names[i]` into position `i + 1`, and `names[i]` differs from `names[i + 1]`.
  - A swap at the last position moves `names[n - 1]` into position 0, and `names[n - 1]` differs from `names[0]`.

  `FixUpFromDeranges` proves this for every reordering.

## Model

| member | source | states |
|---|---|---|
| `PairGenerator.NextIndex` | sp.py:64 | The swap partner of position `i` is a valid index. It is `i + 1`, except at the last position, where it wraps to 0. |
| `PairGenerator.FixStep` | sp.py:62-65 | One iteration keeps the length and yields a reordering of its input. It changes no position other than `i` and its swap partner. |
| `PairGenerator.FixUpFrom` | sp.py:61-65 | Running the rest of the pass from position `i` keeps the length of the copy. |
| `PairGenerator.FixUp` | sp.py:61-65 | The whole pass keeps the length of the copy. |
| `PairGenerator.FixUpFromIsPermutation` | sp.py:55-65 | The pass only swaps elements, so its result is a reordering (same multiset) of the shuffled copy. |
| `PairGenerator.FixUpFromDeranges` | sp.py:60-65 | The derangement invariant of the loop, stated in recursive form over the rest of the pass. Assume the names are distinct, there are at least 2, the copy is a reordering of the roster, and every position before `i` is already free of its own name. Then the rest of the pass leaves no position holding its own name. |
| `PairGenerator.FixUpDeranges` | sp.py:53-65 | For at least two distinct names, every shuffle is repaired into a derangement, with no position holding its own name. |
| `PairGenerator.MakePairs` | sp.py:68 | One record per roster name, in roster order. Reading the assigners back gives the roster, and reading the recipients back gives the repaired copy. |
| `PairGenerator.ManitoPairs` | sp.py:52-68 | The draw as a function of the shuffle. There is one record per roster name, in roster order. Its recipients are the repaired copy. If the shuffle reorders the roster, so do the recipients. The derangement is proved in `ManitoPairsIsAssignment`. |
| `PairGenerator.FixUpFromKeepsDerangement` | sp.py:61-62 | If the shuffle already has no self-pair, the pass swaps nothing and returns the shuffle unchanged. |
| `PairGenerator.FixStepWrapsAround` | sp.py:64-65 | At the last position, a swap moves the last name to position 0. The last position then holds the former first element. |
| `PairGenerator.SingleNameKeepsSelfPair` | sp.py:64 | With one name, the pass returns the roster itself, so that name draws itself. This is why the guarantee needs two names. |
| `PairGenerator.TwoNamesGiveTheSwap` | sp.py:52-65 | With two distinct names, the only possible draw is the two-cycle, whatever the shuffle was. |
| `PairGenerator.ManitoPairsIsAssignment` | sp.py:52-68 | The draw yields one record per roster name, in roster order. Record `i` has assigner `names[i]`. The recipients are a reordering of the roster. For at least two distinct names, no record has assigner equal to recipient. |
| `PairGenerator.CreateManitoPairs` | sp.py:52-68 | The method copies the shuffle into an array and repairs it in place. Its records equal the draw `ManitoPairs`. They follow roster order, their recipients are a reordering of the roster, and for at least two distinct names there is no self-pair. |
| `PersonalLookup.PairsDict` | sp.py:138 | The keys of the dictionary are exactly the assigners of the records. Every entry comes from one of the records. |
| `PersonalLookup.PairsDictKeepsLast` | sp.py:138 | Take a record whose assigner does not occur in any later record. The dictionary maps that assigner to that record's recipient. |
| `PersonalLookup.Lookup` | sp.py:140-143 | The look-up finds nothing exactly when no record has the name as assigner. Otherwise the value it finds is the recipient of a record for that name. |
| `PersonalLookup.LookupFindsOwnRecord` | sp.py:138-141 | If the assigners are distinct, every assigner finds the recipient of its own record. |
| `PersonalLookup.ShowPersonalManito` | sp.py:128-146 | This is the look-up routine together with the two guards of its menu branch (sp.py:197-207). The branch first requires the stored file. A name not on the roster is refused before anything is decrypted. Each outcome is tied to its cause, in both directions. A failed load reports nothing loaded, and a failed decryption reports one combined error. A recipient is shown exactly when the name is on the roster, the records decrypt, and some record names it as assigner. The recipient shown is that name's dictionary entry, taken from its record. "Not found" is reported exactly when no decrypted record has that assigner. |
| `PersonalLookup.DrawnPairsServeEveryMember` | sp.py:138-143 | Draw over at least two distinct names, store the records, then decrypt them again. Every roster member is then shown a recipient that is on the roster and is not themselves. |

## Left out

- The randomness of `random.shuffle` (sp.py:58) is not modelled. Its result is an arbitrary reordering of the roster, given as input, and its uniformity is not a property of the model.
- Key derivation and encryption (`generate_key`, `encrypt_data`, `decrypt_data`) are not modelled. They are PBKDF2, base64, Fernet and JSON calls into outside libraries. The model assumes that a successful decryption returns the list of records that was encrypted. Its outcome is the input `Unlocked`.
- A decrypted record that lacks one of its two keys is not modelled. In the source it raises inside the `try` and is reported like a wrong password. In the model, records always carry both fields.
- File access (`load_encrypted_file`, `encrypt_and_save_pairs`, `check_file_exists`) is not modelled, because it is operating-system I/O. Whether the file exists is the parameter `fileExists`. A failed load is `LoadFailed`.
- Console output is not modelled: `print_name_list`, the listing in `decrypt_and_show_pairs`, and every message.
- The interactive menu loop with `input` and `getpass` is not modelled. Only the personal look-up branch is, as `ShowPersonalManito`.
- The hard-coded roster literal is replaced by a parameter.

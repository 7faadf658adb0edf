# Secret Santa draw — a Dafny model

This project models the core of a browser "amigo invisible" (Secret Santa) tool
written as one React component, `src/App.jsx`:

- **The assignment engine.** `shuffle` is a Fisher–Yates shuffle on a copy of the
  participant list. `buildAssignments` does rejection sampling. It refuses fewer than
  `MIN_PLAYERS = 3` names. Otherwise it tries up to `MAX_ATTEMPTS = 500` shuffles.
  Each shuffle goes through a self-assignment pass and then a reciprocity pass over
  the giver→receiver `Map`. The first shuffle that passes both is returned as
  `{giver, receiver}` pairs in input order.
- **The interaction shell.** The component state (`names`, `input`, `pairs`,
  `currentIndex`, `revealed`, `error`) and its handlers: add, remove, clear the list,
  draw, reveal, next and reset.

Modules:

| file | module | what |
|---|---|---|
| `common.dfy` | `Common` | `Pair`, the error kinds, `Result`, `Option`, `Distinct` |
| `shuffling.dfy` | `Shuffling` | `Shuffle` (in place on a fresh array) and its specification `Shuffled` |
| `engine.dfy` | `Engine` | the two passes, `BuildAssignments`, its specification `Assign`, and the lemmas |
| `shell.dfy` | `Shell` | class `App` with the component's state and handlers |

How the model is put together:

- **Randomness.** The random draw `Math.floor(Math.random() * (i + 1))` is a parameter.
  `Picks = nat -> nat` gives the index drawn at loop position `i`. `Draws = nat -> Picks`
  gives one round of picks per attempt. The only thing assumed about the random
  source is its range, `0 <= pick(i) <= i` (`PicksInRange`, `DrawsInRange`).
- **Specification functions.** `Shuffle` is proved equal to the function `Shuffled`.
  `BuildAssignments` is proved equal to the function `Assign`. Every property of a
  draw is a lemma about `Assign`.
- **The `Map`.** It is a `map<string, string>` built one `set` at a time (`MapOf`).
  The reciprocity pass visits the map's keys. JavaScript visits them in insertion
  order; the model takes them in any order. The pass's outcome is the same either way.
- **Duplicate names.** The UI never lets duplicates reach the engine, but the engine
  does not check for them. The model keeps the code's behaviour: a later giver with
  the same name overwrites the earlier `Map` entry. No self-assignment and no
  reciprocal pair are proved for every input. Only "every participant receives
  exactly once" is proved under `Distinct(names)`, because it only holds then.
- **`trim`.** `String.prototype.trim` is passed to `App.Add` as a function. Nothing is
  assumed about it.
- **Error text.** The shell's empty error string is `None`. Each message is
  `Some(kind)`: `InsufficientParticipants`, `NoValidAssignmentFound` or
  `DuplicateParticipant`.

Two consequences of the code itself:

- The engine does not check for duplicate names; only the add handler does
  (src/App.jsx:72). The engine model therefore takes any list.
- The reciprocity pass scans the entries of the `Map` that was built
  (src/App.jsx:38-43). With duplicate names that map has fewer entries than there
  are names.

## Model

| member | source | states |
|---|---|---|
| `Shuffling.Shuffle` | src/App.jsx:7-14 | the result is the shuffle `Shuffled(list, pick)` worked out on a fresh copy, has the input's length and the same multiset of elements (a permutation); the input is a value and is not changed |
| `Shuffling.ShuffleDown` | src/App.jsx:9-12 | the loop from position `i` down to 1, exchanging position `i` with the drawn `pick(i) <= i`, keeps the length |
| `Shuffling.ShuffleDownIsPermutation` | src/App.jsx:9-12 | the exchanges of the shuffle loop keep every element as often as before (same multiset) |
| `Shuffling.ShuffleDownReadsOnlyItsDraws` | src/App.jsx:9-10 | the shuffle depends only on the draws made at positions 1..i: two random rounds that agree there give the same list |
| `Shuffling.Swap` | src/App.jsx:11 | the destructuring exchange of positions `i` and `j`; keeps the length (that it keeps the multiset is part of `ShuffleDownIsPermutation`) |
| `Shuffling.Shuffled` | src/App.jsx:7-14 | no contract; the whole loop, `ShuffleDown` from the last position; its permutation property is `ShuffleDownIsPermutation`, and `Shuffle` is proved equal to it |
| `Engine.MapOf` | src/App.jsx:23-33 | after `k` givers have been `set`, each of the first `k` givers is a key of the map |
| `Engine.MapOfDistinct` | src/App.jsx:26-33 | with distinct names, the map sends each giver `names[i]` to `receivers[i]` |
| `Engine.MapOfNoSelf` | src/App.jsx:26-34 | if no giver was paired with itself, no key of the map is its own value, even when a name repeats and later entries overwrite earlier ones |
| `Engine.NoSelfAssignment` | src/App.jsx:26-32 | no contract; the test of the first pass: no position has `names[i] == receivers[i]`; `SelfAssignmentPass` is proved to succeed exactly when it holds |
| `Engine.Reciprocal` | src/App.jsx:39 | no contract; the test of one entry: the receiver of `giver` is a key whose value is `giver` (an absent key never matches, as `undefined` does not) |
| `Engine.NoReciprocal` | src/App.jsx:38-43 | no contract; no entry of the map is reciprocal; `ReciprocityPass` is proved to succeed exactly when it holds |
| `Engine.Accepted` | src/App.jsx:26-45 | no contract; both passes let the candidate through; characterised by `AcceptedIffDerangementWithoutTwoCycles` and turned into a valid assignment by `AcceptedIsValid` |
| `Engine.PairsOf` | src/App.jsx:46 | no contract; `names.map(giver => ({giver, receiver: assignments.get(giver)}))`; its properties are in `AcceptedIsValid` |
| `Engine.SelfAssignmentPass` | src/App.jsx:23-34 | the first pass succeeds exactly when no `names[i]` equals `receivers[i]`, and then returns the complete giver→receiver map |
| `Engine.ReciprocityPass` | src/App.jsx:38-43 | the second pass succeeds exactly when no entry `giver → receiver` has `get(receiver) === giver` |
| `Engine.BuildAssignments` | src/App.jsx:16-51 | the imperative attempt loop returns exactly `Assign(names, draw)`: the too-few refusal, the first accepted candidate as pairs, or the failure after `MAX_ATTEMPTS` |
| `Engine.Candidate` | src/App.jsx:22 | the receiver list of an attempt is a rearrangement of the names (same length, same multiset) |
| `Engine.Candidates` | src/App.jsx:21-22 | there are exactly `MAX_ATTEMPTS` candidates and each is a rearrangement of the names |
| `Engine.TryFrom` | src/App.jsx:21-50 | no contract; the attempt loop from a given attempt: the pairs of the first accepted candidate, or `NoValidAssignmentFound` after the last; see `TryFromValid`, `TryFromFails`, `TryFromFirst` |
| `Engine.Assign` | src/App.jsx:16-51 | no contract; the refusal below `MIN_PLAYERS`, then `TryFrom` over the `MAX_ATTEMPTS` candidates; see `AssignRefusesTooFew`, `AssignSound`, `AssignFailsOnlyWhenAllRejected`, `AssignReturnsFirstAccepted` |
| `Engine.AcceptedIsValid` | src/App.jsx:45-46 | an accepted rearrangement, turned into pairs in input order, is a valid assignment: givers are the names in order, no self-pair, no reciprocal pair, and with distinct names the receivers are a permutation of the names |
| `Engine.TryFromValid` | src/App.jsx:21-47 | whatever the attempt loop returns from a given attempt on is a valid assignment |
| `Engine.TryFromFails` | src/App.jsx:21-50 | from a given attempt on, the loop fails exactly when no remaining candidate is accepted, and the failure is `NoValidAssignmentFound` |
| `Engine.TryFromFirst` | src/App.jsx:21-47 | the loop returns the pairs of the first accepted candidate |
| `Engine.AssignRefusesTooFew` | src/App.jsx:17-19 | `buildAssignments` fails with `InsufficientParticipants` if and only if there are fewer than `MIN_PLAYERS` names, before any attempt |
| `Engine.AssignSound` | src/App.jsx:45-46 | a successful draw had at least 3 names; it has one entry per name; `result[i].giver == names[i]`; nobody gives to themself; for `a → b` the entry of giver `b` does not give to `a`; with distinct names every participant receives exactly once |
| `Engine.AssignFailsOnlyWhenAllRejected` | src/App.jsx:21-50 | with enough names the draw fails if and only if every one of the `MAX_ATTEMPTS` candidates is rejected, and the error is then `NoValidAssignmentFound` |
| `Engine.AssignReturnsFirstAccepted` | src/App.jsx:21-47 | the success is the pairs of the first accepted candidate among the 500 |
| `Engine.AssignReadsOnlyItsRounds` | src/App.jsx:21-22 | the engine makes at most `MAX_ATTEMPTS` candidate draws: random sources that agree on those rounds give the same outcome |
| `Engine.NeverTooFewIff` | src/App.jsx:17-19 | no random source makes the engine refuse a list as too short exactly when the list has at least `MIN_PLAYERS` names |
| `Engine.AcceptedIffDerangementWithoutTwoCycles` | src/App.jsx:26-43 | for distinct names, the two passes accept a candidate if and only if it is a derangement with no 2-cycle, stated positionally (no `receivers[i] == names[i]`; if `i` gives to `j` then `j` does not give to `i`) |
| `Engine.TwoNamesNeverAccepted` | src/App.jsx:4 | two distinct names have no acceptable rearrangement, which is why the minimum is 3 |
| `Engine.ThreeNamesOnlyCycles` | src/App.jsx:26-43 | of the rearrangements of three distinct names, exactly the 3-cycles A→B→C→A and A→C→B→A are accepted |
| `Shell.Without` | src/App.jsx:82 | the filtered list holds exactly the old names other than the removed one; it is unchanged if the name was absent; with distinct names it stays distinct and loses exactly one entry when the name was present |
| `Shell.App.constructor` | src/App.jsx:54-59 | the initial state: no names, empty input, no error, no draw, index 0, nothing revealed |
| `Shell.App.CanDraw` | src/App.jsx:62 | the draw button is enabled exactly when no random source can make the engine refuse the list as too short |
| `Shell.App.Valid` | src/App.jsx:54-111 | no contract; the invariant every handler keeps: names distinct and non-empty, and a draw on screen is an assignment set whose reveal position lies inside it (no position without a draw) |
| `Shell.App.CurrentPair` | src/App.jsx:63 | under the invariant, there is a current entry exactly when a draw is on screen, and it is one of the draw's pairs |
| `Shell.App.SetInput` | src/App.jsx:164 | typing sets the text box and changes nothing else |
| `Shell.App.Add` | src/App.jsx:69-79 | an empty trim changes nothing; a duplicate (exact match) leaves the list unchanged and sets `DuplicateParticipant`; otherwise the trimmed name is appended at the end, the input emptied and the error cleared; the names stay distinct and non-empty |
| `Shell.App.Remove` | src/App.jsx:81-84 | the list becomes the old list without the name, order kept, and the error is cleared |
| `Shell.App.ClearList` | src/App.jsx:189 | the list is emptied; the draw and the error are left alone |
| `Shell.App.Draw` | src/App.jsx:86-96 | on success the draw replaces `pairs`, the index goes to 0, the receiver is hidden and the error is cleared; on failure only the error is set and the previous draw and reveal position survive; the invariant (a draw on screen is an assignment set with the index inside it) is kept |
| `Shell.App.Reveal` | src/App.jsx:216 | the receiver of the current entry is shown |
| `Shell.App.Next` | src/App.jsx:98-105 | when `currentIndex < |pairs| - 1` the index advances by one, the receiver is hidden and `pairs` is unchanged; otherwise the shell resets to no draw, index 0, hidden; `currentIndex < |pairs|` holds whenever `pairs` is non-empty |
| `Shell.App.Reset` | src/App.jsx:107-111 | the draw is discarded, the index is 0 and nothing is revealed |

## Left out

- Rendering: JSX, CSS classes, the GitHub link and icon, and the progress label (src/App.jsx:120-245). These are presentation. Which receiver is on screen follows from `CurrentPair` and `revealed`; the markup itself is not modelled.
- The theme toggle and the effect that writes `data-theme` to the document body (src/App.jsx:60, 65-67, 151). This is DOM I/O.
- `Math.random` and the floating-point `Math.floor(... * (i + 1))` (src/App.jsx:10). They are replaced by the `Picks`/`Draws` parameters. Uniformity of the shuffle and the probability of success are not modelled.
- The Spanish message texts (src/App.jsx:18, 50, 73). They are replaced by the three error kinds.
- The Unicode whitespace rules of `String.prototype.trim` (src/App.jsx:70). `trim` is a parameter of `App.Add`.
- The Enter-key handler (src/App.jsx:113-118). It only calls the add handler.
- React's state hooks and `useMemo` (src/App.jsx:54-63). The state is plain fields of `App`, and every handler applies its updates at once, as React does when it re-renders.
- `Shell.App.Reveal`: the button only exists while a draw is on screen. The model lets it be called at any time, as the handler itself does not check.
- `Shuffling.Shuffle`: the input is a Dafny sequence, which is a value, so "the input list is unchanged" holds by construction and is not a separate postcondition.
- `Engine.BuildAssignments`: its two passes are separate methods (`SelfAssignmentPass`, `ReciprocityPass`) called from the attempt loop rather than written inline. The `break` at the first failing entry, the map and the outcome are the same as in the code.

# comparisonator comparison engine, modelled in Dafny

comparisonator ranks a list of items by asking a judge to compare them two at
a time. A session names one of two comparison strategies, and the engine
state lives in the session as a serialised blob. This project models the
engine core as pure functions over immutable state:

- **Exhaustive strategy** (`full`, module `Full`, `full.dfy`):
  - every unordered pair of items is judged exactly once;
  - the results list each item with its number of wins, stably sorted, most
    wins first (module `StableSort`, `stable_sort.dfy`).
- **Assumed-transitive strategy** (`assuming`, module `Assuming`,
  `assuming.dfy`): an online insertion sort. Items wait in `remaining`. A
  cursor probes each challenger down the ranking from the top. The challenger
  is spliced in before the first ranked item it beats, or appended after the
  last one.
- **Strategy selector** (module `Engine`, `engine.dfy`): maps the session's
  comparison type to a strategy.
- **Shared shapes** (module `Types`, `types.dfy`):
  - items, comparisons, the session record and the save errors;
  - helpers that mirror Python's slicing, `list.index` and `list.insert`.

Each repository method becomes a function from the current state to a result
or a new state. Where the code raises an exception of its own, the model
returns a `SaveError` value:
- `DuplicateComparison`, `InvalidPair` and `WinnerOutOfRange` for the code's
  own `AppError`s;
- `Unhandled` for an IndexError, ValueError or TypeError the code does not
  catch.

No state change happens on any error path, as in the code: every raise comes
before the first mutation.

The judge of the assumed-transitive strategy is modelled as a score function
that is injective on the session's items. The verdict is 0 exactly when the
challenger scores higher. Under that judge the model proves:
- the insertion sort always terminates;
- it ranks every item exactly once, in score order;
- the final ranking does not depend on the random shuffle.

For the exhaustive strategy the model proves:
- the nested loop builds exactly the pending pairs;
- for a session whose item names are distinct, the reported count
  `comb(n, 2) - |comparisons|` equals the length of that list in every
  reachable state;
- for such a session, each save takes exactly one pair off the list;
- the results keep every item, sum to the number of comparisons, and keep
  ties in session order.

Some behaviour of the code is easy to misread; the model follows the code:
- The assumed-transitive strategy accepts a submission whose items form the
  same *set* as the offered pair (`assuming_comparison.py:132`), not only the
  exact pair. The model checks set equality, and treats `items[0]` as the
  challenger, as the code does. Once the ranking is bootstrapped, a reversed
  pair therefore passes validation, then fails in `list.index` (`Unhandled`).
  During the bootstrap it is accepted and ranked correctly.
- A blob that parses is taken as it is. Nothing checks that it refers to the
  session's items.
- The selector's modes are the strings `"full"` and `"assuming"`. Any other
  string raises `NotImplementedError`.
- A session with a single item never finishes under the assumed-transitive
  strategy. The bootstrap offers the lone item, and saving it fails on
  `items[1]` (`Assuming.OneItemSessionStalls`).

## Model

| member | source | states |
|---|---|---|
| Types.ItemSet | src/repository/comparison/full_comparison.py:61 | Python's `set(items)`: exactly the elements of the list |
| Types.Take | src/repository/comparison/assuming_comparison.py:107 | `s[:2]` is the whole list when it is shorter, else its first two elements |
| Types.Drop | src/repository/comparison/assuming_comparison.py:149 | `s[2:]` is empty, not an error, when the list is shorter, else the suffix |
| Types.IndexOf | src/repository/comparison/assuming_comparison.py:155 | `list.index` gives the first position holding the value; it is None (ValueError) exactly when the value is absent |
| Types.Insert | src/repository/comparison/assuming_comparison.py:154-156 | `list.insert(i, x)` puts `x` at `i`, keeps the prefix and shifts the suffix, adding exactly one `x` |
| Assuming.Load | src/repository/comparison/assuming_comparison.py:18-48 | an unparseable blob gives an empty ranking, no comparisons and no cursor, with the shuffled items waiting; a parsed blob gives each field as stored, an absent list key giving an empty list and an absent cursor no cursor |
| Assuming.LoadFallbackInv | src/repository/comparison/assuming_comparison.py:42-48 | the shuffle fallback satisfies the invariant: ranking, waiting items and cursor item are a permutation of the session items, with no history |
| Assuming.NextPair | src/repository/comparison/assuming_comparison.py:105-118 | None exactly when the ranking is bootstrapped and nothing is unplaced; before the bootstrap, the first two waiting items (fewer if fewer wait); after it, the cursor's item or else the first waiting item, against the ranked item at the probe position (0 when no cursor) |
| Assuming.NextPairFresh | src/repository/comparison/assuming_comparison.py:105-118 | in a valid state the offered pair is two distinct session items, its first item is not yet ranked, and the pair has never been judged |
| Assuming.NextPairNoneIffComplete | src/repository/comparison/assuming_comparison.py:115-116 | the next pair is None exactly when the ranking is a permutation of the session items |
| Assuming.PendingCount | src/repository/comparison/assuming_comparison.py:102-103 | the pending count is never reported |
| Assuming.Save | src/repository/comparison/assuming_comparison.py:126-178 | duplicate pair first; then, with no next pair, the TypeError of `set(None)`; then a set differing from the offered pair, then a winner outside {0,1}; success appends exactly the submission to the history and grows the finished count by one |
| Assuming.Resolve | src/repository/comparison/assuming_comparison.py:138-175 | the state change after validation: a list shorter than two raises IndexError; before the bootstrap the ranking becomes the two submitted items, winner first, with no cursor; after it the submission fails (ValueError) exactly when its second item is not ranked; the history is left for the caller |
| Assuming.ResolveSteady | src/repository/comparison/assuming_comparison.py:151-175 | after the bootstrap a challenger win adds exactly the challenger to the ranking and clears the cursor; an incumbent win either appends the challenger after the last ranked item, or keeps the ranking and points the cursor just below the incumbent |
| Assuming.FinishedCount | src/repository/comparison/assuming_comparison.py:123-124 | the number of judged comparisons: zero exactly when none has been judged, and one more after each accepted save (see Assuming.Save) |
| Assuming.Results | src/repository/comparison/assuming_comparison.py:180-181 | one entry per ranked item, in ranking order, each with the item's name and no score |
| Assuming.NextPairAccepted | src/repository/comparison/assuming_comparison.py:126-136 | submitting the offered pair with either winner passes every check and is saved |
| Assuming.SteadySubmission | src/repository/comparison/assuming_comparison.py:132-133 | once bootstrapped, an accepted two-item submission is the offered pair in order: the unranked challenger, then the incumbent at the probe position |
| Assuming.BootstrapShape | src/repository/comparison/assuming_comparison.py:142-149 | the bootstrap save ranks winner then loser, drops two waiting items, clears the cursor and records the comparison |
| Assuming.BootstrapStep | src/repository/comparison/assuming_comparison.py:142-149 | the two newly ranked items are exactly the first two waiting items, and the rest keep waiting in order |
| Assuming.BootstrapInv | src/repository/comparison/assuming_comparison.py:142-149 | the bootstrap save keeps the invariant |
| Assuming.SteadyShape | src/repository/comparison/assuming_comparison.py:151-175 | the three outcomes: a challenger win splices it in at the probe position; an incumbent win at the last position appends it; any other incumbent win advances the cursor by one. A fresh challenger leaves the waiting list in either case |
| Assuming.SpliceKeepsOthers | src/repository/comparison/assuming_comparison.py:154-156 | a challenger win puts the challenger at the incumbent's old index, and removing it gives back the old ranking, so all other relative orders are unchanged |
| Assuming.InsertInv | src/repository/comparison/assuming_comparison.py:151-160 | the splice keeps the invariant |
| Assuming.AppendInv | src/repository/comparison/assuming_comparison.py:165-168 | appending a challenger that lost at the last position keeps the invariant |
| Assuming.AdvanceInv | src/repository/comparison/assuming_comparison.py:169-175 | advancing the cursor keeps the invariant, including `1 <= test_pos <= len(ranking) - 1` |
| Assuming.SavePreservesInv | src/repository/comparison/assuming_comparison.py:138-178 | every successful save keeps the invariant: the items stay partitioned, the cursor stays in bounds, the judged pairs stay distinct, and every judged pair is ranked or above the cursor |
| Assuming.SaveMakesProgress | src/repository/comparison/assuming_comparison.py:142-175 | every successful save either grows the ranking, placing at least one more item (two at the bootstrap), or keeps it and strictly raises the cursor's position |
| Assuming.VerdictRanksPair | src/repository/comparison/assuming_comparison.py:143-146 | the bootstrap ranking `[winner, loser]` is in score order under a consistent judge |
| Assuming.InsertOrdered | src/repository/comparison/assuming_comparison.py:151-160 | a challenger that beats the incumbent, having lost to everything above it, is spliced into a still-sorted ranking |
| Assuming.AppendOrdered | src/repository/comparison/assuming_comparison.py:165-168 | a challenger that lost to every ranked item is appended to a still-sorted ranking |
| Assuming.AdvanceOrdered | src/repository/comparison/assuming_comparison.py:169-175 | after a loss the challenger is worse than every ranked item above its new test position |
| Assuming.SavePreservesOrder | src/repository/comparison/assuming_comparison.py:151-175 | with a consistent judge, every save keeps the ranking sorted best-first |
| Assuming.Run | src/main.py:110-147 | the interactive loop against a consistent judge terminates in a state with no next pair that still satisfies the invariant and the order |
| Assuming.SortedUnique | src/repository/comparison/assuming_comparison.py:180-181 | two rankings of the same items, both sorted by the same strict order, are equal |
| Assuming.RunRanksAllItems | src/repository/comparison/assuming_comparison.py:151-175 | from a fresh session the final ranking is every session item exactly once, sorted by the judge |
| Assuming.ShuffleIrrelevant | src/repository/comparison/assuming_comparison.py:42-48 | the results at the end are the same for any two shuffles of the items |
| Assuming.ResultsAtEnd | src/repository/comparison/assuming_comparison.py:180-181 | once there is no next pair, the results list every session item, each with no score |
| Assuming.AlphabeticalScenario | src/repository/comparison/assuming_comparison.py:180-181 | items A, B, C, judged alphabetically, end as A, B, C from any shuffle |
| Assuming.OneItemSessionStalls | src/repository/comparison/assuming_comparison.py:142-146 | a one-item session offers that item alone, and every submission of it fails, with an IndexError when the winner is 0 or 1 |
| Full.Load | src/repository/comparison/full_comparison.py:19-22 | an unparseable blob yields no comparisons; a parsed one is taken as is |
| Full.LoadValid | src/repository/comparison/full_comparison.py:19-22 | the empty fallback satisfies the invariant whenever the items are distinct |
| Full.GetPendingComparisons | src/repository/comparison/full_comparison.py:35-45 | the nested loop over `i < j` builds exactly the reference list of unjudged pairs, in `(i, j)` order |
| Full.Pending | src/repository/comparison/full_comparison.py:35-45 | every listed pair is a candidate pair `(items[i], items[j])`, `i < j`, whose unordered pair has not been judged (the converse is Full.PendingMembers) |
| Full.PendingMembers | src/repository/comparison/full_comparison.py:35-45 | a pair is pending exactly when it is `(items[i], items[j])` with `i < j` and its unordered pair has not been judged |
| Full.PairsFromDistinct | src/repository/comparison/full_comparison.py:39-41 | with distinct items, no two candidate pairs are the same unordered pair |
| Full.PairsFromLength | src/repository/comparison/full_comparison.py:47-48 | there are `comb(n, 2)` candidate pairs |
| Full.PendingCountMatches | src/repository/comparison/full_comparison.py:47-48 | in every valid state the reported count `comb(n, 2) - len(comparisons)` is the length of the pending list |
| Full.PendingCount | src/repository/comparison/full_comparison.py:47-48 | in every valid state the count `comb(n, 2) - len(comparisons)` is the length of the pending list |
| Full.NextPair | src/repository/comparison/full_comparison.py:50-52 | None exactly when nothing is pending; otherwise `list` of one pending pair's set: two different items, or one when a repeated session item makes the set a singleton |
| Full.NextPairOfDistinct | src/repository/comparison/full_comparison.py:50-52 | with distinct session items the offered list always has two items |
| Full.Save | src/repository/comparison/full_comparison.py:60-72 | duplicate first, then not pending, then winner outside the item list; a submission passing all three is appended, and success appends exactly the submission |
| Full.NextPairAccepted | src/repository/comparison/full_comparison.py:60-68 | the offered list, in either order, with any of its indices as the winner, is accepted |
| Full.SavePreservesValid | src/repository/comparison/full_comparison.py:60-72 | every successful save keeps the invariant: the items are distinct, the judged pairs are distinct, and each is a pair of session items with a valid winner |
| Full.SaveRemovesPair | src/repository/comparison/full_comparison.py:70-72 | a successful save removes the submitted pair from the pending list, keeps every other pending pair, and shortens the list by one |
| Full.RepeatedNamesMiscount | src/repository/comparison/full_comparison.py:35-48 | with a repeated item name the count and the list disagree: in session `[a, a, b]` the first save of `{a, b}` is accepted, leaves only `(a, a)` pending, and the count reports 2 |
| Full.CompletionIff | src/repository/comparison/full_comparison.py:47-52 | a valid state never has more comparisons than pairs; the next pair is None exactly when all `comb(n, 2)` pairs are judged, exactly when the count is 0 |
| Full.ValidWinnersKnown | src/repository/comparison/full_comparison.py:79-81 | in a valid state every winner is a session item, so the tally never raises KeyError |
| Full.Wins | src/repository/comparison/full_comparison.py:79-81 | an item's win count never exceeds the number of comparisons, and is zero exactly when no comparison names it the winner |
| Full.Tally | src/repository/comparison/full_comparison.py:75-81 | the tally dictionary has one entry per session item, in item order |
| Full.TallyIndex | src/repository/comparison/full_comparison.py:75-81 | the tally has one entry per item, in item order, holding that item's number of wins |
| Full.TallyTotal | src/repository/comparison/full_comparison.py:79-81 | the win counts add up to the number of comparisons |
| Full.Results | src/repository/comparison/full_comparison.py:74-85 | the results are a permutation of the tally, one entry per item, with larger counts first |
| Full.ResultsProperties | src/repository/comparison/full_comparison.py:74-85 | the results hold every item once with its wins, sum to the number of comparisons, are non-increasing, and keep equal counts in item order |
| Full.ResultsOfFresh | src/repository/comparison/full_comparison.py:75-77 | with no comparisons every item is listed with 0, in session order |
| Full.CycleScenario | src/repository/comparison/full_comparison.py:83-84 | a three-way tie keeps the session order |
| Full.ChainScenario | src/repository/comparison/full_comparison.py:74-85 | B over A, A over C and B over C give B 2, A 1, C 0 |
| StableSort.SortDesc | src/repository/comparison/full_comparison.py:84 | the sort is a permutation with the same total, largest count first, and entries with equal counts keep their input order |
| Engine.Select | src/repository/comparison_engine.py:15-20 | `"full"` gives the exhaustive strategy, `"assuming"` the assumed-transitive one, and every other string NotImplementedError |
| Engine.ModeName | src/repository/comparison_engine.py:15-18 | each strategy's name is one of the two accepted strings |
| Engine.RepositoryFor | src/repository/comparison_engine.py:12-20 | the chosen strategy's name is the session's comparison type; it fails exactly when that type is neither name |
| Engine.SelectRoundTrip | src/repository/comparison_engine.py:15-18 | each strategy is selected by its own name and by no other string |
| Engine.OnlyTypeMatters | src/repository/comparison_engine.py:15-20 | sessions with the same comparison type get the same strategy, whatever else differs |
| Engine.CaseSensitive | src/repository/comparison_engine.py:15-20 | matching is exact: `"Full"`, `"ASSUMING"`, `"full "` and `""` are all rejected |

## Left out

- JSON encoding and decoding with dacite (`json.loads`, `from_dict`, `asdict`, `json.dumps`) is not modelled. A blob is an `Option`: `None` stands for any parse failure, and `Some` for the parsed fields.
- Persistence is not modelled: the `session` setter, `_update_session_data` and the `comparisons` setter. Each operation returns its new state instead.
- `random.shuffle` and `random.choice` are not modelled. They become parameters:
  - a `shuffled` sequence, required to be a permutation of the items;
  - a `pick` index, taken modulo the pending length;
  - a `swap` flag for the order in which `list(set)` lists the pair.
- The click CLI, the filesystem session store, `src/utils.py` and the message text of `AppError` are not modelled. The CLI loop appears only as `Assuming.Run`, which drives saves with a judge's verdicts.
- `src/entity/item.py` is not part of this model. An item is taken to be a value identified by its name, so equal names mean equal items.
- Full.PendingCountMatches, Full.SaveRemovesPair and Full.CompletionIff: hold only for sessions whose item names are distinct (part of `Full.Valid`). The code accepts repeated names; then one save can take several candidate pairs off the list and the count no longer matches it (`Full.RepeatedNamesMiscount`).
- Full.Results: requires distinct items and winners that are session items. With duplicate names the dictionary merges entries, and an unknown winner raises KeyError; neither case is modelled.
- Full.Results: a negative winner index in a parsed blob would index from the end of the list. The model requires `0 <= winner`.
- Assuming.NextPair: requires the stored cursor to index the ranking. A corrupted blob with an out-of-range `test_pos` would raise IndexError, or wrap around for a negative index; the model does not cover that.
- Assuming.SavePreservesInv: assumes a session of at least two distinct items and a two-item submission. It does not cover the following cases:
  - Longer submissions that pass the set check, such as `[a, a, b]` during the bootstrap. These can rank an item twice.
  - The one-item session, which instead never finishes (`Assuming.OneItemSessionStalls`).
- Assuming.SaveMakesProgress, Assuming.SavePreservesOrder and Assuming.Run carry the same two-item assumptions as SavePreservesInv.
- The judge is only modelled as consistent with a strict total order, given as a score. Inconsistent (intransitive) judges are outside the stated properties.
- `get_finished_comparisons` is a plain accessor: the state's comparison list. Its count is `Assuming.FinishedCount`; in the exhaustive strategy it is the length of the comparison list, used inside `Full.PendingCount`.

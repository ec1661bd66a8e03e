# Combination Sum III — memoized digit search

This project models `Solution.combinationSum3(k, n)`. It returns every combination of
exactly `k` distinct digits from 1..9 that sums to `n`. Each combination is a list in
ascending order. The answer comes from `Solution.helper(k, n, start, sum_so_far, memo)`,
a depth-first search with three parts:

- guards that cut off hopeless states;
- a candidate loop over `start..9` that stops at the first digit overrunning `n`;
- a memo dictionary that every recursive call shares and writes into.

The repository holds the code twice: `array/combined_sum_III.py` and
`blind75/combined_sum_III.py` are identical, line for line. The table cites the `array/`
copy, and every row applies to the same lines of the `blind75/` copy.

Two modules:

- `CombinationSearch` (`search.dfy`) gives the value of one call without the memo.
  `Search` covers the guards, in source order. `Expand` covers the loop from digit `i`
  onwards, including its `break`. `IsCompletion` and `IsCombination` describe the
  intended result independently: the right number of digits, ascending, inside the
  digit range, with the right sum. The lemmas prove that the search returns exactly
  those sequences, in ascending lexicographic order, with no repeats.
- `Solution` (`solution.dfy`) is the code as it runs. `Memo` is the dictionary, shared
  by reference and updated in place. `Helper` builds `res` by appending inside a loop
  with the same `break`, then stores `res` in the memo. `CombinationSum3` allocates
  a fresh memo and starts at `(k, n, 1, 0)`. Both methods are proved equal to
  `Search`. The loop invariant says `res` equals `Appended`, the blocks appended by the
  iterations so far, and `ExpandStop` shows that this is the whole result once the loop
  ends. `Memo.Valid()` says every stored entry equals `Search` on its key, so a
  cache hit returns exactly what recomputation would.

The memo key is the string `f"{k}, {n}, {start}, {sum_so_far}"`. Integers printed with
a `", "` separator never collide, so the model keys the memo by the 4-tuple
`(k, n, start, sumSoFar)` and stores the same entries.

## Model

| member | source | states |
|---|---|---|
| `Solution.Helper` | array/combined_sum_III.py:9-29 | Returns exactly the uncached search result, whatever valid entries the memo already holds. It keeps every memo entry equal to the search on its key, so a hit equals recomputation. Memo entries are only ever added. A call that passes the guards leaves its own key in the memo. A call answered by a guard leaves the memo unchanged. |
| `Solution.CombinationSum3` | array/combined_sum_III.py:5-7 | Starts from a fresh memo at `(k, n, 1, 0)`. The result holds exactly the sequences of `k` ascending digits from 1..9 that sum to `n`. It is in strictly ascending lexicographic order and has no duplicates. |
| `Solution.Memo.constructor` | array/combined_sum_III.py:6 | The memo starts empty. |
| `Solution.Memo.Store` | array/combined_sum_III.py:28 | `memo[key] = res`: the table afterwards is the old table with `key` mapped to `res`. Storing the search's value keeps every entry faithful. |
| `Solution.AppendWithDigit` | array/combined_sum_III.py:24-25 | Appends every completion of the recursive call to `res`, in order, each with digit `i` in front. |
| `CombinationSearch.AppendedThenExpand` | array/combined_sum_III.py:20-27 | Suppose the iterations before `i` ran without overrunning. Then what they appended, followed by what the iterations from `i` append, is everything the loop appends. |
| `CombinationSearch.ExpandStop` | array/combined_sum_III.py:26-27 | When the loop passes digit 9 or breaks at the first overrun, `res` already holds everything the call returns. |
| `CombinationSearch.Search` | array/combined_sum_III.py:9-29 | A definition without a contract. It follows `helper` without the memo: the three guards in source order, then the candidate loop. |
| `CombinationSearch.Expand` | array/combined_sum_III.py:19-27 | A definition without a contract. It follows the candidate loop from digit `i`: it stops past 9 or at the first overrun (the `break`), and otherwise appends the block for `i` before the later iterations. |
| `CombinationSearch.Prepend` | array/combined_sum_III.py:24-25 | A definition without a contract. It follows the inner loop: `[i] + r` for each `r` of the recursive result, in order. |
| `CombinationSearch.Combinations` | array/combined_sum_III.py:5-7 | A definition without a contract. It is the value of `combinationSum3`: the search from `(k, n, 1, 0)`. |
| `CombinationSearch.Appended` | array/combined_sum_III.py:20-25 | A definition without a contract. It is what the loop has appended to `res` before iteration `i`: the blocks for digits `start..i-1`. |
| `CombinationSearch.SearchSound` | array/combined_sum_III.py:9-29 | Each returned sequence has `k` digits, ascending, drawn from `start..9`. They bring `sum_so_far` to exactly `n`. A negative `n` gives a result only when no picks remain. |
| `CombinationSearch.ExpandSound` | array/combined_sum_III.py:19-27 | Each sequence the loop appends from iteration `i` onwards is non-empty and is a valid completion. Its first digit is at least `i`. |
| `CombinationSearch.SearchComplete` | array/combined_sum_III.py:9-29 | From any state whose next digit is at least 1, the search returns every valid completion. The one exception is a negative target with picks left. |
| `CombinationSearch.ExpandComplete` | array/combined_sum_III.py:20-27 | The early `break` loses nothing. For `i >= 1` and `n >= 0`, every non-empty completion whose digits are all at least `i` is in the loop's output from `i`. |
| `CombinationSearch.SearchExact` | array/combined_sum_III.py:9-29 | For `start >= 1`, a sequence is returned exactly when it is a valid completion and either the target is non-negative or no picks remain. This is both directions of the equivalence. |
| `CombinationSearch.PruningIsSafe` | array/combined_sum_III.py:12-15 | Take any state reachable from the top call (next digit at least 1, partial sum not negative). If the guards reject it, the call returns `[]`, and the state has no valid completion at all. |
| `CombinationSearch.SearchSorted` | array/combined_sum_III.py:19-27 | Every call returns its combinations in strictly ascending lexicographic order. |
| `CombinationSearch.ExpandSorted` | array/combined_sum_III.py:20-25 | The loop appends in strictly ascending lexicographic order. The block for digit `i` is sorted and comes before everything later iterations append. |
| `CombinationSearch.SearchNoDuplicates` | array/combined_sum_III.py:19-27 | No call returns the same combination twice. |
| `CombinationSearch.CombinationsCorrect` | array/combined_sum_III.py:5-7 | The top-level answer holds exactly the valid combinations for `(k, n)`, sorted and without repeats. No condition on `n` is needed at the top, because the partial sum starts at 0. |
| `CombinationSearch.ZeroDigitsZeroTarget` | array/combined_sum_III.py:10-11 | `combinationSum3(0, 0)` is `[[]]`, because the success case is tested before any guard. |
| `CombinationSearch.MoreThanNineDigits` | array/combined_sum_III.py:12-13 | For `k > 9` the answer is empty, because the digits run out. |
| `CombinationSearch.CombinationSumRange` | array/combined_sum_III.py:5-7 | A bound on the reference description `IsCombination`, not on the search itself: every valid combination's sum lies between `1 + ... + k` and `(10 - k) + ... + 9`. It reaches the program through `CombinationsCorrect`, in `OutOfReach`. |
| `CombinationSearch.OutOfReach` | array/combined_sum_III.py:5-7 | The answer is empty when `n` is below `1 + ... + k` or above `(10 - k) + ... + 9`. |
| `CombinationSearch.AllNineDigits` | array/combined_sum_III.py:33-35 | `combinationSum3(9, 45)` is exactly `[[1, 2, 3, 4, 5, 6, 7, 8, 9]]`. |

## Left out

- `leetcode_gen.py` is not part of this model. It is a separate scraping and
  file-generation tool (network requests, HTML stripping, file writes, logging), and the
  search neither calls it nor is called by it.
- The module-level example call and its `print` (array/combined_sum_III.py:32-35) are
  not modelled as statements. Their value is stated by `AllNineDigits`.
- The memo key is modelled as a 4-tuple, not a formatted string. The formatting is
  injective, so the table holds the same entries.
- Python list identity is not modelled. A cache hit returns the very list stored in the
  memo, and the top-level result may be that same object. The source never mutates
  these lists after storing them, so values (Dafny sequences) capture everything
  observable.
- PruningIsSafe: stated only for states the top call can reach (next digit at least 1,
  partial sum not negative). With a negative partial sum the `n < 0` guard can discard
  a state that does have completions, for example `k = 1, n = -1, start = 1,
  sum_so_far = -2` with completion `[1]`. `SearchExact` states the general case with
  that caveat.
- SearchComplete: stated only for states whose next digit is at least 1. That bound was
  chosen because every state the top call reaches has it: the top call starts at 1, and
  each recursion starts above the digit just picked. The `sum_so_far > n` guard and the
  `break` are safe whenever no digit still to come is negative. A digit 0 would be harmless
  too, but the lemma does not cover that case. With a negative next digit the guard does
  lose completions. For example, `[-1, 0]` completes `k = 2, n = 0, start = -1,
  sum_so_far = 1`, but the guard prunes that state because 1 > 0.
- The search's result is a list in a fixed order, and the model keeps that order. A
  looser description would call it an unordered set. The model follows the code and
  proves the order (ascending lexicographic).

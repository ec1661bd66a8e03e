/**
 The memoized depth-first search of `Solution` as it runs: `Helper` fills `res`
 by appending inside a candidate loop that breaks on the first overrun, and it
 writes each result into a memo table shared by reference between all calls.
 Each method is proved equal to the uncached search of `CombinationSearch`.
 */
module Solution {
  import opened CombinationSearch

  /** A memo key: `(k, n, start, sumSoFar)` of one call. The source formats these four
      integers as a string separated by ", ", which is injective, so a tuple keys the
      same entries. */
  type Key = (int, int, int, int)

  /** The memo dictionary, mutated in place by every call that shares it. */
  class Memo {
    var table: map<Key, seq<seq<int>>>

    constructor ()
      ensures table == map[]
    {
      table := map[];
    }

    /** Every cached entry is what the uncached search returns for its key, so a cache
        hit is indistinguishable from recomputing. */
    ghost predicate Valid()
      reads this
    {
      forall key {:trigger table[key]} :: key in table ==> table[key] == Search(key.0, key.1, key.2, key.3)
    }

    /** `memo[key] = res`: store a result that is the search's value on its key. */
    method Store(key: Key, res: seq<seq<int>>)
      requires Valid()
      requires res == Search(key.0, key.1, key.2, key.3)
      modifies this
      ensures table == old(table)[key := res]
      ensures Valid()
    {
      table := table[key := res];
    }
  }

  /** One call `helper(k, n, start, sumSoFar, memo)`: returns the uncached search result
      whatever valid entries the memo already holds, keeps every memo entry faithful, and
      only adds entries. A call that passes the guards leaves its own key in the memo; a
      call the guards answer leaves the memo as it was. */
  method Helper(k: int, n: int, start: int, sumSoFar: int, memo: Memo) returns (res: seq<seq<int>>)
    requires memo.Valid()
    modifies memo
    ensures memo.Valid()
    ensures old(memo.table).Keys <= memo.table.Keys
    ensures res == Search(k, n, start, sumSoFar)
    ensures 0 < k && 0 <= n && start <= MaxDigit && sumSoFar <= n ==>
              (k, n, start, sumSoFar) in memo.table
    ensures !(0 < k && 0 <= n && start <= MaxDigit && sumSoFar <= n) ==>
              unchanged(memo)
    decreases MaxDigit + 1 - start
  {
    if k == 0 && sumSoFar == n {
      return [[]];
    }
    if k < 0 || n < 0 || start > MaxDigit {
      return [];
    }
    if k == 0 || sumSoFar > n {
      return [];
    }
    var key := (k, n, start, sumSoFar);
    if key in memo.table {
      return memo.table[key];
    }
    res := [];
    var i := start;
    while i <= MaxDigit
      invariant start <= i <= MaxDigit + 1
      invariant start < i ==> sumSoFar + i - 1 <= n
      invariant memo.Valid()
      invariant old(memo.table).Keys <= memo.table.Keys
      invariant res == Appended(k, n, start, i, sumSoFar)
    {
      var curSum := sumSoFar + i;
      if curSum <= n {
        var preRes := Helper(k - 1, n, i + 1, curSum, memo);
        ghost var done := res;
        res := AppendWithDigit(res, i, preRes);
        AppendedStep(done, preRes, res, k, n, start, i, sumSoFar);
      } else {
        break;
      }
      i := i + 1;
    }
    ExpandStop(k, n, start, i, sumSoFar);
    SearchRunsLoop(k, n, start, sumSoFar);
    memo.Store(key, res);
  }

  /** The inner loop of `helper`: append each completion of `preRes`, with digit `d` in
      front, to `res`, in order. */
  method AppendWithDigit(res: seq<seq<int>>, d: int, preRes: seq<seq<int>>) returns (out: seq<seq<int>>)
    ensures out == res + Prepend(d, preRes)
  {
    out := res;
    for j := 0 to |preRes|
      invariant out == res + Prepend(d, preRes[..j])
    {
      PrependSnoc(d, preRes, j);
      out := out + [[d] + preRes[j]];
    }
    assert preRes[..|preRes|] == preRes;
  }

  /** `combinationSum3(k, n)`: a fresh memo, then the search from `(k, n, 1, 0)`. The
      result is exactly the combinations of `k` ascending digits from 1..9 summing to
      `n`, in ascending lexicographic order and without repetition. */
  method CombinationSum3(k: int, n: int) returns (r: seq<seq<int>>)
    ensures r == Combinations(k, n)
    ensures forall c :: c in r <==> IsCombination(c, k, n)
    ensures LexSorted(r) && NoDuplicates(r)
  {
    var memo := new Memo();
    r := Helper(k, n, 1, 0, memo);
    CombinationsCorrect(k, n);
  }
}

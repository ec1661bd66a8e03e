/**
 The search behind "Combination Sum III": every way of choosing exactly `k`
 distinct digits from 1..9, in ascending order, whose sum is `n`.

 `Search` is the uncached value of one call `helper(k, n, start, sumSoFar)`;
 `Expand` is the candidate loop of that call from digit `i` onwards, with its
 early `break`. `IsCompletion` is an independent description of what a call
 should return, and the lemmas below connect the two.
 */
module CombinationSearch {

  /** The largest digit of the universe 1..9 (the loop runs over `range(start, 10)`). */
  const MaxDigit := 9

  /** Every completion of `xs`, with digit `d` put in front. */
  function Prepend(d: int, xs: seq<seq<int>>): seq<seq<int>>
  {
    seq(|xs|, j requires 0 <= j < |xs| => [d] + xs[j])
  }

  /** Uncached result of `helper(k, n, start, sumSoFar)`: the guards in source order, then the loop. */
  function Search(k: int, n: int, start: int, sumSoFar: int): seq<seq<int>>
    decreases MaxDigit + 1 - start, 1
  {
    if k == 0 && sumSoFar == n then [[]]
    else if k < 0 || n < 0 || start > MaxDigit then []
    else if k == 0 || sumSoFar > n then []
    else Expand(k, n, start, sumSoFar)
  }

  /** What loop iterations `i, i + 1, ..., 9` of a call append to `res`: stop at
      the first digit that overruns `n`, otherwise recurse on `(k - 1, n, i + 1,
      sumSoFar + i)` and put `i` in front of each completion found. */
  function Expand(k: int, n: int, i: int, sumSoFar: int): seq<seq<int>>
    decreases MaxDigit + 1 - i, 0
  {
    if i > MaxDigit || sumSoFar + i > n then []
    else Prepend(i, Search(k - 1, n, i + 1, sumSoFar + i)) + Expand(k, n, i + 1, sumSoFar)
  }

  /** The value `combinationSum3(k, n)` returns: the search from the initial state. */
  function Combinations(k: int, n: int): seq<seq<int>>
  {
    Search(k, n, 1, 0)
  }

  // ---------------------------------------------------------------------------
  // Reference description of the result

  function Sum(c: seq<int>): int
  {
    if c == [] then 0 else c[0] + Sum(c[1..])
  }

  predicate StrictlyIncreasing(c: seq<int>)
  {
    forall a, b :: 0 <= a < b < |c| ==> c[a] < c[b]
  }

  /** Every element of `c` is a digit no smaller than `lo`. */
  predicate DigitsFrom(c: seq<int>, lo: int)
  {
    forall j :: 0 <= j < |c| ==> lo <= c[j] <= MaxDigit
  }

  /** `c` is a valid way to finish from state `(k, n, start, sumSoFar)`: exactly `k`
      more digits, ascending, drawn from `start..9`, bringing the sum to `n`. */
  predicate IsCompletion(c: seq<int>, k: int, n: int, start: int, sumSoFar: int)
  {
    |c| == k && StrictlyIncreasing(c) && DigitsFrom(c, start) && sumSoFar + Sum(c) == n
  }

  /** `c` is an answer to Combination Sum III for `(k, n)`. */
  predicate IsCombination(c: seq<int>, k: int, n: int)
  {
    |c| == k && StrictlyIncreasing(c) && DigitsFrom(c, 1) && Sum(c) == n
  }

  /** Lexicographic order on digit sequences; a proper prefix comes first. */
  predicate LexLess(a: seq<int>, b: seq<int>)
    decreases |a|
  {
    |b| > 0 && (|a| == 0 || a[0] < b[0] || (a[0] == b[0] && LexLess(a[1..], b[1..])))
  }

  predicate LexSorted(r: seq<seq<int>>)
  {
    forall a, b :: 0 <= a < b < |r| ==> LexLess(r[a], r[b])
  }

  predicate NoDuplicates(r: seq<seq<int>>)
  {
    forall a, b :: 0 <= a < b < |r| ==> r[a] != r[b]
  }

  // ---------------------------------------------------------------------------
  // Small facts about the reference description

  /** Digits drawn from a positive range add up to at least one per digit, and
      to at least the first digit plus one per further digit. */
  lemma {:induction false} SumOfDigits(c: seq<int>, lo: int)
    ensures 1 <= lo && DigitsFrom(c, lo) ==>
      |c| <= Sum(c) && (|c| > 0 ==> lo <= c[0] <= MaxDigit && c[0] + |c| - 1 <= Sum(c))
    decreases |c|
  {
    if c != [] {
      SumOfDigits(c[1..], lo);
      if DigitsFrom(c, lo) {
        assert DigitsFrom(c[1..], lo);
      }
    }
  }

  lemma {:induction false} LexLessIrreflexive(a: seq<int>)
    ensures !LexLess(a, a)
    decreases |a|
  {
    if |a| > 0 {
      LexLessIrreflexive(a[1..]);
    }
  }

  /** A completion with its first digit taken off is a completion of the state after that digit. */
  lemma CompletionTail(c: seq<int>, k: int, n: int, start: int, sumSoFar: int)
    requires IsCompletion(c, k, n, start, sumSoFar) && |c| > 0
    ensures IsCompletion(c[1..], k - 1, n, c[0] + 1, sumSoFar + c[0])
  {
  }

  /** Putting a digit below every digit of a completion in front gives a completion one level up. */
  lemma CompletionCons(d: int, c: seq<int>, k: int, n: int, start: int, sumSoFar: int)
    requires start <= d <= MaxDigit
    requires IsCompletion(c, k - 1, n, d + 1, sumSoFar + d)
    ensures IsCompletion([d] + c, k, n, start, sumSoFar)
  {
    assert ([d] + c)[1..] == c;
  }

  // ---------------------------------------------------------------------------
  // Soundness: everything the search returns is a valid completion

  /** Soundness of one call: every returned sequence finishes the state correctly, and a
      call with a negative target returns something only in the "nothing left to pick" case. */
  lemma {:induction false} SearchSound(k: int, n: int, start: int, sumSoFar: int)
    ensures forall c :: c in Search(k, n, start, sumSoFar) ==>
      IsCompletion(c, k, n, start, sumSoFar) && (0 <= n || k == 0)
    decreases MaxDigit + 1 - start, 1
  {
    if k == 0 && sumSoFar == n {
    } else if k < 0 || n < 0 || start > MaxDigit {
    } else if k == 0 || sumSoFar > n {
    } else {
      ExpandSound(k, n, start, sumSoFar);
    }
  }

  /** Soundness of the loop: each appended sequence starts with a digit at least `i`. */
  lemma {:induction false} ExpandSound(k: int, n: int, i: int, sumSoFar: int)
    ensures forall c :: c in Expand(k, n, i, sumSoFar) ==>
      |c| > 0 && IsCompletion(c, k, n, i, sumSoFar)
    decreases MaxDigit + 1 - i, 0
  {
    if i > MaxDigit || sumSoFar + i > n {
    } else {
      var sub := Search(k - 1, n, i + 1, sumSoFar + i);
      var rest := Expand(k, n, i + 1, sumSoFar);
      SearchSound(k - 1, n, i + 1, sumSoFar + i);
      PrependSound(i, sub, k, n, sumSoFar);
      ExpandSound(k, n, i + 1, sumSoFar);
      forall c | c in rest
        ensures |c| > 0 && IsCompletion(c, k, n, i, sumSoFar)
      {
      }
    }
  }

  /** The block appended by iteration `d` holds completions that start with `d`. */
  lemma PrependSound(d: int, sub: seq<seq<int>>, k: int, n: int, sumSoFar: int)
    requires d <= MaxDigit
    requires forall c :: c in sub ==> IsCompletion(c, k - 1, n, d + 1, sumSoFar + d)
    ensures forall c :: c in Prepend(d, sub) ==> |c| > 0 && IsCompletion(c, k, n, d, sumSoFar)
  {
    forall j | 0 <= j < |sub|
      ensures IsCompletion(Prepend(d, sub)[j], k, n, d, sumSoFar)
    {
      assert sub[j] in sub;
      CompletionCons(d, sub[j], k, n, d, sumSoFar);
    }
  }

  // ---------------------------------------------------------------------------
  // Completeness: the pruning and the early break lose nothing

  /** Completeness of one call: from a state whose next digit is positive, every valid
      completion is returned (unless the target itself is negative and digits remain). */
  lemma {:induction false} SearchComplete(c: seq<int>, k: int, n: int, start: int, sumSoFar: int)
    requires 1 <= start
    requires IsCompletion(c, k, n, start, sumSoFar) && (0 <= n || k == 0)
    ensures c in Search(k, n, start, sumSoFar)
    decreases MaxDigit + 1 - start, 1
  {
    if k == 0 {
      assert c == [];
    } else {
      SumOfDigits(c, start);
      ExpandComplete(c, k, n, start, sumSoFar);
    }
  }

  /** Completeness of the loop: a completion whose digits are all at least `i` is appended
      by iteration `c[0]`, and no earlier iteration breaks out of the loop. */
  lemma {:induction false} ExpandComplete(c: seq<int>, k: int, n: int, i: int, sumSoFar: int)
    requires 1 <= i && 0 <= n
    requires IsCompletion(c, k, n, i, sumSoFar) && |c| > 0
    ensures c in Expand(k, n, i, sumSoFar)
    decreases MaxDigit + 1 - i, 0
  {
    SumOfDigits(c, i);
    assert i <= c[0] <= MaxDigit && sumSoFar + i <= n;
    if c[0] == i {
      CompletionTail(c, k, n, i, sumSoFar);
      SearchComplete(c[1..], k - 1, n, i + 1, sumSoFar + i);
      var sub := Search(k - 1, n, i + 1, sumSoFar + i);
      var j :| 0 <= j < |sub| && sub[j] == c[1..];
      assert Prepend(i, sub)[j] == c;
    } else {
      ExpandComplete(c, k, n, i + 1, sumSoFar);
    }
  }

  /** The exact meaning of one call, from any state whose next digit is positive. */
  lemma SearchExact(k: int, n: int, start: int, sumSoFar: int)
    requires 1 <= start
    ensures forall c :: c in Search(k, n, start, sumSoFar) <==>
      IsCompletion(c, k, n, start, sumSoFar) && (0 <= n || k == 0)
  {
    SearchSound(k, n, start, sumSoFar);
    forall c | IsCompletion(c, k, n, start, sumSoFar) && (0 <= n || k == 0)
      ensures c in Search(k, n, start, sumSoFar)
    {
      SearchComplete(c, k, n, start, sumSoFar);
    }
  }

  /** The guards of a call lose nothing: from a reachable state (next digit positive,
      partial sum not negative) a state the guards reject has no valid completion. */
  lemma PruningIsSafe(k: int, n: int, start: int, sumSoFar: int)
    requires 1 <= start && 0 <= sumSoFar
    requires !(k == 0 && sumSoFar == n)
    requires k < 0 || n < 0 || start > MaxDigit || k == 0 || sumSoFar > n
    ensures Search(k, n, start, sumSoFar) == []
    ensures forall c :: !IsCompletion(c, k, n, start, sumSoFar)
  {
    forall c | IsCompletion(c, k, n, start, sumSoFar)
      ensures false
    {
      SumOfDigits(c, start);
    }
  }

  // ---------------------------------------------------------------------------
  // Order and uniqueness

  /** A call returns its completions in strictly ascending lexicographic order. */
  lemma {:induction false} SearchSorted(k: int, n: int, start: int, sumSoFar: int)
    ensures LexSorted(Search(k, n, start, sumSoFar))
    decreases MaxDigit + 1 - start, 1
  {
    if k == 0 && sumSoFar == n {
    } else if k < 0 || n < 0 || start > MaxDigit {
    } else if k == 0 || sumSoFar > n {
    } else {
      ExpandSorted(k, n, start, sumSoFar);
    }
  }

  /** The loop appends in strictly ascending lexicographic order: the block for digit `i`
      is sorted, and it precedes every completion of a later iteration. */
  lemma {:induction false} ExpandSorted(k: int, n: int, i: int, sumSoFar: int)
    ensures LexSorted(Expand(k, n, i, sumSoFar))
    decreases MaxDigit + 1 - i, 0
  {
    if i <= MaxDigit && sumSoFar + i <= n {
      SearchSorted(k - 1, n, i + 1, sumSoFar + i);
      ExpandSorted(k, n, i + 1, sumSoFar);
      ExpandSortedStep(k, n, i, sumSoFar);
    }
  }

  /** One iteration of the loop keeps the appended sequences sorted. */
  lemma ExpandSortedStep(k: int, n: int, i: int, sumSoFar: int)
    requires i <= MaxDigit && sumSoFar + i <= n
    requires LexSorted(Search(k - 1, n, i + 1, sumSoFar + i))
    requires LexSorted(Expand(k, n, i + 1, sumSoFar))
    ensures LexSorted(Expand(k, n, i, sumSoFar))
  {
    var sub := Search(k - 1, n, i + 1, sumSoFar + i);
    PrependSorted(i, sub);
    ExpandHeads(k, n, i + 1, sumSoFar);
    SortedConcat(i, Prepend(i, sub), Expand(k, n, i + 1, sumSoFar));
  }

  /** Everything the loop appends from iteration `i` onwards starts with a digit of at least `i`. */
  lemma ExpandHeads(k: int, n: int, i: int, sumSoFar: int)
    ensures forall y :: y in Expand(k, n, i, sumSoFar) ==> |y| > 0 && i <= y[0]
  {
    ExpandSound(k, n, i, sumSoFar);
  }

  /** Putting the same digit in front of every member keeps the order. */
  lemma PrependSorted(d: int, xs: seq<seq<int>>)
    requires LexSorted(xs)
    ensures LexSorted(Prepend(d, xs))
    ensures forall x :: x in Prepend(d, xs) ==> |x| > 0 && x[0] == d
  {
    var r := Prepend(d, xs);
    forall a, b | 0 <= a < b < |r|
      ensures LexLess(r[a], r[b])
    {
      assert r[a][1..] == xs[a] && r[b][1..] == xs[b];
    }
  }

  /** A sorted block of sequences starting with `d`, followed by a sorted block of
      sequences starting above `d`, is sorted. */
  lemma SortedConcat(d: int, head: seq<seq<int>>, rest: seq<seq<int>>)
    requires LexSorted(head) && LexSorted(rest)
    requires forall x :: x in head ==> |x| > 0 && x[0] == d
    requires forall y :: y in rest ==> |y| > 0 && d < y[0]
    ensures LexSorted(head + rest)
  {
    var r := head + rest;
    forall a, b | 0 <= a < b < |r|
      ensures LexLess(r[a], r[b])
    {
      if b < |head| {
        assert r[a] == head[a] && r[b] == head[b];
      } else if a < |head| {
        assert r[a] in head && r[b] in rest;
      } else {
        assert r[a] == rest[a - |head|] && r[b] == rest[b - |head|];
      }
    }
  }

  /** A call never returns the same combination twice. */
  lemma SearchNoDuplicates(k: int, n: int, start: int, sumSoFar: int)
    ensures NoDuplicates(Search(k, n, start, sumSoFar))
  {
    var r := Search(k, n, start, sumSoFar);
    SearchSorted(k, n, start, sumSoFar);
    forall a, b | 0 <= a < b < |r|
      ensures r[a] != r[b]
    {
      LexLessIrreflexive(r[a]);
    }
  }

  // ---------------------------------------------------------------------------
  // The top-level answer

  /** The answer for `(k, n)` is exactly the set of valid combinations, in ascending
      lexicographic order, without repetition. */
  lemma CombinationsCorrect(k: int, n: int)
    ensures forall c :: c in Combinations(k, n) <==> IsCombination(c, k, n)
    ensures LexSorted(Combinations(k, n))
    ensures NoDuplicates(Combinations(k, n))
  {
    SearchExact(k, n, 1, 0);
    SearchSorted(k, n, 1, 0);
    SearchNoDuplicates(k, n, 1, 0);
    forall c | IsCombination(c, k, n)
      ensures 0 <= n || k == 0
    {
      SumOfDigits(c, 1);
    }
  }

  /** With no digits to pick and a zero target, the answer is one empty combination:
      the success case is tested before any guard. */
  lemma ZeroDigitsZeroTarget()
    ensures Combinations(0, 0) == [[]]
  {
  }

  /** In an ascending sequence of digits from `lo..9`, the digit at position `j`
      is at least `lo + j`. */
  lemma {:induction false} AscendingLowerBound(c: seq<int>, lo: int, j: int)
    requires StrictlyIncreasing(c) && DigitsFrom(c, lo)
    requires 0 <= j < |c|
    ensures lo + j <= c[j]
    decreases j
  {
    if j > 0 {
      AscendingLowerBound(c, lo, j - 1);
    }
  }

  /** In an ascending sequence of digits, the digit at position `j` leaves room for
      the `|c| - 1 - j` larger digits after it. */
  lemma {:induction false} AscendingUpperBound(c: seq<int>, lo: int, j: int)
    requires StrictlyIncreasing(c) && DigitsFrom(c, lo)
    requires 0 <= j < |c|
    ensures c[j] <= MaxDigit - (|c| - 1 - j)
    decreases |c| - j
  {
    if j < |c| - 1 {
      AscendingUpperBound(c, lo, j + 1);
    }
  }

  /** More than nine digits can never be chosen. */
  lemma MoreThanNineDigits(k: int, n: int)
    requires 9 < k
    ensures Combinations(k, n) == []
  {
    CombinationsCorrect(k, n);
    if Combinations(k, n) != [] {
      var c := Combinations(k, n)[0];
      assert c in Combinations(k, n);
      AscendingLowerBound(c, 1, |c| - 1);
    }
  }

  /** Nine ascending digits can only be 1, 2, ..., 9. */
  lemma NineAscendingDigits(c: seq<int>)
    requires |c| == 9 && StrictlyIncreasing(c) && DigitsFrom(c, 1)
    ensures c == [1, 2, 3, 4, 5, 6, 7, 8, 9]
  {
    forall j | 0 <= j < 9
      ensures c[j] == j + 1
    {
      AscendingLowerBound(c, 1, j);
      AscendingUpperBound(c, 1, j);
    }
  }

  lemma FirstTwoDistinct(r: seq<seq<int>>)
    ensures NoDuplicates(r) && 1 < |r| ==> r[0] != r[1]
  {
  }

  /** A duplicate-free sequence whose only member is `x`, and which holds `x`, is `[x]`. */
  lemma OnlyMember(r: seq<seq<int>>, x: seq<int>)
    requires NoDuplicates(r) && x in r
    requires forall y :: y in r ==> y == x
    ensures r == [x]
  {
    forall a | 0 <= a < |r|
      ensures r[a] == x
    {
      assert r[a] in r;
    }
    FirstTwoDistinct(r);
  }

  lemma AllDigitsCombination()
    ensures IsCombination([1, 2, 3, 4, 5, 6, 7, 8, 9], 9, 45)
  {
  }

  /** `lo + (lo + 1) + ... + (lo + m - 1)`: the smallest sum of `m` ascending digits from `lo`. */
  function LeastSum(lo: int, m: nat): int
    decreases m
  {
    if m == 0 then 0 else lo + LeastSum(lo + 1, m - 1)
  }

  /** `(10 - m) + ... + 9`: the largest sum of `m` ascending digits. */
  function GreatestSum(m: nat): int
  {
    if m == 0 then 0 else MaxDigit + 1 - m + GreatestSum(m - 1)
  }

  lemma {:induction false} LeastSumMonotonic(a: int, b: int, m: nat)
    requires a <= b
    ensures LeastSum(a, m) <= LeastSum(b, m)
    decreases m
  {
    if m > 0 {
      LeastSumMonotonic(a + 1, b + 1, m - 1);
    }
  }

  lemma {:induction false} LeastSumClosed(lo: int, m: nat)
    ensures 2 * LeastSum(lo, m) == 2 * lo * m + m * (m - 1)
    decreases m
  {
    if m > 0 {
      LeastSumClosed(lo + 1, m - 1);
      assert 2 * (lo + 1) * (m - 1) == 2 * lo * (m - 1) + 2 * (m - 1);
      assert (m - 1) * (m - 2) + 2 * (m - 1) == m * (m - 1);
    }
  }

  lemma {:induction false} GreatestSumClosed(m: nat)
    ensures 2 * GreatestSum(m) == m * (19 - m)
    decreases m
  {
    if m > 0 {
      GreatestSumClosed(m - 1);
      assert (m - 1) * (20 - m) == m * (19 - m) - 2 * (10 - m);
    }
  }

  /** `m` ascending digits drawn from `lo..9` add up to at least `LeastSum(lo, m)` and
      to at most `GreatestSum(m)`. */
  lemma {:induction false} AscendingSumRange(c: seq<int>, lo: int)
    requires StrictlyIncreasing(c) && DigitsFrom(c, lo)
    ensures LeastSum(lo, |c|) <= Sum(c) <= GreatestSum(|c|)
    decreases |c|
  {
    if c != [] {
      var tail := c[1..];
      assert StrictlyIncreasing(tail) && DigitsFrom(tail, c[0] + 1);
      AscendingSumRange(tail, c[0] + 1);
      AscendingUpperBound(c, lo, 0);
      LeastSumMonotonic(lo + 1, c[0] + 1, |tail|);
    }
  }

  /** Any combination's sum lies between `1 + ... + k` and `(10 - k) + ... + 9`. */
  lemma CombinationSumRange(c: seq<int>, k: int, n: int)
    requires IsCombination(c, k, n)
    ensures k * (k + 1) <= 2 * n <= k * (19 - k)
  {
    AscendingSumRange(c, 1);
    LeastSumClosed(1, k);
    GreatestSumClosed(k);
  }

  /** No combination exists when `n` is below the smallest sum of `k` distinct digits,
      `1 + ... + k`, or above the largest, `(10 - k) + ... + 9`. */
  lemma OutOfReach(k: int, n: int)
    requires 0 <= k
    requires 2 * n < k * (k + 1) || k * (19 - k) < 2 * n
    ensures Combinations(k, n) == []
  {
    CombinationsCorrect(k, n);
    if Combinations(k, n) != [] {
      var c := Combinations(k, n)[0];
      assert c in Combinations(k, n);
      CombinationSumRange(c, k, n);
      assert false;
    }
  }

  /** The example in the source: all nine digits is the only way to reach 45. */
  lemma AllNineDigits()
    ensures Combinations(9, 45) == [[1, 2, 3, 4, 5, 6, 7, 8, 9]]
  {
    var all := [1, 2, 3, 4, 5, 6, 7, 8, 9];
    AllDigitsCombination();
    CombinationsCorrect(9, 45);
    forall c | c in Combinations(9, 45)
      ensures c == all
    {
      NineAscendingDigits(c);
    }
    OnlyMember(Combinations(9, 45), all);
  }

  // ---------------------------------------------------------------------------
  // The loop of `helper`, iteration by iteration

  /** What iterations `start, ..., i - 1` have appended, none of them having overrun. */
  function Appended(k: int, n: int, start: int, i: int, sumSoFar: int): seq<seq<int>>
    decreases i - start
  {
    if i <= start then []
    else Appended(k, n, start, i - 1, sumSoFar) + Prepend(i - 1, Search(k - 1, n, i, sumSoFar + i - 1))
  }

  /** One more iteration that does not overrun appends its block: if `done` is what
      iterations before `i` appended and `sub` is the result of the recursive call of
      iteration `i`, then `next` is what iterations up to `i` appended. */
  lemma AppendedStep(done: seq<seq<int>>, sub: seq<seq<int>>, next: seq<seq<int>>,
                     k: int, n: int, start: int, i: int, sumSoFar: int)
    requires start <= i
    requires done == Appended(k, n, start, i, sumSoFar)
    requires sub == Search(k - 1, n, i + 1, sumSoFar + i)
    requires next == done + Prepend(i, sub)
    ensures next == Appended(k, n, start, i + 1, sumSoFar)
  {
  }

  /** Moving a block from the unfinished part to the finished part keeps the whole. */
  lemma RegroupAppend(done: seq<seq<int>>, block: seq<seq<int>>, rest: seq<seq<int>>, whole: seq<seq<int>>)
    requires done + (block + rest) == whole
    ensures (done + block) + rest == whole
  {
    assert (done + block) + rest == done + (block + rest);
  }

  /** When iterations `start, ..., i - 1` ran without overrunning, what they appended,
      followed by what iterations `i, ..., 9` append, is everything the loop appends. */
  lemma {:induction false} AppendedThenExpand(k: int, n: int, start: int, i: int, sumSoFar: int)
    requires start <= i <= MaxDigit + 1
    requires start < i ==> sumSoFar + i - 1 <= n
    ensures Appended(k, n, start, i, sumSoFar) + Expand(k, n, i, sumSoFar) == Expand(k, n, start, sumSoFar)
    decreases i - start
  {
    var whole := Expand(k, n, start, sumSoFar);
    if i == start {
      assert [] + whole == whole;
    } else {
      AppendedThenExpand(k, n, start, i - 1, sumSoFar);
      var block := Prepend(i - 1, Search(k - 1, n, i, sumSoFar + i - 1));
      var rest := Expand(k, n, i, sumSoFar);
      RegroupAppend(Appended(k, n, start, i - 1, sumSoFar), block, rest, whole);
    }
  }

  /** Once the loop is past the last digit, or has broken out at the first overrun, what it
      appended is everything. */
  lemma ExpandStop(k: int, n: int, start: int, i: int, sumSoFar: int)
    requires start <= i <= MaxDigit + 1
    requires start < i ==> sumSoFar + i - 1 <= n
    requires MaxDigit < i || n < sumSoFar + i
    ensures Appended(k, n, start, i, sumSoFar) == Expand(k, n, start, sumSoFar)
  {
    AppendedThenExpand(k, n, start, i, sumSoFar);
    var done := Appended(k, n, start, i, sumSoFar);
    assert Expand(k, n, i, sumSoFar) == [];
    assert done + [] == done;
  }

  /** A call that passes every guard returns what its loop appends. */
  lemma SearchRunsLoop(k: int, n: int, start: int, sumSoFar: int)
    requires 0 < k && 0 <= n && start <= MaxDigit && sumSoFar <= n
    ensures Search(k, n, start, sumSoFar) == Expand(k, n, start, sumSoFar)
  {
  }

  /** Appending one more completion, with `d` in front, extends the block for `d`. */
  lemma PrependSnoc(d: int, xs: seq<seq<int>>, j: int)
    requires 0 <= j < |xs|
    ensures Prepend(d, xs[..j + 1]) == Prepend(d, xs[..j]) + [[d] + xs[j]]
  {
  }
}

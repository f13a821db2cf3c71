/** Subset sum with repetition (Recursion.canSum, howSum, bestSum): decide whether a target
    is a sum of the given numbers, return one such combination, or return a shortest one.
    Every number must be positive: a zero or negative number can make `Recursion.canSum` and its siblings recurse forever. */
module SubsetSum {
  import opened Wrappers

  predicate Positive(numbers: seq<int>)
  {
    forall i :: 0 <= i < |numbers| ==> numbers[i] > 0
  }

  /** Sum of a combination, peeling off its last element (the one the solvers append). */
  function Sum(c: seq<int>): int
  {
    if c == [] then 0 else Sum(c[..|c| - 1]) + c[|c| - 1]
  }

  /** Every element of the combination is one of the numbers (each may be used repeatedly). */
  predicate DrawnFrom(c: seq<int>, numbers: seq<int>)
  {
    forall k :: 0 <= k < |c| ==> c[k] in numbers
  }

  /** c is a combination of the numbers that adds up to n. */
  predicate IsCombination(c: seq<int>, n: int, numbers: seq<int>)
  {
    DrawnFrom(c, numbers) && Sum(c) == n
  }

  lemma SumAppend(c: seq<int>, x: int)
    ensures Sum(c + [x]) == Sum(c) + x
  {
    assert (c + [x])[..|c|] == c;
  }

  lemma {:induction false} SumOfPositivesNonNegative(c: seq<int>, numbers: seq<int>)
    requires Positive(numbers) && DrawnFrom(c, numbers)
    ensures Sum(c) >= 0
    ensures c != [] ==> Sum(c) > 0
  {
    if c != [] {
      SumOfPositivesNonNegative(c[..|c| - 1], numbers);
    }
  }

  // ---------------------------------------------------------------- canSum

  /** The naive recurrence of canSum: 0 is reachable, a negative target is not, and a positive
      target is reachable when subtracting some number leaves a reachable remainder. */
  function CanSum(n: int, numbers: seq<int>): bool
    requires Positive(numbers)
    decreases n
  {
    if n == 0 then true
    else if n < 0 then false
    else exists i | 0 <= i < |numbers| :: CanSum(n - numbers[i], numbers)
  }

  /** A witness for a reachable target. */
  lemma {:induction false} CanSumHasCombination(n: int, numbers: seq<int>) returns (c: seq<int>)
    requires Positive(numbers) && CanSum(n, numbers)
    ensures IsCombination(c, n, numbers)
    decreases n
  {
    if n == 0 {
      c := [];
    } else {
      var i :| 0 <= i < |numbers| && CanSum(n - numbers[i], numbers);
      var rest := CanSumHasCombination(n - numbers[i], numbers);
      c := rest + [numbers[i]];
      SumAppend(rest, numbers[i]);
    }
  }

  lemma {:induction false} CombinationGivesCanSum(c: seq<int>, n: int, numbers: seq<int>)
    requires Positive(numbers) && IsCombination(c, n, numbers)
    ensures CanSum(n, numbers)
    decreases |c|
  {
    if c != [] {
      var rest, x := c[..|c| - 1], c[|c| - 1];
      assert DrawnFrom(rest, numbers);
      SumOfPositivesNonNegative(c, numbers);
      CombinationGivesCanSum(rest, n - x, numbers);
      var i :| 0 <= i < |numbers| && numbers[i] == x;
      assert CanSum(n - numbers[i], numbers);
    }
  }

  /** canSum(n, numbers) holds exactly when n is the sum of a finite combination drawn from the
      numbers with repetition; in particular 0 is reachable and no negative target is. */
  lemma CanSumIffCombination(n: int, numbers: seq<int>)
    requires Positive(numbers)
    ensures CanSum(n, numbers) <==> exists c :: IsCombination(c, n, numbers)
    ensures n == 0 ==> CanSum(n, numbers)
    ensures n < 0 ==> !CanSum(n, numbers)
  {
    if CanSum(n, numbers) {
      var c := CanSumHasCombination(n, numbers);
    }
    if c :| IsCombination(c, n, numbers) {
      CombinationGivesCanSum(c, n, numbers);
    }
  }

  /** Every memo entry holds the value canSum gives for its key. */
  ghost predicate CanMemoAgrees(memo: map<int, bool>, numbers: seq<int>)
    requires Positive(numbers)
  {
    forall k :: k in memo ==> memo[k] == CanSum(k, numbers)
  }

  /** The private helper: the memo is consulted first; a positive target stores its answer. */
  method MemoCanSum(n: int, numbers: seq<int>, memo: map<int, bool>) returns (r: bool, memo': map<int, bool>)
    requires Positive(numbers) && CanMemoAgrees(memo, numbers)
    ensures r == CanSum(n, numbers)
    ensures CanMemoAgrees(memo', numbers)
    ensures memo.Keys <= memo'.Keys
    ensures forall k :: k in memo' && k !in memo ==> 0 < k <= n
    decreases n
  {
    if n in memo {
      return memo[n], memo;
    }
    if n == 0 {
      return true, memo;
    }
    if n < 0 {
      return false, memo;
    }
    memo' := memo;
    var i := 0;
    while i < |numbers|
      invariant 0 <= i <= |numbers|
      invariant CanMemoAgrees(memo', numbers)
      invariant memo.Keys <= memo'.Keys
      invariant forall k :: k in memo' && k !in memo ==> 0 < k <= n
      invariant forall j :: 0 <= j < i ==> !CanSum(n - numbers[j], numbers)
    {
      var b;
      b, memo' := MemoCanSum(n - numbers[i], numbers, memo');
      if b {
        memo' := memo'[n := true];
        return true, memo';
      }
      i := i + 1;
    }
    memo' := memo'[n := false];
    return false, memo';
  }

  method ComputeCanSum(n: int, numbers: seq<int>) returns (r: bool)
    requires Positive(numbers)
    ensures r <==> exists c :: IsCombination(c, n, numbers)
  {
    var memo;
    r, memo := MemoCanSum(n, numbers, map[]);
    CanSumIffCombination(n, numbers);
  }

  // ---------------------------------------------------------------- howSum

  /** The naive recurrence of howSum: the empty combination for 0, none below 0, and otherwise
      the first number (in list order) whose remainder has a combination, appended to it. */
  function HowSum(n: int, numbers: seq<int>): (r: Option<seq<int>>)
    requires Positive(numbers)
    ensures r.Some? ==> IsCombination(r.value, n, numbers)
    decreases n, |numbers| + 1
  {
    if n == 0 then Some([])
    else if n < 0 then None
    else HowFrom(n, numbers, 0)
  }

  /** The loop of howSum from position i of the numbers onwards. */
  function HowFrom(n: int, numbers: seq<int>, i: nat): (r: Option<seq<int>>)
    requires Positive(numbers) && n > 0 && i <= |numbers|
    ensures r.Some? ==> IsCombination(r.value, n, numbers)
    decreases n, |numbers| - i
  {
    if i == |numbers| then None
    else
      match HowSum(n - numbers[i], numbers)
      case Some(c) => SumAppend(c, numbers[i]); Some(c + [numbers[i]])
      case None => HowFrom(n, numbers, i + 1)
  }

  lemma {:induction false} HowFromNoneIff(n: int, numbers: seq<int>, i: nat)
    requires Positive(numbers) && n > 0 && i <= |numbers|
    requires forall k :: k < n ==> (HowSum(k, numbers).None? <==> !CanSum(k, numbers))
    ensures HowFrom(n, numbers, i).None? <==> forall j :: i <= j < |numbers| ==> !CanSum(n - numbers[j], numbers)
    decreases |numbers| - i
  {
    if i < |numbers| {
      HowFromNoneIff(n, numbers, i + 1);
    }
  }

  /** howSum returns null exactly when canSum is false; target 0 gives the empty list. */
  lemma {:induction false} HowSumNoneIffCannot(n: int, numbers: seq<int>)
    requires Positive(numbers)
    ensures HowSum(n, numbers).None? <==> !CanSum(n, numbers)
    ensures n == 0 ==> HowSum(n, numbers) == Some([])
    decreases n
  {
    if n > 0 {
      forall k | k < n
        ensures HowSum(k, numbers).None? <==> !CanSum(k, numbers)
      {
        HowSumNoneIffCannot(k, numbers);
      }
      HowFromNoneIff(n, numbers, 0);
    }
  }

  /** The memo holds, for each key, the answer howSum gives; a stored `None` is a stored null. */
  ghost predicate HowMemoAgrees(memo: map<int, Option<seq<int>>>, numbers: seq<int>)
    requires Positive(numbers)
  {
    forall k :: k in memo ==> memo[k] == HowSum(k, numbers)
  }

  /** The private helper. `Recursion.howSum` appends to the list it got back and stores a copy; as the
      first success returns straight up the call chain, a functional append is the same thing. */
  method MemoHowSum(n: int, numbers: seq<int>, memo: map<int, Option<seq<int>>>)
    returns (r: Option<seq<int>>, memo': map<int, Option<seq<int>>>)
    requires Positive(numbers) && HowMemoAgrees(memo, numbers)
    ensures r == HowSum(n, numbers)
    ensures HowMemoAgrees(memo', numbers)
    ensures memo.Keys <= memo'.Keys
    ensures forall k :: k in memo' && k !in memo ==> 0 < k <= n
    decreases n
  {
    if n in memo {
      return memo[n], memo;
    }
    if n == 0 {
      return Some([]), memo;
    }
    if n < 0 {
      return None, memo;
    }
    memo' := memo;
    var i := 0;
    while i < |numbers|
      invariant 0 <= i <= |numbers|
      invariant HowMemoAgrees(memo', numbers)
      invariant memo.Keys <= memo'.Keys
      invariant forall k :: k in memo' && k !in memo ==> 0 < k <= n
      invariant HowFrom(n, numbers, i) == HowSum(n, numbers)
    {
      var num := numbers[i];
      var remainder;
      remainder, memo' := MemoHowSum(n - num, numbers, memo');
      if remainder.Some? {
        var combo := remainder.value + [num];
        memo' := memo'[n := Some(combo)];
        return Some(combo), memo';
      }
      i := i + 1;
    }
    memo' := memo'[n := None];
    return None, memo';
  }

  method ComputeHowSum(n: int, numbers: seq<int>) returns (r: Option<seq<int>>)
    requires Positive(numbers)
    ensures r.None? <==> !CanSum(n, numbers)
    ensures r.Some? ==> IsCombination(r.value, n, numbers)
    ensures n == 0 ==> r == Some([])
    ensures r == HowSum(n, numbers)
  {
    var memo;
    r, memo := MemoHowSum(n, numbers, map[]);
    HowSumNoneIffCannot(n, numbers);
  }

  // ---------------------------------------------------------------- bestSum

  /** The comparison of bestSum: a new combination replaces the current best only when there is
      none yet or it is strictly shorter, so among equally short ones the first found is kept. */
  function Shorter(best: Option<seq<int>>, combo: seq<int>): Option<seq<int>>
  {
    if best.None? || |combo| < |best.value| then Some(combo) else best
  }

  /** The naive recurrence of bestSum: the empty combination for 0, none below 0, and otherwise the
      shortest of the candidates the numbers give, the first one on a tie. */
  function BestSum(n: int, numbers: seq<int>): (r: Option<seq<int>>)
    requires Positive(numbers)
    ensures r.Some? ==> IsCombination(r.value, n, numbers)
    decreases n, |numbers| + 2
  {
    if n == 0 then Some([])
    else if n < 0 then None
    else BestUpTo(n, numbers, |numbers|)
  }

  /** The loop of bestSum after it has looked at the first i numbers. */
  function BestUpTo(n: int, numbers: seq<int>, i: nat): (r: Option<seq<int>>)
    requires Positive(numbers) && n > 0 && i <= |numbers|
    ensures r.Some? ==> IsCombination(r.value, n, numbers)
    decreases n, i + 1
  {
    if i == 0 then None
    else
      var best := BestUpTo(n, numbers, i - 1);
      match Candidate(n, numbers, i - 1)
      case None => best
      case Some(combo) => Shorter(best, combo)
  }

  /** The combination that number j proposes for target n: the best one for the remainder, with
      number j appended. */
  function Candidate(n: int, numbers: seq<int>, j: nat): (r: Option<seq<int>>)
    requires Positive(numbers) && n > 0 && j < |numbers|
    ensures r.Some? ==> IsCombination(r.value, n, numbers)
    decreases n, 0
  {
    match BestSum(n - numbers[j], numbers)
    case None => None
    case Some(c) => SumAppend(c, numbers[j]); Some(c + [numbers[j]])
  }

  /** Candidate k is the first of least length among the candidates of the first i numbers:
      every earlier candidate is strictly longer and no later one is shorter. */
  ghost predicate FirstShortest(n: int, numbers: seq<int>, i: nat, k: nat, c: seq<int>)
    requires Positive(numbers) && n > 0 && i <= |numbers|
  {
    && k < i
    && Candidate(n, numbers, k) == Some(c)
    && (forall j :: 0 <= j < k && Candidate(n, numbers, j).Some? ==> |Candidate(n, numbers, j).value| > |c|)
    && (forall j :: k <= j < i && Candidate(n, numbers, j).Some? ==> |Candidate(n, numbers, j).value| >= |c|)
  }

  /** One round of the bestSum loop: no candidate keeps the result, a candidate makes it present. */
  lemma BestUpToStep(n: int, numbers: seq<int>, i: nat)
    requires Positive(numbers) && n > 0 && 0 < i <= |numbers|
    ensures Candidate(n, numbers, i - 1).None? ==> BestUpTo(n, numbers, i) == BestUpTo(n, numbers, i - 1)
    ensures Candidate(n, numbers, i - 1).Some? ==> BestUpTo(n, numbers, i).Some?
  {
  }

  /** The loop of bestSum is present exactly once some number has proposed a candidate. */
  lemma {:induction false} BestUpToSomeIff(n: int, numbers: seq<int>, i: nat)
    requires Positive(numbers) && n > 0 && i <= |numbers|
    ensures BestUpTo(n, numbers, i).Some? <==> exists j :: 0 <= j < i && Candidate(n, numbers, j).Some?
    decreases i
  {
    if i > 0 {
      BestUpToSomeIff(n, numbers, i - 1);
      BestUpToStep(n, numbers, i);
      if Candidate(n, numbers, i - 1).Some? {
        assert 0 <= i - 1 < i;
        assert exists j :: 0 <= j < i && Candidate(n, numbers, j).Some?;
        assert BestUpTo(n, numbers, i).Some?;
      } else if BestUpTo(n, numbers, i - 1).Some? {
        var j :| 0 <= j < i - 1 && Candidate(n, numbers, j).Some?;
        assert 0 <= j < i;
      } else {
        forall j | 0 <= j < i
          ensures Candidate(n, numbers, j).None?
        {
          if j == i - 1 {
          }
        }
      }
    }
  }

  /** While the loop of bestSum is null, no number has proposed a candidate. */
  lemma NoCandidateBelow(n: int, numbers: seq<int>, i: nat)
    requires Positive(numbers) && n > 0 && i <= |numbers|
    requires BestUpTo(n, numbers, i).None?
    ensures forall j :: 0 <= j < i ==> Candidate(n, numbers, j).None?
  {
    BestUpToSomeIff(n, numbers, i);
  }

  /** A candidate strictly shorter than every earlier one becomes the first shortest. */
  lemma FirstShortestTakeNew(n: int, numbers: seq<int>, i: nat, c: seq<int>)
    requires Positive(numbers) && n > 0 && 0 < i <= |numbers|
    requires Candidate(n, numbers, i - 1) == Some(c)
    requires forall j :: 0 <= j < i - 1 && Candidate(n, numbers, j).Some? ==> |Candidate(n, numbers, j).value| > |c|
    ensures FirstShortest(n, numbers, i, i - 1, c)
  {
    forall j | i - 1 <= j < i && Candidate(n, numbers, j).Some?
      ensures |Candidate(n, numbers, j).value| >= |c|
    {
      assert j == i - 1;
    }
  }

  /** A candidate strictly shorter than the first shortest so far is shorter than every earlier one. */
  lemma FirstShortestBeaten(n: int, numbers: seq<int>, i: nat, k: nat, b: seq<int>, c: seq<int>)
    requires Positive(numbers) && n > 0 && i <= |numbers|
    requires FirstShortest(n, numbers, i, k, b) && |c| < |b|
    ensures forall j :: 0 <= j < i && Candidate(n, numbers, j).Some? ==> |Candidate(n, numbers, j).value| > |c|
  {
  }

  /** A candidate no shorter than the first shortest so far leaves it in place. */
  lemma FirstShortestKeep(n: int, numbers: seq<int>, i: nat, k: nat, b: seq<int>)
    requires Positive(numbers) && n > 0 && 0 < i <= |numbers|
    requires FirstShortest(n, numbers, i - 1, k, b)
    requires Candidate(n, numbers, i - 1).Some? ==> |Candidate(n, numbers, i - 1).value| >= |b|
    ensures FirstShortest(n, numbers, i, k, b)
  {
  }

  /** One round of the bestSum loop, unfolded. */
  lemma BestUpToUnfold(n: int, numbers: seq<int>, i: nat)
    requires Positive(numbers) && n > 0 && 0 < i <= |numbers|
    ensures BestUpTo(n, numbers, i) ==
      match Candidate(n, numbers, i - 1)
      case None => BestUpTo(n, numbers, i - 1)
      case Some(combo) => Shorter(BestUpTo(n, numbers, i - 1), combo)
  {
  }

  /** A round whose candidate is strictly shorter than the best so far takes the candidate. */
  lemma BestStepTakes(n: int, numbers: seq<int>, i: nat, k: nat)
    requires Positive(numbers) && n > 0 && 0 < i <= |numbers|
    requires BestUpTo(n, numbers, i - 1).Some?
    requires FirstShortest(n, numbers, i - 1, k, BestUpTo(n, numbers, i - 1).value)
    requires Candidate(n, numbers, i - 1).Some?
    requires |Candidate(n, numbers, i - 1).value| < |BestUpTo(n, numbers, i - 1).value|
    ensures BestUpTo(n, numbers, i).Some?
    ensures FirstShortest(n, numbers, i, i - 1, BestUpTo(n, numbers, i).value)
  {
    var best, cand := BestUpTo(n, numbers, i - 1).value, Candidate(n, numbers, i - 1).value;
    BestUpToUnfold(n, numbers, i);
    FirstShortestBeaten(n, numbers, i - 1, k, best, cand);
    FirstShortestTakeNew(n, numbers, i, cand);
  }

  /** A round whose candidate is absent or no shorter keeps the best so far. */
  lemma BestStepKeeps(n: int, numbers: seq<int>, i: nat, k: nat)
    requires Positive(numbers) && n > 0 && 0 < i <= |numbers|
    requires BestUpTo(n, numbers, i - 1).Some?
    requires FirstShortest(n, numbers, i - 1, k, BestUpTo(n, numbers, i - 1).value)
    requires Candidate(n, numbers, i - 1).Some? ==>
      |Candidate(n, numbers, i - 1).value| >= |BestUpTo(n, numbers, i - 1).value|
    ensures BestUpTo(n, numbers, i).Some?
    ensures FirstShortest(n, numbers, i, k, BestUpTo(n, numbers, i).value)
  {
    var best := BestUpTo(n, numbers, i - 1);
    BestUpToUnfold(n, numbers, i);
    var cand := Candidate(n, numbers, i - 1);
    if cand.Some? {
      assert Shorter(best, cand.value) == best;
    }
    assert BestUpTo(n, numbers, i) == best;
    FirstShortestKeep(n, numbers, i, k, best.value);
  }

  /** The first candidate to appear is taken. */
  lemma BestStepFirst(n: int, numbers: seq<int>, i: nat)
    requires Positive(numbers) && n > 0 && 0 < i <= |numbers|
    requires BestUpTo(n, numbers, i - 1).None? && Candidate(n, numbers, i - 1).Some?
    ensures BestUpTo(n, numbers, i).Some?
    ensures FirstShortest(n, numbers, i, i - 1, BestUpTo(n, numbers, i).value)
  {
    BestUpToUnfold(n, numbers, i);
    NoCandidateBelow(n, numbers, i - 1);
    FirstShortestTakeNew(n, numbers, i, Candidate(n, numbers, i - 1).value);
  }

  /** The loop of bestSum keeps the first candidate of least length. */
  lemma {:induction false} BestUpToIsFirstShortest(n: int, numbers: seq<int>, i: nat)
    requires Positive(numbers) && n > 0 && i <= |numbers|
    ensures BestUpTo(n, numbers, i).Some? ==>
      exists k :: FirstShortest(n, numbers, i, k, BestUpTo(n, numbers, i).value)
    decreases i
  {
    if i > 0 {
      BestUpToIsFirstShortest(n, numbers, i - 1);
      var best := BestUpTo(n, numbers, i - 1);
      var cand := Candidate(n, numbers, i - 1);
      if best.Some? {
        var k :| FirstShortest(n, numbers, i - 1, k, best.value);
        if cand.Some? && |cand.value| < |best.value| {
          BestStepTakes(n, numbers, i, k);
        } else {
          BestStepKeeps(n, numbers, i, k);
        }
      } else if cand.Some? {
        BestStepFirst(n, numbers, i);
      } else {
        BestUpToUnfold(n, numbers, i);
      }
    }
  }

  /** The loop's result is no longer than any candidate it has looked at. */
  lemma BestUpToNoLongerThanCandidates(n: int, numbers: seq<int>, i: nat, j: nat)
    requires Positive(numbers) && n > 0 && j < i <= |numbers|
    requires Candidate(n, numbers, j).Some?
    ensures BestUpTo(n, numbers, i).Some?
    ensures |BestUpTo(n, numbers, i).value| <= |Candidate(n, numbers, j).value|
  {
    BestUpToSomeIff(n, numbers, i);
    BestUpToIsFirstShortest(n, numbers, i);
    var k :| FirstShortest(n, numbers, i, k, BestUpTo(n, numbers, i).value);
  }

  /** bestSum is present whenever some combination exists, and then it is no longer than any
      combination of the numbers that adds up to the target. */
  lemma {:induction false} BestSumShortest(n: int, numbers: seq<int>, c: seq<int>)
    requires Positive(numbers) && IsCombination(c, n, numbers)
    ensures BestSum(n, numbers).Some? && |BestSum(n, numbers).value| <= |c|
    decreases n
  {
    SumOfPositivesNonNegative(c, numbers);
    if n != 0 {
      var rest, x := c[..|c| - 1], c[|c| - 1];
      assert DrawnFrom(rest, numbers);
      BestSumShortest(n - x, numbers, rest);
      var j :| 0 <= j < |numbers| && numbers[j] == x;
      assert Candidate(n, numbers, j).Some? && |Candidate(n, numbers, j).value| <= |c|;
      BestUpToNoLongerThanCandidates(n, numbers, |numbers|, j);
    }
  }

  /** The whole of bestSum's promise: null exactly when canSum is false; otherwise a combination
      no longer than any other, namely the first shortest candidate in list order. */
  lemma BestSumSpec(n: int, numbers: seq<int>)
    requires Positive(numbers)
    ensures BestSum(n, numbers).None? <==> !CanSum(n, numbers)
    ensures BestSum(n, numbers).Some? ==>
      forall c :: IsCombination(c, n, numbers) ==> |BestSum(n, numbers).value| <= |c|
    ensures n > 0 && BestSum(n, numbers).Some? ==>
      exists k :: FirstShortest(n, numbers, |numbers|, k, BestSum(n, numbers).value)
  {
    CanSumIffCombination(n, numbers);
    if CanSum(n, numbers) {
      var c :| IsCombination(c, n, numbers);
      BestSumShortest(n, numbers, c);
    }
    forall c | IsCombination(c, n, numbers)
      ensures BestSum(n, numbers).Some? && |BestSum(n, numbers).value| <= |c|
    {
      BestSumShortest(n, numbers, c);
    }
    if n > 0 {
      BestUpToIsFirstShortest(n, numbers, |numbers|);
    }
  }

  ghost predicate BestMemoAgrees(memo: map<int, Option<seq<int>>>, numbers: seq<int>)
    requires Positive(numbers)
  {
    forall k :: k in memo ==> memo[k] == BestSum(k, numbers)
  }

  /** The private helper: every number is tried, the shortest combination is kept with the strict
      comparison, and the outcome (null included) is stored for the positive target. */
  method MemoBestSum(n: int, numbers: seq<int>, memo: map<int, Option<seq<int>>>)
    returns (r: Option<seq<int>>, memo': map<int, Option<seq<int>>>)
    requires Positive(numbers) && BestMemoAgrees(memo, numbers)
    ensures r == BestSum(n, numbers)
    ensures BestMemoAgrees(memo', numbers)
    ensures memo.Keys <= memo'.Keys
    ensures forall k :: k in memo' && k !in memo ==> 0 < k <= n
    decreases n
  {
    if n in memo {
      return memo[n], memo;
    }
    if n == 0 {
      return Some([]), memo;
    }
    if n < 0 {
      return None, memo;
    }
    memo' := memo;
    var shortest: Option<seq<int>> := None;
    var i := 0;
    while i < |numbers|
      invariant 0 <= i <= |numbers|
      invariant BestMemoAgrees(memo', numbers)
      invariant memo.Keys <= memo'.Keys
      invariant forall k :: k in memo' && k !in memo ==> 0 < k <= n
      invariant shortest == BestUpTo(n, numbers, i)
    {
      var number := numbers[i];
      var remainder;
      remainder, memo' := MemoBestSum(n - number, numbers, memo');
      if remainder.Some? {
        var combo := remainder.value + [number];
        if shortest.None? || |combo| < |shortest.value| {
          shortest := Some(combo);
        }
      }
      i := i + 1;
    }
    memo' := memo'[n := shortest];
    r := shortest;
  }

  method ComputeBestSum(n: int, numbers: seq<int>) returns (r: Option<seq<int>>)
    requires Positive(numbers)
    ensures r.None? <==> !CanSum(n, numbers)
    ensures r.Some? ==> IsCombination(r.value, n, numbers)
    ensures r.Some? ==> forall c :: IsCombination(c, n, numbers) ==> |r.value| <= |c|
    ensures n > 0 && r.Some? ==> exists k :: FirstShortest(n, numbers, |numbers|, k, r.value)
    ensures r == BestSum(n, numbers)
  {
    var memo;
    r, memo := MemoBestSum(n, numbers, map[]);
    BestSumSpec(n, numbers);
  }
}

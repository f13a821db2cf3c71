/** The worked examples that accompany the recursion library, stated against the memoized
    solvers. */
module RecursionExamples {
  import opened Wrappers
  import opened Fibonacci
  import opened SubsetSum
  import opened Construct

  lemma CanSumExamples()
    ensures CanSum(7, [2, 3])
    ensures !CanSum(7, [5, 4])
  {
    assert IsCombination([2, 2, 3], 7, [2, 3]) by {
      assert [2, 2, 3][..2] == [2, 2] && [2, 2][..1] == [2] && [2][..0] == [];
    }
    CombinationGivesCanSum([2, 2, 3], 7, [2, 3]);
    assert !CanSum(2, [5, 4]) && !CanSum(3, [5, 4]);
  }

  /** Eight is a sum of two of 1, 4 and 5 (4 + 4) and no fewer. */
  lemma BestSumEightHasTwo()
    ensures BestSum(8, [1, 4, 5]).Some? && |BestSum(8, [1, 4, 5]).value| == 2
  {
    var numbers := [1, 4, 5];
    assert IsCombination([4, 4], 8, numbers) by {
      assert [4, 4][..1] == [4] && [4][..0] == [];
    }
    CombinationGivesCanSum([4, 4], 8, numbers);
    BestSumSpec(8, numbers);
    var b := BestSum(8, numbers).value;
    assert |b| <= 2;
  }

  /** Over [2, 3], nothing sums to 1. */
  lemma BestSumOneOverTwoThree()
    ensures BestSum(1, [2, 3]) == None
  {
    var numbers := [2, 3];
    assert BestSum(-1, numbers) == None && BestSum(-2, numbers) == None;
    assert Candidate(1, numbers, 0) == None && Candidate(1, numbers, 1) == None;
  }

  /** Over [2, 3], the best sum for 2 is [2]. */
  lemma BestSumTwoOverTwoThree()
    ensures BestSum(2, [2, 3]) == Some([2])
  {
    var numbers := [2, 3];
    assert BestSum(0, numbers) == Some([]) && BestSum(-1, numbers) == None;
    assert Candidate(2, numbers, 0) == Some([2]) && Candidate(2, numbers, 1) == None;
  }

  /** Over [2, 3], the best sum for 3 is [3]. */
  lemma BestSumThreeOverTwoThree()
    ensures BestSum(3, [2, 3]) == Some([3])
  {
    var numbers := [2, 3];
    BestSumOneOverTwoThree();
    assert BestSum(0, numbers) == Some([]);
    assert Candidate(3, numbers, 0) == None && Candidate(3, numbers, 1) == Some([3]);
  }

  /** Five is 3 + 2 and 2 + 3 over [2, 3]; number 2 proposes its candidate first, and the strict
      comparison keeps it on the tie. */
  lemma BestSumFiveTie()
    ensures BestSum(5, [2, 3]) == Some([3, 2])
  {
    var numbers := [2, 3];
    BestSumTwoOverTwoThree();
    BestSumThreeOverTwoThree();
    assert Candidate(5, numbers, 0) == Some([3, 2]) by {
      assert numbers[0] == 2 && [3] + [2] == [3, 2];
    }
    assert Candidate(5, numbers, 1) == Some([2, 3]) by {
      assert numbers[1] == 3 && [2] + [3] == [2, 3];
    }
    assert BestUpTo(5, numbers, 1) == Some([3, 2]);
  }

  lemma AbcdefConstructible()
    ensures CanConstruct("abcdef", ["ab", "abc", "cd", "def", "abcd"])
  {
    var bank := ["ab", "abc", "cd", "def", "abcd"];
    assert IsDecomposition(["abc", "def"], "abcdef", bank) by {
      assert ["abc", "def"][1..] == ["def"] && ["def"][1..] == [];
    }
    DecompositionGivesCanConstruct(["abc", "def"], "abcdef", bank);
  }

  method FibExample() returns (fib10: int)
    ensures fib10 == 89
  {
    FibTen();
    fib10 := ComputeFib(10);
  }

  /** canSum on the worked examples, computed by the memoized solver. */
  method CanSumExample() returns (can: bool, cannot: bool)
    ensures can && !cannot
  {
    CanSumExamples();
    var memo;
    can, memo := MemoCanSum(7, [2, 3], map[]);
    cannot, memo := MemoCanSum(7, [5, 4], map[]);
  }

  /** bestSum on the worked example, computed by the memoized solver. */
  method BestSumExample() returns (best: Option<seq<int>>)
    ensures best.Some? && |best.value| == 2 && IsCombination(best.value, 8, [1, 4, 5])
  {
    BestSumEightHasTwo();
    var memo;
    best, memo := MemoBestSum(8, [1, 4, 5], map[]);
  }

  /** The public bestSum on the tie: the first shortest candidate in list order comes back. */
  method BestSumTieExample() returns (best: Option<seq<int>>)
    ensures best == Some([3, 2])
  {
    BestSumFiveTie();
    best := ComputeBestSum(5, [2, 3]);
  }

  // ---------------------------------------------------------------- howSum

  /** howSum(7, [2, 3]) tries 2 first all the way down: 1 has no combination, so 3 gives [3], and
      then 5 gives [3, 2] and 7 gives [3, 2, 2]. */
  lemma HowSumSevenOverTwoThree()
    ensures HowSum(7, [2, 3]) == Some([3, 2, 2])
  {
    var numbers := [2, 3];
    assert HowSum(1, numbers) == None by {
      assert HowSum(-1, numbers) == None && HowSum(-2, numbers) == None;
      assert HowFrom(1, numbers, 2) == None;
    }
    assert HowSum(3, numbers) == Some([3]) by {
      assert HowSum(0, numbers) == Some([]) && numbers[1] == 3;
      assert HowFrom(3, numbers, 1) == Some([3]);
    }
    assert HowSum(5, numbers) == Some([3, 2]) by {
      assert numbers[0] == 2 && [3] + [2] == [3, 2];
    }
    assert HowSum(7, numbers) == Some([3, 2, 2]) by {
      assert numbers[0] == 2 && [3, 2] + [2] == [3, 2, 2];
    }
  }

  /** howSum on the worked examples, computed by the public method. */
  method HowSumExample() returns (some: Option<seq<int>>, none: Option<seq<int>>)
    ensures some == Some([3, 2, 2]) && none == None
  {
    HowSumSevenOverTwoThree();
    CanSumExamples();
    some := ComputeHowSum(7, [2, 3]);
    none := ComputeHowSum(7, [5, 4]);
  }
}

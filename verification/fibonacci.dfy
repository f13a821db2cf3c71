/** Memoized Fibonacci (Recursion.fib): the sequence 1, 1, 2, 3, 5, ..., computed in Java `long`
    arithmetic, which wraps around once the values pass 2^63 - 1. */
module Fibonacci {
  import opened JavaInt

  /** The naive recurrence. Every index at or below 1, negative ones included, is a base case. */
  function Fib(n: int): int
    decreases n
  {
    if n <= 1 then 1 else Fib(n - 1) + Fib(n - 2)
  }

  /** Every entry of the memo holds the `long` the recurrence gives for its key. */
  ghost predicate MemoAgrees(memo: map<int, int>)
  {
    forall k :: k in memo ==> memo[k] == Long(Fib(k))
  }

  /** The private helper: consults the memo first, never stores a base case, and stores
      every index above 1 that it computes. */
  method MemoFib(n: int, memo: map<int, int>) returns (r: int, memo': map<int, int>)
    requires MemoAgrees(memo)
    ensures r == Long(Fib(n))
    ensures MemoAgrees(memo')
    ensures memo.Keys <= memo'.Keys
    ensures forall k :: k in memo' && k !in memo ==> 1 < k <= n
    decreases n
  {
    if n in memo {
      return memo[n], memo;
    }
    if n <= 1 {
      return 1, memo;
    }
    var a, m1 := MemoFib(n - 1, memo);
    var b, m2 := MemoFib(n - 2, m1);
    LongAdd(Fib(n - 1), Fib(n - 2));
    memo' := m2[n := Long(a + b)];
    r := memo'[n];
  }

  /** The public entry point: a fresh, empty memo per call. The result is exact up to index 91;
      from index 92 on, the value no longer fits in a `long` and the result is wrapped. */
  method ComputeFib(n: int) returns (r: int)
    ensures r == Long(Fib(n))
    ensures r == Fib(n) <==> n <= 91
  {
    var memo;
    r, memo := MemoFib(n, map[]);
    if n <= 91 {
      FibFitsInLong(n);
    } else {
      FibOverflowsLong(n);
    }
  }

  /** One step of the recurrence on known values. */
  lemma FibStep(n: nat, a: int, b: int)
    requires Fib(n) == a && Fib(n + 1) == b
    ensures Fib(n + 2) == a + b
  {
  }

  /** The values of the sequence at indices 19 and 20. */
  lemma FibValuesTo20()
    ensures Fib(19) == 6765 && Fib(20) == 10946
  {
    FibStep(0, 1, 1);
    FibStep(1, 1, 2);
    FibStep(2, 2, 3);
    FibStep(3, 3, 5);
    FibStep(4, 5, 8);
    FibStep(5, 8, 13);
    FibStep(6, 13, 21);
    FibStep(7, 21, 34);
    FibStep(8, 34, 55);
    FibStep(9, 55, 89);
    FibStep(10, 89, 144);
    FibStep(11, 144, 233);
    FibStep(12, 233, 377);
    FibStep(13, 377, 610);
    FibStep(14, 610, 987);
    FibStep(15, 987, 1597);
    FibStep(16, 1597, 2584);
    FibStep(17, 2584, 4181);
    FibStep(18, 4181, 6765);
  }

  /** The values of the sequence at indices 39 and 40. */
  lemma FibValuesTo40()
    ensures Fib(39) == 102334155 && Fib(40) == 165580141
  {
    FibValuesTo20();
    FibStep(19, 6765, 10946);
    FibStep(20, 10946, 17711);
    FibStep(21, 17711, 28657);
    FibStep(22, 28657, 46368);
    FibStep(23, 46368, 75025);
    FibStep(24, 75025, 121393);
    FibStep(25, 121393, 196418);
    FibStep(26, 196418, 317811);
    FibStep(27, 317811, 514229);
    FibStep(28, 514229, 832040);
    FibStep(29, 832040, 1346269);
    FibStep(30, 1346269, 2178309);
    FibStep(31, 2178309, 3524578);
    FibStep(32, 3524578, 5702887);
    FibStep(33, 5702887, 9227465);
    FibStep(34, 9227465, 14930352);
    FibStep(35, 14930352, 24157817);
    FibStep(36, 24157817, 39088169);
    FibStep(37, 39088169, 63245986);
    FibStep(38, 63245986, 102334155);
  }

  /** The values of the sequence at indices 59 and 60. */
  lemma FibValuesTo60()
    ensures Fib(59) == 1548008755920 && Fib(60) == 2504730781961
  {
    FibValuesTo40();
    FibStep(39, 102334155, 165580141);
    FibStep(40, 165580141, 267914296);
    FibStep(41, 267914296, 433494437);
    FibStep(42, 433494437, 701408733);
    FibStep(43, 701408733, 1134903170);
    FibStep(44, 1134903170, 1836311903);
    FibStep(45, 1836311903, 2971215073);
    FibStep(46, 2971215073, 4807526976);
    FibStep(47, 4807526976, 7778742049);
    FibStep(48, 7778742049, 12586269025);
    FibStep(49, 12586269025, 20365011074);
    FibStep(50, 20365011074, 32951280099);
    FibStep(51, 32951280099, 53316291173);
    FibStep(52, 53316291173, 86267571272);
    FibStep(53, 86267571272, 139583862445);
    FibStep(54, 139583862445, 225851433717);
    FibStep(55, 225851433717, 365435296162);
    FibStep(56, 365435296162, 591286729879);
    FibStep(57, 591286729879, 956722026041);
    FibStep(58, 956722026041, 1548008755920);
  }

  /** The values of the sequence at indices 79 and 80. */
  lemma FibValuesTo80()
    ensures Fib(79) == 23416728348467685 && Fib(80) == 37889062373143906
  {
    FibValuesTo60();
    FibStep(59, 1548008755920, 2504730781961);
    FibStep(60, 2504730781961, 4052739537881);
    FibStep(61, 4052739537881, 6557470319842);
    FibStep(62, 6557470319842, 10610209857723);
    FibStep(63, 10610209857723, 17167680177565);
    FibStep(64, 17167680177565, 27777890035288);
    FibStep(65, 27777890035288, 44945570212853);
    FibStep(66, 44945570212853, 72723460248141);
    FibStep(67, 72723460248141, 117669030460994);
    FibStep(68, 117669030460994, 190392490709135);
    FibStep(69, 190392490709135, 308061521170129);
    FibStep(70, 308061521170129, 498454011879264);
    FibStep(71, 498454011879264, 806515533049393);
    FibStep(72, 806515533049393, 1304969544928657);
    FibStep(73, 1304969544928657, 2111485077978050);
    FibStep(74, 2111485077978050, 3416454622906707);
    FibStep(75, 3416454622906707, 5527939700884757);
    FibStep(76, 5527939700884757, 8944394323791464);
    FibStep(77, 8944394323791464, 14472334024676221);
    FibStep(78, 14472334024676221, 23416728348467685);
  }

  /** The values of the sequence at indices 91 and 92. */
  lemma FibValuesTo92()
    ensures Fib(91) == 7540113804746346429 && Fib(92) == 12200160415121876738
  {
    FibValuesTo80();
    FibStep(79, 23416728348467685, 37889062373143906);
    FibStep(80, 37889062373143906, 61305790721611591);
    FibStep(81, 61305790721611591, 99194853094755497);
    FibStep(82, 99194853094755497, 160500643816367088);
    FibStep(83, 160500643816367088, 259695496911122585);
    FibStep(84, 259695496911122585, 420196140727489673);
    FibStep(85, 420196140727489673, 679891637638612258);
    FibStep(86, 679891637638612258, 1100087778366101931);
    FibStep(87, 1100087778366101931, 1779979416004714189);
    FibStep(88, 1779979416004714189, 2880067194370816120);
    FibStep(89, 2880067194370816120, 4660046610375530309);
    FibStep(90, 4660046610375530309, 7540113804746346429);
  }

  /** Up to index 91 the `long` computation gives the exact value. */
  lemma FibFitsInLong(n: int)
    requires n <= 91
    ensures Long(Fib(n)) == Fib(n)
  {
    FibPositiveMonotone(n);
    FibMonotone(n, 91);
    FibValuesTo92();
    LongInRange(Fib(n));
  }

  /** From index 92 on the value exceeds the largest `long`, so the `long` computation no longer
      gives the exact value. */
  lemma FibOverflowsLong(n: int)
    requires n >= 92
    ensures Long(Fib(n)) != Fib(n)
  {
    FibMonotone(92, n);
    FibValuesTo92();
    assert Fib(n) >= TwoTo63;
  }

  /** The sequence never decreases over any range of indices. */
  lemma {:induction false} FibMonotone(m: int, n: int)
    requires m <= n
    ensures Fib(m) <= Fib(n)
    decreases n - m
  {
    if m < n {
      FibPositiveMonotone(m);
      FibMonotone(m + 1, n);
    }
  }

  /** Every value of the sequence is positive, and it never decreases. */
  lemma {:induction false} FibPositiveMonotone(n: int)
    ensures Fib(n) >= 1
    ensures Fib(n) <= Fib(n + 1)
    decreases n
  {
    if n > 1 {
      FibPositiveMonotone(n - 1);
      FibPositiveMonotone(n - 2);
    }
  }

  /** The value fixed by the stated base case: fib(10) = 89. */
  lemma FibTen()
    ensures Fib(10) == 89
  {
  }
}

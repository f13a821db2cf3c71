/** String segmentation over a word bank (Recursion.canConstruct, countConstruct, allConstruct):
    decide whether a target is a concatenation of bank words (each reusable), count the ways, or
    list them. Every bank word must be non-empty: an empty word can make `Recursion.canConstruct`
    and its siblings recurse on the same target forever. */
module Construct {
  import opened JavaInt

  /** w occurs in s starting at position k. */
  predicate OccursAt(s: string, w: string, k: int)
  {
    0 <= k && k + |w| <= |s| && s[k..k + |w|] == w
  }

  /** Java's `String.indexOf`: the least position at which w occurs in s, or -1 when it does not. */
  function IndexOf(s: string, w: string): (r: int)
    ensures r == -1 || OccursAt(s, w, r)
    ensures r == -1 ==> forall k :: !OccursAt(s, w, k)
    ensures r != -1 ==> forall k :: k < r ==> !OccursAt(s, w, k)
  {
    IndexFrom(s, w, 0)
  }

  /** The search of `indexOf` from position `from` onwards. */
  function IndexFrom(s: string, w: string, from: nat): (r: int)
    ensures r == -1 || (from <= r && OccursAt(s, w, r))
    ensures r == -1 ==> forall k :: from <= k ==> !OccursAt(s, w, k)
    ensures r != -1 ==> forall k :: from <= k < r ==> !OccursAt(s, w, k)
    decreases |s| - from
  {
    if from + |w| > |s| then -1
    else if s[from..from + |w|] == w then from
    else IndexFrom(s, w, from + 1)
  }

  /** The test `target.indexOf(word) == 0` in `Recursion.canConstruct` is exactly "word is a prefix of target". */
  lemma IndexOfZeroIffPrefix(t: string, w: string)
    ensures IndexOf(t, w) == 0 <==> w <= t
  {
    if w <= t {
      assert t[0..|w|] == w;
    }
  }

  predicate NonEmptyWords(bank: seq<string>)
  {
    forall i :: 0 <= i < |bank| ==> |bank[i]| > 0
  }

  /** The words of ws, one after the other. */
  function Concat(ws: seq<string>): string
  {
    if ws == [] then [] else ws[0] + Concat(ws[1..])
  }

  /** Every word of ws is a word of the bank. */
  predicate FromBank(ws: seq<string>, bank: seq<string>)
  {
    forall k :: 0 <= k < |ws| ==> ws[k] in bank
  }

  /** ws is a decomposition of t into bank words. */
  predicate IsDecomposition(ws: seq<string>, t: string, bank: seq<string>)
  {
    FromBank(ws, bank) && Concat(ws) == t
  }

  /** A concatenation of non-empty words has at least as many characters as words. */
  lemma {:induction false} ConcatLengthBound(ws: seq<string>, bank: seq<string>)
    requires NonEmptyWords(bank) && FromBank(ws, bank)
    ensures |Concat(ws)| >= |ws|
  {
    if ws != [] {
      assert FromBank(ws[1..], bank);
      ConcatLengthBound(ws[1..], bank);
    }
  }

  lemma PrefixSplit(w: string, t: string)
    requires w <= t
    ensures t == w + t[|w|..]
  {
  }

  // ---------------------------------------------------------------- canConstruct

  /** The naive recurrence of canConstruct: the empty target is constructible, and a non-empty one
      is when some bank word is a prefix of it and the rest is constructible. */
  function CanConstruct(t: string, bank: seq<string>): bool
    requires NonEmptyWords(bank)
    decreases |t|
  {
    if t == [] then true
    else exists i | 0 <= i < |bank| && bank[i] <= t :: CanConstruct(t[|bank[i]|..], bank)
  }

  lemma {:induction false} CanConstructHasDecomposition(t: string, bank: seq<string>) returns (ws: seq<string>)
    requires NonEmptyWords(bank) && CanConstruct(t, bank)
    ensures IsDecomposition(ws, t, bank)
    decreases |t|
  {
    if t == [] {
      ws := [];
    } else {
      var i :| 0 <= i < |bank| && bank[i] <= t && CanConstruct(t[|bank[i]|..], bank);
      var rest := CanConstructHasDecomposition(t[|bank[i]|..], bank);
      ws := [bank[i]] + rest;
      assert ws[1..] == rest;
      PrefixSplit(bank[i], t);
    }
  }

  lemma {:induction false} DecompositionGivesCanConstruct(ws: seq<string>, t: string, bank: seq<string>)
    requires NonEmptyWords(bank) && IsDecomposition(ws, t, bank)
    ensures CanConstruct(t, bank)
    decreases |ws|
  {
    if ws != [] {
      var w := ws[0];
      var i :| 0 <= i < |bank| && bank[i] == w;
      assert t == w + Concat(ws[1..]);
      assert w <= t;
      assert t[|w|..] == Concat(ws[1..]);
      assert FromBank(ws[1..], bank);
      DecompositionGivesCanConstruct(ws[1..], t[|w|..], bank);
    }
  }

  /** canConstruct holds exactly when the target is the concatenation of a finite sequence of bank
      words, each usable any number of times; the empty target always is. */
  lemma CanConstructIffDecomposition(t: string, bank: seq<string>)
    requires NonEmptyWords(bank)
    ensures CanConstruct(t, bank) <==> exists ws :: IsDecomposition(ws, t, bank)
    ensures t == [] ==> CanConstruct(t, bank)
  {
    if CanConstruct(t, bank) {
      var ws := CanConstructHasDecomposition(t, bank);
    }
    if ws :| IsDecomposition(ws, t, bank) {
      DecompositionGivesCanConstruct(ws, t, bank);
    }
  }

  ghost predicate CanMemoAgrees(memo: map<string, bool>, bank: seq<string>)
    requires NonEmptyWords(bank)
  {
    forall k :: k in memo ==> memo[k] == CanConstruct(k, bank)
  }

  /** A bank entry that is a prefix of a non-empty target, with a constructible rest, makes the
      target constructible. */
  lemma CanConstructByEntry(t: string, bank: seq<string>, i: nat)
    requires NonEmptyWords(bank) && i < |bank| && bank[i] <= t
    requires CanConstruct(t[|bank[i]|..], bank)
    ensures CanConstruct(t, bank)
  {
  }

  /** A non-empty target that no bank entry starts with a constructible rest is not constructible. */
  lemma CannotConstructByAnyEntry(t: string, bank: seq<string>)
    requires NonEmptyWords(bank) && t != []
    requires forall j :: 0 <= j < |bank| && bank[j] <= t ==> !CanConstruct(t[|bank[j]|..], bank)
    ensures !CanConstruct(t, bank)
  {
  }

  lemma CanMemoStore(memo: map<string, bool>, bank: seq<string>, t: string, v: bool)
    requires NonEmptyWords(bank) && CanMemoAgrees(memo, bank) && v == CanConstruct(t, bank)
    ensures CanMemoAgrees(memo[t := v], bank)
  {
  }

  /** The private helper: the memo is consulted first; a non-empty target stores its answer. */
  method MemoCanConstruct(t: string, bank: seq<string>, memo: map<string, bool>)
    returns (r: bool, memo': map<string, bool>)
    requires NonEmptyWords(bank) && CanMemoAgrees(memo, bank)
    ensures r == CanConstruct(t, bank)
    ensures CanMemoAgrees(memo', bank)
    ensures memo.Keys <= memo'.Keys
    decreases |t|
  {
    if t in memo {
      return memo[t], memo;
    }
    if t == [] {
      return true, memo;
    }
    memo' := memo;
    var i := 0;
    while i < |bank|
      invariant 0 <= i <= |bank|
      invariant CanMemoAgrees(memo', bank)
      invariant memo.Keys <= memo'.Keys
      invariant forall j :: 0 <= j < i && bank[j] <= t ==> !CanConstruct(t[|bank[j]|..], bank)
    {
      var prefix := bank[i];
      IndexOfZeroIffPrefix(t, prefix);
      if IndexOf(t, prefix) == 0 {
        var suffix := t[|prefix|..];
        var b;
        b, memo' := MemoCanConstruct(suffix, bank, memo');
        if b {
          CanConstructByEntry(t, bank, i);
          CanMemoStore(memo', bank, t, true);
          memo' := memo'[t := true];
          return true, memo';
        }
      }
      i := i + 1;
    }
    CannotConstructByAnyEntry(t, bank);
    CanMemoStore(memo', bank, t, false);
    memo' := memo'[t := false];
    return false, memo';
  }

  method ComputeCanConstruct(t: string, bank: seq<string>) returns (r: bool)
    requires NonEmptyWords(bank)
    ensures r <==> exists ws :: IsDecomposition(ws, t, bank)
    ensures r == CanConstruct(t, bank)
  {
    var memo;
    r, memo := MemoCanConstruct(t, bank, map[]);
    CanConstructIffDecomposition(t, bank);
  }

  // ---------------------------------------------------------------- countConstruct

  /** The naive recurrence of countConstruct: 1 for the empty target, and otherwise the sum, over
      the bank entries that are a prefix of the target, of the count for the rest. */
  function CountConstruct(t: string, bank: seq<string>): nat
    requires NonEmptyWords(bank)
    decreases |t|, |bank| + 1
  {
    if t == [] then 1 else CountUpTo(t, bank, |bank|)
  }

  /** The running total of countConstruct after it has looked at the first i bank entries. */
  function CountUpTo(t: string, bank: seq<string>, i: nat): nat
    requires NonEmptyWords(bank) && i <= |bank|
    decreases |t|, i
  {
    if i == 0 then 0
    else
      var here := if bank[i - 1] <= t then CountConstruct(t[|bank[i - 1]|..], bank) else 0;
      CountUpTo(t, bank, i - 1) + here
  }

  ghost predicate CountMemoAgrees(memo: map<string, int>, bank: seq<string>)
    requires NonEmptyWords(bank)
  {
    forall k :: k in memo ==> memo[k] == Int(CountConstruct(k, bank))
  }

  /** The private helper: every bank entry that is a prefix adds the count of the rest, in Java
      `int` arithmetic. */
  method MemoCountConstruct(t: string, bank: seq<string>, memo: map<string, int>)
    returns (r: int, memo': map<string, int>)
    requires NonEmptyWords(bank) && CountMemoAgrees(memo, bank)
    ensures r == Int(CountConstruct(t, bank))
    ensures CountMemoAgrees(memo', bank)
    ensures memo.Keys <= memo'.Keys
    decreases |t|
  {
    if t in memo {
      return memo[t], memo;
    }
    if t == [] {
      return 1, memo;
    }
    memo' := memo;
    var total := 0;
    var i := 0;
    while i < |bank|
      invariant 0 <= i <= |bank|
      invariant CountMemoAgrees(memo', bank)
      invariant memo.Keys <= memo'.Keys
      invariant total == Int(CountUpTo(t, bank, i))
    {
      var prefix := bank[i];
      IndexOfZeroIffPrefix(t, prefix);
      if IndexOf(t, prefix) == 0 {
        var temp;
        temp, memo' := MemoCountConstruct(t[|prefix|..], bank, memo');
        IntAdd(CountUpTo(t, bank, i), CountConstruct(t[|prefix|..], bank));
        total := Int(total + temp);
      }
      i := i + 1;
    }
    memo' := memo'[t := total];
    r := total;
  }

  /** The public entry point. The count is the number of decompositions by bank position, wrapped
      in Java `int`; below 2^31 it is exact and positive exactly when canConstruct holds. */
  method ComputeCountConstruct(t: string, bank: seq<string>) returns (r: int)
    requires NonEmptyWords(bank)
    ensures r == Int(|AllIndexed(t, bank)|)
    ensures r == Int(CountConstruct(t, bank))
    ensures t == [] ==> r == 1
    ensures CountConstruct(t, bank) < TwoTo31 ==>
      r == CountConstruct(t, bank) && (r > 0 <==> CanConstruct(t, bank))
  {
    var memo;
    r, memo := MemoCountConstruct(t, bank, map[]);
    CountIsNumberOfIndexedDecompositions(t, bank);
    CanConstructIffCountPositive(t, bank);
    if CountConstruct(t, bank) < TwoTo31 {
      IntInRange(CountConstruct(t, bank));
    }
  }

  /** Bank entry j is a prefix of t whose rest is constructible. */
  ghost predicate Usable(t: string, bank: seq<string>, j: nat)
    requires NonEmptyWords(bank) && j < |bank|
  {
    bank[j] <= t && CanConstruct(t[|bank[j]|..], bank)
  }

  /** One of the first i bank entries is usable. */
  ghost predicate SomeUsable(t: string, bank: seq<string>, i: nat)
    requires NonEmptyWords(bank) && i <= |bank|
  {
    exists j :: 0 <= j < i && Usable(t, bank, j)
  }

  lemma SomeUsableStep(t: string, bank: seq<string>, i: nat)
    requires NonEmptyWords(bank) && 0 < i <= |bank|
    ensures SomeUsable(t, bank, i) <==> SomeUsable(t, bank, i - 1) || Usable(t, bank, i - 1)
  {
    if SomeUsable(t, bank, i - 1) {
      var j :| 0 <= j < i - 1 && Usable(t, bank, j);
      assert 0 <= j < i;
    }
    if Usable(t, bank, i - 1) {
      assert 0 <= i - 1 < i;
    }
  }

  /** The running count is positive exactly when one of the entries looked at is usable. */
  lemma {:induction false} CountUpToPositiveIff(t: string, bank: seq<string>, i: nat)
    requires NonEmptyWords(bank) && i <= |bank|
    ensures CountUpTo(t, bank, i) > 0 <==> SomeUsable(t, bank, i)
    decreases |t|, i
  {
    if i > 0 {
      CountUpToPositiveIff(t, bank, i - 1);
      SomeUsableStep(t, bank, i);
      var w := bank[i - 1];
      if w <= t {
        CanConstructIffCountPositive(t[|w|..], bank);
        assert CountUpTo(t, bank, i) == CountUpTo(t, bank, i - 1) + CountConstruct(t[|w|..], bank);
      } else {
        assert CountUpTo(t, bank, i) == CountUpTo(t, bank, i - 1);
      }
    }
  }

  /** canConstruct is true exactly when countConstruct is positive. */
  lemma {:induction false} CanConstructIffCountPositive(t: string, bank: seq<string>)
    requires NonEmptyWords(bank)
    ensures CanConstruct(t, bank) <==> CountConstruct(t, bank) > 0
    decreases |t|, |bank| + 1
  {
    if t != [] {
      CountUpToPositiveIff(t, bank, |bank|);
      if CanConstruct(t, bank) {
        var i :| 0 <= i < |bank| && bank[i] <= t && CanConstruct(t[|bank[i]|..], bank);
        assert Usable(t, bank, i);
      }
      if SomeUsable(t, bank, |bank|) {
        var i :| 0 <= i < |bank| && Usable(t, bank, i);
        assert bank[i] <= t && CanConstruct(t[|bank[i]|..], bank);
      }
    }
  }

  // ---------------------------------------------------------------- allConstruct

  /** Each decomposition in L with the word w put in front (the `combo.add(0, word)` step). */
  function PrependAll(w: string, L: seq<seq<string>>): (r: seq<seq<string>>)
  {
    seq(|L|, k requires 0 <= k < |L| => [w] + L[k])
  }

  /** The naive recurrence of allConstruct: `[[]]` for the empty target, and otherwise, bank entry
      by bank entry, every decomposition of the rest with that entry in front. */
  function AllConstruct(t: string, bank: seq<string>): (r: seq<seq<string>>)
    requires NonEmptyWords(bank)
    ensures forall k :: 0 <= k < |r| ==> IsDecomposition(r[k], t, bank)
    decreases |t|, |bank| + 1
  {
    if t == [] then [[]] else AllUpTo(t, bank, |bank|)
  }

  /** The result list of allConstruct after it has looked at the first i bank entries. */
  function AllUpTo(t: string, bank: seq<string>, i: nat): (r: seq<seq<string>>)
    requires NonEmptyWords(bank) && i <= |bank|
    ensures forall k :: 0 <= k < |r| ==> IsDecomposition(r[k], t, bank)
    decreases |t|, i
  {
    if i == 0 then []
    else AllUpTo(t, bank, i - 1) + AllBranch(t, bank, i - 1)
  }

  /** What bank entry j contributes to allConstruct: nothing unless it is a prefix of the target. */
  function AllBranch(t: string, bank: seq<string>, j: nat): (r: seq<seq<string>>)
    requires NonEmptyWords(bank) && j < |bank|
    ensures forall k :: 0 <= k < |r| ==> IsDecomposition(r[k], t, bank)
    decreases |t|, 0
  {
    if bank[j] <= t then
      var rest := AllConstruct(t[|bank[j]|..], bank);
      var r := PrependAll(bank[j], rest);
      assert forall k :: 0 <= k < |r| ==> r[k][0] == bank[j] && r[k][1..] == rest[k];
      PrefixSplit(bank[j], t);
      r
    else []
  }

  ghost predicate AllMemoAgrees(memo: map<string, seq<seq<string>>>, bank: seq<string>)
    requires NonEmptyWords(bank)
  {
    forall k :: k in memo ==> memo[k] == AllConstruct(k, bank)
  }

  /** The private helper: results for the rest are copied, the word is put in front of each copy,
      and they are appended to the result in bank order. */
  method MemoAllConstruct(t: string, bank: seq<string>, memo: map<string, seq<seq<string>>>)
    returns (r: seq<seq<string>>, memo': map<string, seq<seq<string>>>)
    requires NonEmptyWords(bank) && AllMemoAgrees(memo, bank)
    ensures r == AllConstruct(t, bank)
    ensures AllMemoAgrees(memo', bank)
    ensures memo.Keys <= memo'.Keys
    decreases |t|
  {
    if t in memo {
      return memo[t], memo;
    }
    if t == [] {
      return [[]], memo;
    }
    memo' := memo;
    var result := [];
    var i := 0;
    while i < |bank|
      invariant 0 <= i <= |bank|
      invariant AllMemoAgrees(memo', bank)
      invariant memo.Keys <= memo'.Keys
      invariant result == AllUpTo(t, bank, i)
    {
      var word := bank[i];
      IndexOfZeroIffPrefix(t, word);
      if IndexOf(t, word) == 0 {
        var suffix := t[|word|..];
        var suffixCombo;
        suffixCombo, memo' := MemoAllConstruct(suffix, bank, memo');
        var targetCombo := [];
        var k := 0;
        while k < |suffixCombo|
          invariant 0 <= k <= |suffixCombo|
          invariant targetCombo == PrependAll(word, suffixCombo[..k])
        {
          targetCombo := targetCombo + [[word] + suffixCombo[k]];
          k := k + 1;
        }
        assert suffixCombo[..k] == suffixCombo;
        result := result + targetCombo;
      }
      i := i + 1;
    }
    memo' := memo'[t := result];
    r := result;
  }

  method ComputeAllConstruct(t: string, bank: seq<string>) returns (r: seq<seq<string>>)
    requires NonEmptyWords(bank)
    ensures forall ws :: ws in r <==> IsDecomposition(ws, t, bank)
    ensures |r| == CountConstruct(t, bank)
    ensures t == [] ==> r == [[]]
    ensures !CanConstruct(t, bank) ==> r == []
    ensures r == AllConstruct(t, bank)
  {
    var memo;
    r, memo := MemoAllConstruct(t, bank, map[]);
    AllConstructExact(t, bank);
    AllLengthIsCount(t, bank);
    CanConstructIffCountPositive(t, bank);
  }

  lemma {:induction false} AllUpToComplete(t: string, bank: seq<string>, i: nat, ws: seq<string>)
    requires NonEmptyWords(bank) && i <= |bank| && t != []
    requires IsDecomposition(ws, t, bank)
    requires exists j :: 0 <= j < i && bank[j] == ws[0]
    requires forall w :: |w| < |t| ==> forall v :: IsDecomposition(v, w, bank) ==> v in AllConstruct(w, bank)
    ensures ws in AllUpTo(t, bank, i)
    decreases i
  {
    if bank[i - 1] == ws[0] {
      var w := ws[0];
      assert t == w + Concat(ws[1..]);
      assert w <= t;
      assert t[|w|..] == Concat(ws[1..]);
      assert FromBank(ws[1..], bank);
      var rest := AllConstruct(t[|w|..], bank);
      assert ws[1..] in rest;
      var k :| 0 <= k < |rest| && rest[k] == ws[1..];
      assert AllBranch(t, bank, i - 1)[k] == ws;
    } else {
      AllUpToComplete(t, bank, i - 1, ws);
    }
  }

  /** allConstruct lists exactly the decompositions: every entry concatenates to the target and
      uses only bank words, and every such sequence of words is listed. */
  lemma {:induction false} AllConstructExact(t: string, bank: seq<string>)
    requires NonEmptyWords(bank)
    ensures forall ws :: ws in AllConstruct(t, bank) <==> IsDecomposition(ws, t, bank)
    decreases |t|
  {
    forall ws | IsDecomposition(ws, t, bank)
      ensures ws in AllConstruct(t, bank)
    {
      if t == [] {
        ConcatLengthBound(ws, bank);
        assert ws == [];
      } else {
        assert ws != [];
        var i :| 0 <= i < |bank| && bank[i] == ws[0];
        forall w | |w| < |t|
          ensures forall v :: IsDecomposition(v, w, bank) ==> v in AllConstruct(w, bank)
        {
          AllConstructExact(w, bank);
        }
        AllUpToComplete(t, bank, |bank|, ws);
      }
    }
  }

  lemma {:induction false} AllUpToLength(t: string, bank: seq<string>, i: nat)
    requires NonEmptyWords(bank) && i <= |bank|
    requires forall w :: |w| < |t| ==> |AllConstruct(w, bank)| == CountConstruct(w, bank)
    ensures |AllUpTo(t, bank, i)| == CountUpTo(t, bank, i)
    decreases i
  {
    if i > 0 {
      AllUpToLength(t, bank, i - 1);
    }
  }

  /** The number of decompositions allConstruct lists equals countConstruct. */
  lemma {:induction false} AllLengthIsCount(t: string, bank: seq<string>)
    requires NonEmptyWords(bank)
    ensures |AllConstruct(t, bank)| == CountConstruct(t, bank)
    decreases |t|
  {
    if t != [] {
      forall w | |w| < |t|
        ensures |AllConstruct(w, bank)| == CountConstruct(w, bank)
      {
        AllLengthIsCount(w, bank);
      }
      AllUpToLength(t, bank, |bank|);
    }
  }

  // ---------------------------------------------------------------- counting by position

  /** The words that a sequence of bank positions names. */
  function Words(bank: seq<string>, idx: seq<nat>): (ws: seq<string>)
    requires forall k :: 0 <= k < |idx| ==> idx[k] < |bank|
  {
    seq(|idx|, k requires 0 <= k < |idx| => bank[idx[k]])
  }

  /** idx is a decomposition of t given as bank positions: two equal bank entries at different
      positions give different decompositions. */
  predicate IsIndexedDecomposition(idx: seq<nat>, t: string, bank: seq<string>)
  {
    (forall k :: 0 <= k < |idx| ==> idx[k] < |bank|) && Concat(Words(bank, idx)) == t
  }

  ghost predicate NoDuplicates<X>(s: seq<X>)
  {
    forall a, b :: 0 <= a < b < |s| ==> s[a] != s[b]
  }

  function PrependIndex(i: nat, L: seq<seq<nat>>): seq<seq<nat>>
  {
    seq(|L|, k requires 0 <= k < |L| => [i] + L[k])
  }

  /** allConstruct with the bank position of each word recorded instead of the word itself. */
  function AllIndexed(t: string, bank: seq<string>): (r: seq<seq<nat>>)
    requires NonEmptyWords(bank)
    ensures forall k :: 0 <= k < |r| ==> forall m :: 0 <= m < |r[k]| ==> r[k][m] < |bank|
    decreases |t|, |bank| + 1
  {
    if t == [] then [[]] else IndexedUpTo(t, bank, |bank|)
  }

  function IndexedUpTo(t: string, bank: seq<string>, i: nat): (r: seq<seq<nat>>)
    requires NonEmptyWords(bank) && i <= |bank|
    ensures forall k :: 0 <= k < |r| ==> forall m :: 0 <= m < |r[k]| ==> r[k][m] < |bank|
    ensures forall k :: 0 <= k < |r| ==> r[k] != [] && r[k][0] < i
    decreases |t|, i
  {
    if i == 0 then []
    else
      var prev := IndexedUpTo(t, bank, i - 1);
      if bank[i - 1] <= t then
        var r := prev + PrependIndex(i - 1, AllIndexed(t[|bank[i - 1]|..], bank));
        assert forall k :: |prev| <= k < |r| ==> r[k][0] == i - 1;
        r
      else prev
  }

  lemma {:induction false} IndexedUpToCount(t: string, bank: seq<string>, i: nat)
    requires NonEmptyWords(bank) && i <= |bank|
    ensures |IndexedUpTo(t, bank, i)| == CountUpTo(t, bank, i)
    decreases |t|, i
  {
    if i > 0 {
      IndexedUpToCount(t, bank, i - 1);
      if bank[i - 1] <= t {
        IndexedCount(t[|bank[i - 1]|..], bank);
      }
    }
  }

  lemma {:induction false} IndexedCount(t: string, bank: seq<string>)
    requires NonEmptyWords(bank)
    ensures |AllIndexed(t, bank)| == CountConstruct(t, bank)
    decreases |t|, |bank| + 1
  {
    if t != [] {
      IndexedUpToCount(t, bank, |bank|);
    }
  }

  lemma PrependIndexNoDuplicates(i: nat, L: seq<seq<nat>>)
    requires NoDuplicates(L)
    ensures NoDuplicates(PrependIndex(i, L))
  {
    var P := PrependIndex(i, L);
    forall a, b | 0 <= a < b < |P|
      ensures P[a] != P[b]
    {
      assert P[a][1..] == L[a] && P[b][1..] == L[b];
    }
  }

  lemma AppendNoDuplicates<X>(s: seq<X>, u: seq<X>)
    requires NoDuplicates(s) && NoDuplicates(u)
    requires forall p, q :: 0 <= p < |s| && 0 <= q < |u| ==> s[p] != u[q]
    ensures NoDuplicates(s + u)
  {
    var r := s + u;
    forall a, b | 0 <= a < b < |r|
      ensures r[a] != r[b]
    {
      if b < |s| {
        assert r[a] == s[a] && r[b] == s[b];
      } else if a >= |s| {
        assert r[a] == u[a - |s|] && r[b] == u[b - |s|];
      } else {
        assert r[a] == s[a] && r[b] == u[b - |s|];
      }
    }
  }

  lemma {:induction false} IndexedUpToNoDuplicates(t: string, bank: seq<string>, i: nat)
    requires NonEmptyWords(bank) && i <= |bank|
    ensures NoDuplicates(IndexedUpTo(t, bank, i))
    decreases |t|, i
  {
    if i > 0 {
      IndexedUpToNoDuplicates(t, bank, i - 1);
      if bank[i - 1] <= t {
        var prev := IndexedUpTo(t, bank, i - 1);
        var rest := AllIndexed(t[|bank[i - 1]|..], bank);
        IndexedNoDuplicates(t[|bank[i - 1]|..], bank);
        PrependIndexNoDuplicates(i - 1, rest);
        var block := PrependIndex(i - 1, rest);
        forall p, q | 0 <= p < |prev| && 0 <= q < |block|
          ensures prev[p] != block[q]
        {
          assert prev[p][0] < i - 1 && block[q][0] == i - 1;
        }
        AppendNoDuplicates(prev, block);
      }
    }
  }

  lemma {:induction false} IndexedNoDuplicates(t: string, bank: seq<string>)
    requires NonEmptyWords(bank)
    ensures NoDuplicates(AllIndexed(t, bank))
    decreases |t|, |bank| + 1
  {
    if t != [] {
      IndexedUpToNoDuplicates(t, bank, |bank|);
    }
  }

  lemma WordsCons(bank: seq<string>, i: nat, idx: seq<nat>)
    requires i < |bank| && forall k :: 0 <= k < |idx| ==> idx[k] < |bank|
    ensures Words(bank, [i] + idx) == [bank[i]] + Words(bank, idx)
  {
  }

  /** Splitting an indexed decomposition into its first position and the rest. */
  lemma IndexedSplit(idx: seq<nat>, bank: seq<string>)
    requires idx != [] && forall k :: 0 <= k < |idx| ==> idx[k] < |bank|
    ensures Concat(Words(bank, idx)) == bank[idx[0]] + Concat(Words(bank, idx[1..]))
  {
    assert idx == [idx[0]] + idx[1..];
    WordsCons(bank, idx[0], idx[1..]);
    var ws := Words(bank, idx);
    assert ws[1..] == Words(bank, idx[1..]);
  }

  /** The first word of an indexed decomposition is a prefix of the target. */
  lemma IndexedHeadIsPrefix(idx: seq<nat>, t: string, bank: seq<string>)
    requires IsIndexedDecomposition(idx, t, bank) && idx != []
    ensures bank[idx[0]] <= t
  {
    IndexedSplit(idx, bank);
  }

  /** What bank position j contributes is exactly the indexed decompositions starting with j. */
  lemma {:induction false} IndexedBlockExact(t: string, bank: seq<string>, j: nat, idx: seq<nat>)
    requires NonEmptyWords(bank) && j < |bank| && bank[j] <= t
    ensures idx in PrependIndex(j, AllIndexed(t[|bank[j]|..], bank)) <==>
      IsIndexedDecomposition(idx, t, bank) && idx != [] && idx[0] == j
    decreases |t|, 0
  {
    var w := bank[j];
    var rest := AllIndexed(t[|w|..], bank);
    var block := PrependIndex(j, rest);
    IndexedExact(t[|w|..], bank);
    PrefixSplit(w, t);
    if idx in block {
      var k :| 0 <= k < |block| && block[k] == idx;
      assert idx[1..] == rest[k];
      assert rest[k] in rest;
      assert IsIndexedDecomposition(idx[1..], t[|w|..], bank);
      assert idx[0] == j;
      IndexedSplit(idx, bank);
      assert Concat(Words(bank, idx)) == w + t[|w|..];
    }
    if IsIndexedDecomposition(idx, t, bank) && idx != [] && idx[0] == j {
      IndexedSplit(idx, bank);
      var tail := Concat(Words(bank, idx[1..]));
      assert t == w + tail;
      assert t[|w|..] == tail;
      assert idx[1..] in rest;
      var k :| 0 <= k < |rest| && rest[k] == idx[1..];
      assert block[k] == [j] + idx[1..] == idx;
    }
  }

  lemma {:induction false} IndexedUpToExact(t: string, bank: seq<string>, i: nat, idx: seq<nat>)
    requires NonEmptyWords(bank) && i <= |bank|
    ensures idx in IndexedUpTo(t, bank, i) <==> IsIndexedDecomposition(idx, t, bank) && idx != [] && idx[0] < i
    decreases |t|, i + 1
  {
    if i > 0 {
      IndexedUpToExact(t, bank, i - 1, idx);
      if bank[i - 1] <= t {
        IndexedBlockExact(t, bank, i - 1, idx);
      } else if IsIndexedDecomposition(idx, t, bank) && idx != [] {
        IndexedHeadIsPrefix(idx, t, bank);
      }
    }
  }

  lemma {:induction false} IndexedExact(t: string, bank: seq<string>)
    requires NonEmptyWords(bank)
    ensures forall idx :: idx in AllIndexed(t, bank) <==> IsIndexedDecomposition(idx, t, bank)
    decreases |t|, |bank| + 2
  {
    forall idx
      ensures idx in AllIndexed(t, bank) <==> IsIndexedDecomposition(idx, t, bank)
    {
      if t == [] {
        if IsIndexedDecomposition(idx, t, bank) && idx != [] {
          IndexedHeadIsPrefix(idx, t, bank);
        }
      } else {
        IndexedUpToExact(t, bank, |bank|, idx);
      }
    }
  }

  /** countConstruct counts decompositions by bank position: it is the length of a list, free of
      repetitions, holding exactly the sequences of bank positions whose words spell the target.
      Equal words at two positions of the bank are therefore counted separately. */
  lemma CountIsNumberOfIndexedDecompositions(t: string, bank: seq<string>)
    requires NonEmptyWords(bank)
    ensures CountConstruct(t, bank) == |AllIndexed(t, bank)|
    ensures NoDuplicates(AllIndexed(t, bank))
    ensures forall idx :: idx in AllIndexed(t, bank) <==> IsIndexedDecomposition(idx, t, bank)
  {
    IndexedCount(t, bank);
    IndexedNoDuplicates(t, bank);
    IndexedExact(t, bank);
  }
}

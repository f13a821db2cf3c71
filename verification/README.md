# Basic_Concepts in Dafny: memoized recursion and adjacency-map traversals

This project models the two source files of the Basic_Concepts repository, and proves properties
of the model:

* `src/Recursion.java`: seven memoized solvers that share one caching pattern.
  * `fib`: the Fibonacci numbers, in Java `long` arithmetic.
  * `canSum`, `howSum` and `bestSum`: subset sum with repetition over a list of numbers.
  * `canConstruct`, `countConstruct` and `allConstruct`: segmentation of a target string into
    words of a word bank.
* `src/Graph.java`: three traversals of a graph given as a map from each node to the list of its
  neighbours, plus the six-node `EXAMPLE` graph.
  * `depthFirstPrint`: an explicit stack.
  * `recursiveDepthFirstPrint`: the call stack.
  * `breadthFirstPrint`: a queue.

## Structure

* Each solver has a pure recurrence (`Fib`, `CanSum`, `HowSum`, `BestSum`, `CanConstruct`,
  `CountConstruct`, `AllConstruct`). Each recurrence is tied to an independent meaning by a lemma:
  * a combination summing to the target;
  * a shortest such combination;
  * a sequence of bank words whose concatenation is the target;
  * the number of bank-position sequences that spell the target.
* The memoized helper (`MemoFib`, `MemoCanSum`, …) is a method. It threads the memo as a `map`
  and follows the Java control flow step by step. Its contract says:
  * the result equals the recurrence;
  * every memo entry stays correct.
* The public entry point (`ComputeFib`, …) starts from an empty memo.
* Java `null` results are `Option.None`. A memo of type `map<K, Option<V>>` therefore keeps
  "key absent" apart from "null stored".
* Java `long` and `int` wrap-around is written out in `JavaInt`. `fib` returns the wrapped
  value. `countConstruct` accumulates its total in `int`.
* A graph is `map<T, seq<T>>`, with the node type kept generic as in `breadthFirstPrint`.
* The traversals keep no visited set. Each one therefore emits the tree of paths from the start
  node.
* The model needs a `rank` (a ghost argument) with two properties:
  * every node reachable from the start is a key;
  * the rank strictly decreases along every reachable edge (`Graphs.Sound`).

  This is exactly when the Java code terminates without a null lookup.
* Against that precondition the model proves the following, each as a statement about the
  output sequence:
  * `recursiveDepthFirstPrint` is the pre-order `Preorder`.
  * `depthFirstPrint` is the pre-order of the graph with every neighbour list reversed
    (`Mirror`). So a node with neighbours is followed by its last-listed neighbour.
  * `breadthFirstPrint` is the level order `LevelOrder`. Its first round, written out before
    the loop, is one round of the loop.
  * All three emit every node once per path to it from the start.
* The worked examples are proved against both the recurrences and the public methods
  (`RecursionExamples`, `ConstructExamples`): fib(10); canSum and howSum of 7; bestSum of 8 and
  the tie at 5; "abcdef", "skateboard" and "purple". The string examples are worked out one
  suffix at a time, and each suffix one bank word at a time.

## Model

| member | source | states |
|---|---|---|
| JavaInt.LongAdd | src/Recursion.java:27 | summing two wrapped `long` values and wrapping again gives the wrapped exact sum, so a `long` recurrence yields the wrapped exact value |
| JavaInt.IntAdd | src/Recursion.java:155 | the same for `int`, so `total += temp` ends with the wrapped exact total |
| Fibonacci.MemoFib | src/Recursion.java:21-30 | the helper returns the recurrence value (1 at every index up to 1, negative indices included, else the sum of the two before) wrapped to `long`; every memo entry stays correct, old keys are kept, and only indices in (1, n] are added |
| Fibonacci.ComputeFib | src/Recursion.java:17-19 | from a fresh memo, `fib(n)` is the `long`-wrapped Fibonacci value; it is the exact value exactly when n is at most 91 |
| Fibonacci.FibPositiveMonotone | src/Recursion.java:25-27 | every value is at least 1 and the sequence never decreases |
| Fibonacci.FibFitsInLong | src/Recursion.java:17-30 | up to index 91 (value 7540113804746346429, below 2^63) the `long` computation loses nothing |
| Fibonacci.FibOverflowsLong | src/Recursion.java:17-30 | from index 92 on (value 12200160415121876738 at 92, above 2^63 - 1) the `long` result differs from the exact value |
| Fibonacci.FibMonotone | src/Recursion.java:25-27 | the sequence never decreases between any two indices |
| Fibonacci.FibValuesTo92 | src/Recursion.java:25-27 | the recurrence gives 7540113804746346429 at index 91 and 12200160415121876738 at index 92 |
| Fibonacci.FibTen | src/Recursion.java:25-27 | with base case 1 at indices 0 and 1, fib(10) = 89 |
| SubsetSum.CanSumIffCombination | src/Recursion.java:43-56 | canSum holds exactly when the target is the sum of a finite combination drawn with repetition from the numbers; 0 always, a negative target never |
| SubsetSum.MemoCanSum | src/Recursion.java:43-56 | the helper (memo first, then 0 → true, negative → false, then the numbers in order) returns the recurrence; the memo stays correct and only gains keys in (0, n] |
| SubsetSum.ComputeCanSum | src/Recursion.java:39-41 | the public canSum is true exactly when a combination exists |
| SubsetSum.HowSum | src/Recursion.java:69-84 | a non-null howSum result is a combination of the numbers that adds up to the target |
| SubsetSum.HowSumNoneIffCannot | src/Recursion.java:69-84 | howSum is null exactly when canSum is false, and the empty list at target 0 |
| SubsetSum.MemoHowSum | src/Recursion.java:69-84 | the helper returns the recurrence (the first number in list order whose remainder has a combination, appended to that combination); the memo stays correct, null entries included |
| SubsetSum.ComputeHowSum | src/Recursion.java:65-67 | the public howSum is null iff no combination exists, a combination otherwise, and the empty list at 0; it is the value of the `HowSum` recurrence, which takes the first number in list order that succeeds |
| SubsetSum.BestSum | src/Recursion.java:97-115 | a non-null bestSum result is a combination adding up to the target |
| SubsetSum.BestSumSpec | src/Recursion.java:97-115 | bestSum is null iff canSum is false; otherwise it is no longer than any combination, and it is the first shortest candidate in list order (the strict `<` keeps the earlier one on a tie) |
| SubsetSum.MemoBestSum | src/Recursion.java:97-115 | the helper tries every number, keeps the shortest candidate, stores the outcome (null included) and returns the recurrence |
| SubsetSum.ComputeBestSum | src/Recursion.java:93-115 | the public bestSum is null iff no combination exists, and otherwise a combination of minimum length; of several equally short candidates it is the first in list order, as the strict `<` at line 108 keeps it; it is the value of the `BestSum` recurrence |
| Construct.IndexOf | src/Recursion.java:125 | `indexOf` returns the least position at which the word occurs, or -1 when it does not occur |
| Construct.IndexOfZeroIffPrefix | src/Recursion.java:125 | the test `target.indexOf(word) == 0` holds exactly when the word is a prefix of the target |
| Construct.CanConstructIffDecomposition | src/Recursion.java:121-135 | canConstruct holds exactly when the target is a concatenation of bank words, each usable repeatedly; always for the empty target |
| Construct.MemoCanConstruct | src/Recursion.java:121-135 | the helper returns the recurrence and keeps the memo correct |
| Construct.ComputeCanConstruct | src/Recursion.java:117-119 | the public canConstruct is true exactly when a decomposition exists, and equals the `CanConstruct` recurrence |
| Construct.MemoCountConstruct | src/Recursion.java:148-160 | the helper returns the recurrence count wrapped to `int`, adding the count of the rest for every bank entry that is a prefix |
| Construct.ComputeCountConstruct | src/Recursion.java:144-146 | the public countConstruct is the `int`-wrapped number of bank-position sequences that spell the target, 1 for the empty target; below 2^31 it is exact and positive exactly when canConstruct holds; it is the `int`-wrapped `CountConstruct` recurrence |
| Construct.CanConstructIffCountPositive | src/Recursion.java:148-160 | the exact count is positive exactly when canConstruct holds |
| Construct.CountIsNumberOfIndexedDecompositions | src/Recursion.java:148-160 | the count equals the length of a repetition-free list that holds exactly the bank-position sequences spelling the target, so equal words at two bank positions count twice |
| Construct.AllConstruct | src/Recursion.java:173-188 | every entry allConstruct lists is a decomposition of the target into bank words |
| Construct.MemoAllConstruct | src/Recursion.java:173-188 | the helper copies each result for the rest, puts the word in front and appends in bank order, returning the recurrence; the memo stays correct |
| Construct.AllConstructExact | src/Recursion.java:173-188 | a word sequence is listed exactly when it is a decomposition of the target |
| Construct.AllLengthIsCount | src/Recursion.java:173-188 | allConstruct lists exactly as many entries as countConstruct counts |
| Construct.ComputeAllConstruct | src/Recursion.java:169-171 | the public allConstruct lists exactly the decompositions, as many as countConstruct counts, `[[]]` for the empty target and none when canConstruct is false; it is the `AllConstruct` recurrence, so the order is the bank order at each step |
| Graphs.PreorderShape | src/Graph.java:47-52 | the pre-order from x starts with x and holds only keys; every later node is a neighbour of an earlier one; a node with neighbours is followed by its first neighbour; it ends at a node without neighbours |
| Graphs.PreorderCountsPaths | src/Graph.java:47-52 | without a visited set, the pre-order emits each node as often as there are paths to it from the start |
| Graphs.PreorderIsReachable | src/Graph.java:47-52 | the pre-order emits exactly the nodes reachable from the start by a path |
| Graphs.MirrorPreorderMultiset | src/Graph.java:33-38 | reversing every neighbour list changes the order of the pre-order but not which nodes it emits or how often |
| Graphs.MirrorShape | src/Graph.java:30-40 | the mirrored pre-order, read in the original graph, starts with the start node, grows along edges, and follows a node with neighbours by its last-listed neighbour |
| Graphs.StackStep | src/Graph.java:33-38 | popping the top of the stack and pushing its neighbours in list order emits the top node; what remains to emit is the mirrored pre-order of the new stack, top first, one node shorter |
| Graphs.QueueStep | src/Graph.java:68-74 | taking the front of the queue and appending its neighbours leaves one node less to emit |
| Graphs.QueueOrderIsLevelOrder | src/Graph.java:60-75 | the first-in-first-out loop emits the level order: the queue, then the next level, and so on |
| Graphs.LevelOrderShape | src/Graph.java:60-75 | the level order from a node starts with the node followed by its neighbours in list order, holds only keys, and grows along edges |
| Graphs.LevelOrderMultiset | src/Graph.java:60-75 | the level order emits the same nodes, equally often, as the pre-order |
| Traversals.DepthFirstPrint | src/Graph.java:30-40 | the stack traversal prints the mirrored pre-order: it starts with the start node, grows along edges, follows a node with neighbours by its last neighbour, and prints each node once per path to it |
| Traversals.RecursiveDepthFirstPrint | src/Graph.java:47-52 | the recursive traversal prints the pre-order: the node, then the traversal from each neighbour in list order; a node with neighbours is followed by its first neighbour; each node appears once per path |
| Traversals.BreadthFirstPrint | src/Graph.java:60-75 | the queue traversal, unrolled first round included, prints the level order; it starts with the start node and its neighbours in list order, grows along edges, and prints each node once per path |
| Traversals.DepthFirstFacts | src/Graph.java:30-40 | the mirrored pre-order grows along edges, puts the last neighbour next, and counts paths |
| Traversals.BreadthFirstFacts | src/Graph.java:60-75 | the queue order is the level order, which starts with the node and its neighbours and counts paths |
| Traversals.SameNodesEachWay | src/Graph.java:30-75 | all three traversals emit the same nodes equally often, and those are exactly the nodes reachable from the start |
| Example.ExampleGraph | src/Graph.java:16-23 | the example graph has the keys a to f |
| Example.ExampleSound | src/Graph.java:10-23 | the example is acyclic and closed from a, so every traversal from a terminates |
| Example.ExamplePreorder | src/Graph.java:16-23 | the pre-order from a is a c e b d f |
| Example.ExampleMirrorPreorder | src/Graph.java:16-23 | the mirrored pre-order from a is a b d f c e |
| Example.ExampleLevelOrder | src/Graph.java:16-23 | the level order from a is a c b e d f |
| Example.ExampleTraversals | src/Graph.java:16-23 | on the example from a, depthFirstPrint prints a b d f c e, recursiveDepthFirstPrint a c e b d f, breadthFirstPrint a c b e d f |
| RecursionExamples.CanSumExamples | src/Recursion.java:43-56 | 7 is a sum of 2s and 3s, and not of 5s and 4s |
| RecursionExamples.BestSumEightHasTwo | src/Recursion.java:97-115 | the shortest combination of 1, 4 and 5 for 8 has two elements |
| RecursionExamples.BestSumFiveTie | src/Recursion.java:102-112 | for 5 over [2, 3] the candidates [3, 2] (from 2) and [2, 3] (from 3) tie, and the strict `<` keeps the first, [3, 2] |
| RecursionExamples.AbcdefConstructible | src/Recursion.java:121-135 | "abcdef" is constructible from ab, abc, cd, def, abcd |
| RecursionExamples.FibExample | src/Recursion.java:17-19 | fib(10) computed with the memo is 89 |
| RecursionExamples.CanSumExample | src/Recursion.java:43-56 | the memoized canSum gives true for 7 over [2, 3] and false over [5, 4] |
| RecursionExamples.BestSumExample | src/Recursion.java:97-115 | the memoized bestSum for 8 over [1, 4, 5] is a two-element combination |
| RecursionExamples.BestSumTieExample | src/Recursion.java:93-115 | the public bestSum for 5 over [2, 3] returns [3, 2], the first of the two shortest candidates |
| RecursionExamples.HowSumSevenOverTwoThree | src/Recursion.java:69-84 | howSum(7, [2, 3]) tries 2 first at every level, fails at 1, and so returns [3, 2, 2] |
| RecursionExamples.HowSumExample | src/Recursion.java:65-84 | the public howSum returns [3, 2, 2] for 7 over [2, 3] and null for 7 over [5, 4] |
| ConstructExamples.SkateCountSkateboard | src/Recursion.java:148-160 | "skateboard" over bo, rd, ate, t, ska, sk, boar has count 0: "ska" leads to "teboard" and "sk" to "ateboard", and both end in dead ends |
| ConstructExamples.SkateboardNotConstructible | src/Recursion.java:121-135 | canConstruct("skateboard", ...) is false, and no sequence of bank words spells it |
| ConstructExamples.SkateboardExample | src/Recursion.java:117-135 | the public canConstruct returns false for "skateboard" |
| ConstructExamples.PurpleCountPurple | src/Recursion.java:148-160 | "purple" over purp, p, ur, le, purpl has count 2 ("purp" gives 1, "p" gives 1, "purpl" gives 0) |
| ConstructExamples.PurpleAllPurple | src/Recursion.java:173-187 | allConstruct("purple", ...) is exactly [[purp, le], [p, ur, p, le]], in that order |
| ConstructExamples.PurpleCountExample | src/Recursion.java:144-160 | the public countConstruct returns 2 for "purple" |
| ConstructExamples.PurpleAllExample | src/Recursion.java:169-187 | the public allConstruct returns [[purp, le], [p, ur, p, le]] for "purple" |

## Left out

- Console output. Each traversal returns the nodes it prints, in order. The `"%s "` formatting is not modelled.
- Traversals.DepthFirstPrint: requires `Graphs.Sound`, like the other two traversals. A node reachable from the start that is not a key makes `graph.get` return null, and the Java loop then throws after printing a prefix. A reachable cycle makes all three traversals run forever, or overflow the stack. Neither partial behaviour is modelled.
- Traversals.RecursiveDepthFirstPrint: requires `Graphs.Sound`, for the reasons given for `DepthFirstPrint`.
- Traversals.BreadthFirstPrint: requires `Graphs.Sound`, for the reasons given for `DepthFirstPrint`.
- Null nodes are left out. Java's `ArrayDeque` rejects them, and the model's node type has no null.
- SubsetSum.MemoCanSum: requires every number to be positive. The same holds for `MemoHowSum`, `MemoBestSum` and their public entry points. With a zero or negative number the Java recursion can revisit a target before it is memoized and never return. Some such inputs still terminate in Java, e.g. `canSum(3, [3, 0])`. Those inputs are not covered.
- Construct.MemoCanConstruct: requires every bank word to be non-empty. The same holds for the count and list solvers and their entry points. For a non-empty target, an empty word passes `indexOf("") == 0` and `substring(0)` hands back the same, not yet memoized, target, so Java recurses until the stack overflows: `countConstruct` and `allConstruct` try every word and always reach it, and `canConstruct` reaches it unless an earlier word already succeeded. Java does terminate on some such inputs, and those inputs are not covered. With any bank, the empty target gives true, 1 and `[[]]` (lines 123, 150 and 175 of `src/Recursion.java`). `canConstruct("ab", ["ab", ""])` returns true at line 127 before the loop reaches `""`.
- Subset-sum targets are unbounded integers. Under the positivity requirement, `n - i` cannot overflow for any `int` target, so nothing is lost.
- The `howSum` aliasing is not modelled. Java appends to the list returned by the recursive call and also stores a copy in the memo. A non-null entry is stored only just before every frame returns straight up the call chain, so no later call reads it. The functional append therefore behaves the same.
- Running time and call counts are not modelled.
- Recursion depth is not modelled. Java throws `StackOverflowError` on deep inputs such as `fib(100000)` or `canSum(100000, [1])`, where the model returns a value.
- Unicode is not modelled. Strings are sequences of `char`, with each UTF-16 code unit of a Java string read as a distinct `char`. Dafny's `char` has no surrogate values, but the solvers only compare characters, so any one-to-one encoding gives the same results.
- The traversals keep no visited set and match no target. Connected components, shortest path, path existence and adjacency-map construction are not in these two source files, so they are not part of this model.

/** The three traversals of Graph.java. Each prints every node it takes off its stack or queue;
    the model returns the printed nodes, in order, as `out`. None keeps a visited set. */
module Traversals {
  import opened Graphs

  /** Depth-first with an explicit stack: pop the last node pushed, emit it, push its neighbours in
      list order. Siblings therefore come out last-listed first: the order is the pre-order of the
      mirrored graph. */
  method DepthFirstPrint<T>(g: Graph<T>, ghost rank: T -> nat, start: T) returns (out: seq<T>)
    requires Sound(g, rank, start)
    ensures Sound(Mirror(g), rank, start) && out == Preorder(Mirror(g), rank, start)
    ensures Grows(g, start, out)
    ensures LastChildNext(g, out)
    ensures forall y :: multiset(out)[y] == PathCount(g, rank, start, y)
  {
    StackStart(g, rank, start);
    var stack := [start];
    out := [];
    while stack != []
      invariant AllSound(g, rank, stack)
      invariant out + StackOrder(g, rank, stack) == Preorder(Mirror(g), rank, start)
      decreases |StackOrder(g, rank, stack)|
    {
      StackStep(g, rank, stack);
      var current := stack[|stack| - 1];
      stack := PushAll(stack[..|stack| - 1], g[current]);
      out := out + [current];
    }
    DepthFirstFacts(g, rank, start);
  }

  /** Appends xs to s one element at a time, as the loops of `Graph.depthFirstPrint` and `Graph.breadthFirstPrint` do. */
  method PushAll<T>(s: seq<T>, xs: seq<T>) returns (r: seq<T>)
    ensures r == s + xs
  {
    r := s;
    var i := 0;
    while i < |xs|
      invariant 0 <= i <= |xs|
      invariant r == s + xs[..i]
    {
      r := r + [xs[i]];
      i := i + 1;
    }
    assert xs[..i] == xs;
  }

  lemma DepthFirstFacts<T>(g: Graph<T>, rank: T -> nat, start: T)
    requires Sound(g, rank, start)
    ensures Sound(Mirror(g), rank, start)
    ensures Grows(g, start, Preorder(Mirror(g), rank, start))
    ensures LastChildNext(g, Preorder(Mirror(g), rank, start))
    ensures forall y :: multiset(Preorder(Mirror(g), rank, start))[y] == PathCount(g, rank, start, y)
  {
    MirrorShape(g, rank, start);
    forall y
      ensures multiset(Preorder(Mirror(g), rank, start))[y] == PathCount(g, rank, start, y)
    {
      PreorderCountsPaths(g, rank, start, y);
    }
  }

  /** Depth-first on the call stack: emit the node, then traverse from each neighbour in list
      order. */
  method RecursiveDepthFirstPrint<T>(g: Graph<T>, ghost rank: T -> nat, current: T) returns (out: seq<T>)
    requires Sound(g, rank, current)
    ensures out == Preorder(g, rank, current)
    ensures Grows(g, current, out)
    ensures FirstChildNext(g, out)
    ensures forall y :: multiset(out)[y] == PathCount(g, rank, current, y)
    decreases rank(current)
  {
    out := [current];
    var neighbours := g[current];
    BoundBelow(rank, neighbours, rank(current));
    var i := 0;
    while i < |neighbours|
      invariant 0 <= i <= |neighbours|
      invariant out == [current] + Forest(g, rank, neighbours[..i])
    {
      var sub := RecursiveDepthFirstPrint(g, rank, neighbours[i]);
      assert neighbours[..i + 1][..i] == neighbours[..i];
      out := out + sub;
      i := i + 1;
    }
    assert neighbours[..i] == neighbours;
    PreorderShape(g, rank, current);
    forall y
      ensures multiset(out)[y] == PathCount(g, rank, current, y)
    {
      PreorderCountsPaths(g, rank, current, y);
    }
  }

  /** Breadth-first with a queue: take the front node, emit it, append its neighbours in list order.
      The first round is written out before the loop in `Graph.breadthFirstPrint`; it is the same as one round
      of the loop. */
  method BreadthFirstPrint<T>(g: Graph<T>, ghost rank: T -> nat, start: T) returns (out: seq<T>)
    requires Sound(g, rank, start)
    ensures AllSound(g, rank, [start]) && out == LevelOrder(g, rank, [start])
    ensures Grows(g, start, out)
    ensures |out| > |g[start]| && out[..|g[start]| + 1] == [start] + g[start]
    ensures forall y :: multiset(out)[y] == PathCount(g, rank, start, y)
  {
    ForestSingleton(g, rank, start);
    QueueStep(g, rank, [start]);
    var queue := [start];
    var current := queue[0];
    queue := PushAll(queue[1..], g[current]);
    out := [current];
    while queue != []
      invariant AllSound(g, rank, queue)
      invariant out + QueueOrder(g, rank, queue) == QueueOrder(g, rank, [start])
      decreases Pending(g, rank, queue)
    {
      QueueStep(g, rank, queue);
      current := queue[0];
      ghost var before := queue;
      queue := PushAll(queue[1..], g[current]);
      out := out + [current];
      assert QueueOrder(g, rank, before) == [current] + QueueOrder(g, rank, queue);
    }
    BreadthFirstFacts(g, rank, start);
  }

  lemma BreadthFirstFacts<T>(g: Graph<T>, rank: T -> nat, start: T)
    requires Sound(g, rank, start)
    ensures AllSound(g, rank, [start]) && QueueOrder(g, rank, [start]) == LevelOrder(g, rank, [start])
    ensures Grows(g, start, LevelOrder(g, rank, [start]))
    ensures |LevelOrder(g, rank, [start])| > |g[start]|
    ensures LevelOrder(g, rank, [start])[..|g[start]| + 1] == [start] + g[start]
    ensures forall y :: multiset(LevelOrder(g, rank, [start]))[y] == PathCount(g, rank, start, y)
  {
    ForestSingleton(g, rank, start);
    QueueOrderIsLevelOrder(g, rank, [start]);
    LevelOrderShape(g, rank, start);
    LevelOrderMultiset(g, rank, [start]);
    forall y
      ensures multiset(LevelOrder(g, rank, [start]))[y] == PathCount(g, rank, start, y)
    {
      PreorderCountsPaths(g, rank, start, y);
    }
  }

  /** All three traversals emit the same nodes, each equally often, and those are exactly the nodes
      reachable from the start. */
  lemma SameNodesEachWay<T>(g: Graph<T>, rank: T -> nat, start: T)
    requires Sound(g, rank, start)
    ensures Sound(Mirror(g), rank, start) && AllSound(g, rank, [start])
    ensures multiset(Preorder(Mirror(g), rank, start)) == multiset(Preorder(g, rank, start))
    ensures multiset(LevelOrder(g, rank, [start])) == multiset(Preorder(g, rank, start))
    ensures forall y :: y in Preorder(g, rank, start) <==> exists p :: IsPath(g, p) && p[0] == start && p[|p| - 1] == y
  {
    MirrorPreorderMultiset(g, rank, start);
    ForestSingleton(g, rank, start);
    LevelOrderMultiset(g, rank, [start]);
    forall y
      ensures y in Preorder(g, rank, start) <==> exists p :: IsPath(g, p) && p[0] == start && p[|p| - 1] == y
    {
      PreorderIsReachable(g, rank, start, y);
    }
  }
}

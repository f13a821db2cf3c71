/** The six-node example graph of Graph.java and the orders its three traversals print on it.
    Node a lists c and then b, b lists d, c lists e, d lists f, and e and f list nothing. */
module Example {
  import opened Graphs
  import Traversals

  function ExampleGraph(): (g: Graph<string>)
    ensures g.Keys == {"a", "b", "c", "d", "e", "f"}
  {
    map["a" := ["c", "b"], "b" := ["d"], "c" := ["e"], "d" := ["f"], "e" := [], "f" := []]
  }

  /** The length of the longest path down from each node. */
  function ExampleRank(x: string): nat
  {
    if x == "a" then 3 else if x == "b" then 2 else if x == "c" || x == "d" then 1 else 0
  }

  /** The shape of the example over any six nodes: a lists c then b, b lists d, c lists e, d
      lists f, and e and f list nothing. */
  ghost predicate SixShape<T>(g: Graph<T>, a: T, b: T, c: T, d: T, e: T, f: T)
  {
    && a in g && b in g && c in g && d in g && e in g && f in g
    && g[a] == [c, b] && g[b] == [d] && g[c] == [e] && g[d] == [f] && g[e] == [] && g[f] == []
  }

  lemma SixSound<T>(g: Graph<T>, rank: T -> nat, a: T, b: T, c: T, d: T, e: T, f: T)
    requires SixShape(g, a, b, c, d, e, f)
    requires rank(a) > rank(c) > rank(e) && rank(a) > rank(b) > rank(d) > rank(f)
    ensures Sound(g, rank, a)
  {
    assert Sound(g, rank, e) && Sound(g, rank, f);
    assert Sound(g, rank, c) && Sound(g, rank, d);
    assert Sound(g, rank, b);
  }

  lemma SixPreorder<T>(g: Graph<T>, rank: T -> nat, a: T, b: T, c: T, d: T, e: T, f: T)
    requires SixShape(g, a, b, c, d, e, f) && Sound(g, rank, a)
    ensures Preorder(g, rank, a) == [a, c, e, b, d, f]
  {
    PreorderTwo(g, rank, a);
    PreorderOne(g, rank, b);
    PreorderOne(g, rank, c);
    PreorderOne(g, rank, d);
    PreorderLeaf(g, rank, e);
    PreorderLeaf(g, rank, f);
  }

  lemma SixMirrorPreorder<T>(g: Graph<T>, rank: T -> nat, a: T, b: T, c: T, d: T, e: T, f: T)
    requires SixShape(g, a, b, c, d, e, f) && Sound(g, rank, a)
    ensures Sound(Mirror(g), rank, a)
    ensures Preorder(Mirror(g), rank, a) == [a, b, d, f, c, e]
  {
    MirrorSound(g, rank, a);
    var m := Mirror(g);
    assert m[a] == [b, c] by {
      assert m[a] == Reverse(g[a]);
    }
    assert m[b] == [d] && m[c] == [e] && m[d] == [f] && m[e] == [] && m[f] == [] by {
      assert m[b] == Reverse(g[b]) && m[c] == Reverse(g[c]) && m[d] == Reverse(g[d]);
      assert m[e] == Reverse(g[e]) && m[f] == Reverse(g[f]);
    }
    PreorderTwo(m, rank, a);
    PreorderOne(m, rank, b);
    PreorderOne(m, rank, c);
    PreorderOne(m, rank, d);
    PreorderLeaf(m, rank, e);
    PreorderLeaf(m, rank, f);
  }

  lemma SixLevels<T>(g: Graph<T>, a: T, b: T, c: T, d: T, e: T, f: T)
    requires SixShape(g, a, b, c, d, e, f)
    ensures Children(g, [a]) == [c, b] && Children(g, [c, b]) == [e, d]
    ensures Children(g, [e, d]) == [f] && Children(g, [f]) == []
  {
    assert [a][1..] == [] && [f][1..] == [];
    assert [c, b][1..] == [b] && [b][1..] == [];
    assert [e, d][1..] == [d] && [d][1..] == [];
  }

  lemma SixLevelOrder<T>(g: Graph<T>, rank: T -> nat, a: T, b: T, c: T, d: T, e: T, f: T)
    requires SixShape(g, a, b, c, d, e, f) && Sound(g, rank, a)
    ensures AllSound(g, rank, [a])
    ensures LevelOrder(g, rank, [a]) == [a, c, b, e, d, f]
  {
    assert AllSound(g, rank, [a]);
    SixLevels(g, a, b, c, d, e, f);
    LevelOrderStep(g, rank, [a], [c, b]);
    LevelOrderStep(g, rank, [c, b], [e, d]);
    LevelOrderStep(g, rank, [e, d], [f]);
    LevelOrderLast(g, rank, [f]);
  }

  lemma ExampleShape()
    ensures SixShape(ExampleGraph(), "a", "b", "c", "d", "e", "f")
  {
  }

  lemma ExampleSound()
    ensures Sound(ExampleGraph(), ExampleRank, "a")
  {
    ExampleShape();
    SixSound(ExampleGraph(), ExampleRank, "a", "b", "c", "d", "e", "f");
  }

  lemma ExamplePreorder()
    ensures Sound(ExampleGraph(), ExampleRank, "a")
    ensures Preorder(ExampleGraph(), ExampleRank, "a") == ["a", "c", "e", "b", "d", "f"]
  {
    ExampleShape();
    ExampleSound();
    SixPreorder(ExampleGraph(), ExampleRank, "a", "b", "c", "d", "e", "f");
  }

  lemma ExampleMirrorPreorder()
    ensures Sound(Mirror(ExampleGraph()), ExampleRank, "a")
    ensures Preorder(Mirror(ExampleGraph()), ExampleRank, "a") == ["a", "b", "d", "f", "c", "e"]
  {
    ExampleShape();
    ExampleSound();
    SixMirrorPreorder(ExampleGraph(), ExampleRank, "a", "b", "c", "d", "e", "f");
  }

  lemma ExampleLevelOrder()
    ensures AllSound(ExampleGraph(), ExampleRank, ["a"])
    ensures LevelOrder(ExampleGraph(), ExampleRank, ["a"]) == ["a", "c", "b", "e", "d", "f"]
  {
    ExampleShape();
    ExampleSound();
    SixLevelOrder(ExampleGraph(), ExampleRank, "a", "b", "c", "d", "e", "f");
  }

  /** The orders the three traversals print on the example graph, started at "a". */
  method ExampleTraversals() returns (dfs: seq<string>, rdfs: seq<string>, bfs: seq<string>)
    ensures dfs == ["a", "b", "d", "f", "c", "e"]
    ensures rdfs == ["a", "c", "e", "b", "d", "f"]
    ensures bfs == ["a", "c", "b", "e", "d", "f"]
  {
    ExampleSound();
    ExampleMirrorPreorder();
    ExamplePreorder();
    ExampleLevelOrder();
    dfs := Traversals.DepthFirstPrint(ExampleGraph(), ExampleRank, "a");
    rdfs := Traversals.RecursiveDepthFirstPrint(ExampleGraph(), ExampleRank, "a");
    bfs := Traversals.BreadthFirstPrint(ExampleGraph(), ExampleRank, "a");
  }
}

/** The adjacency-map graph of Graph.java and the orders in which its traversals visit nodes.
    None of the traversals keeps a visited set, so each one unfolds the graph into the tree of
    paths from the start node; that is finite only when no cycle is reachable, which `Sound`
    demands through a rank that strictly decreases along every reachable edge. */
module Graphs {

  /** Each node is a key; its value lists the nodes its edges lead to, in order. */
  type Graph<T> = map<T, seq<T>>

  /** Every node reachable from x is a key of g (the traversals of `Graph` fail with a null lookup otherwise),
      and rank strictly decreases along every edge reachable from x (so no cycle is reachable). */
  ghost predicate Sound<T>(g: Graph<T>, rank: T -> nat, x: T)
    decreases rank(x)
  {
    x in g && forall i :: 0 <= i < |g[x]| ==> rank(g[x][i]) < rank(x) && Sound(g, rank, g[x][i])
  }

  ghost predicate AllSound<T>(g: Graph<T>, rank: T -> nat, xs: seq<T>)
  {
    forall i :: 0 <= i < |xs| ==> Sound(g, rank, xs[i])
  }

  function Max(a: int, b: int): int
  {
    if a < b then b else a
  }

  /** One more than the largest rank in xs, and 0 for no nodes: a termination measure. */
  ghost function Bound<T>(rank: T -> nat, xs: seq<T>): nat
  {
    if xs == [] then 0 else Max(Bound(rank, xs[..|xs| - 1]), rank(xs[|xs| - 1]) + 1)
  }

  lemma {:induction false} BoundBelow<T>(rank: T -> nat, xs: seq<T>, b: nat)
    requires forall i :: 0 <= i < |xs| ==> rank(xs[i]) < b
    ensures Bound(rank, xs) <= b
  {
    if xs != [] {
      BoundBelow(rank, xs[..|xs| - 1], b);
    }
  }

  // ---------------------------------------------------------------- pre-order

  /** The recursive depth-first order: the node itself, then the whole traversal from each of its
      neighbours in list order. */
  ghost function Preorder<T>(g: Graph<T>, rank: T -> nat, x: T): seq<T>
    requires Sound(g, rank, x)
    decreases rank(x) + 1, 0
  {
    BoundBelow(rank, g[x], rank(x));
    [x] + Forest(g, rank, g[x])
  }

  /** The pre-orders of the nodes xs, one after the other. */
  ghost function Forest<T>(g: Graph<T>, rank: T -> nat, xs: seq<T>): seq<T>
    requires AllSound(g, rank, xs)
    decreases Bound(rank, xs), |xs| + 1
  {
    if xs == [] then [] else Forest(g, rank, xs[..|xs| - 1]) + Preorder(g, rank, xs[|xs| - 1])
  }

  lemma {:induction false} ForestAppend<T>(g: Graph<T>, rank: T -> nat, a: seq<T>, b: seq<T>)
    requires AllSound(g, rank, a) && AllSound(g, rank, b)
    ensures AllSound(g, rank, a + b)
    ensures Forest(g, rank, a + b) == Forest(g, rank, a) + Forest(g, rank, b)
    decreases |b|
  {
    if b != [] {
      var b' := b[..|b| - 1];
      assert (a + b)[..|a + b| - 1] == a + b';
      ForestAppend(g, rank, a, b');
    } else {
      assert a + b == a;
    }
  }

  lemma ForestCons<T>(g: Graph<T>, rank: T -> nat, x: T, xs: seq<T>)
    requires Sound(g, rank, x) && AllSound(g, rank, xs)
    ensures AllSound(g, rank, [x] + xs)
    ensures Forest(g, rank, [x] + xs) == Preorder(g, rank, x) + Forest(g, rank, xs)
  {
    ForestAppend(g, rank, [x], xs);
    assert [x][..0] == [];
  }

  /** Neighbour relation in the graph: v is listed among the neighbours of u. */
  ghost predicate Edge<T>(g: Graph<T>, u: T, v: T)
  {
    u in g && v in g[u]
  }

  ghost predicate AllKeys<T>(g: Graph<T>, s: seq<T>)
  {
    forall k :: 0 <= k < |s| ==> s[k] in g
  }

  /** The k-th node of s is a neighbour of a node before it in s. */
  ghost predicate HasParent<T>(g: Graph<T>, s: seq<T>, k: int)
  {
    0 <= k < |s| && exists j :: 0 <= j < k && Edge(g, s[j], s[k])
  }

  /** The shape every traversal output shares: it starts with the start node, only keys occur in
      it, and every later node is a neighbour of some node emitted before it. */
  ghost predicate Grows<T>(g: Graph<T>, start: T, out: seq<T>)
  {
    && |out| > 0
    && out[0] == start
    && AllKeys(g, out)
    && (forall k :: 0 < k < |out| ==> HasParent(g, out, k))
  }

  /** Every node of s is a key and a neighbour of x or of a node before it in s. */
  ghost predicate Hangs<T>(g: Graph<T>, x: T, s: seq<T>)
  {
    AllKeys(g, s) && forall k :: 0 <= k < |s| ==> Edge(g, x, s[k]) || HasParent(g, s, k)
  }

  /** Depth-first order: a node with neighbours is followed by its first neighbour. */
  ghost predicate FirstChildNext<T>(g: Graph<T>, s: seq<T>)
  {
    forall k :: 0 <= k < |s| - 1 && s[k] in g && g[s[k]] != [] ==> s[k + 1] == g[s[k]][0]
  }

  /** The last node of s is a key without neighbours. */
  ghost predicate EndsAtLeaf<T>(g: Graph<T>, s: seq<T>)
  {
    |s| > 0 && s[|s| - 1] in g && g[s[|s| - 1]] == []
  }

  lemma HasParentShift<T>(g: Graph<T>, a: seq<T>, b: seq<T>, k: int)
    requires HasParent(g, b, k)
    ensures HasParent(g, a + b, |a| + k)
  {
    var j :| 0 <= j < k && Edge(g, b[j], b[k]);
    assert (a + b)[|a| + j] == b[j] && (a + b)[|a| + k] == b[k];
  }

  lemma HasParentPrefix<T>(g: Graph<T>, a: seq<T>, b: seq<T>, k: int)
    requires HasParent(g, a, k)
    ensures HasParent(g, a + b, k)
  {
    var j :| 0 <= j < k && Edge(g, a[j], a[k]);
    assert (a + b)[j] == a[j] && (a + b)[k] == a[k];
  }

  lemma ConcatHangs<T>(g: Graph<T>, x: T, a: seq<T>, y: T, p: seq<T>)
    requires Hangs(g, x, a) && Grows(g, y, p) && Edge(g, x, y)
    ensures Hangs(g, x, a + p)
  {
    var s := a + p;
    forall k | 0 <= k < |s|
      ensures s[k] in g && (Edge(g, x, s[k]) || HasParent(g, s, k))
    {
      if k < |a| {
        assert s[k] == a[k];
        if !Edge(g, x, s[k]) {
          HasParentPrefix(g, a, p, k);
        }
      } else {
        assert s[k] == p[k - |a|];
        if k > |a| {
          HasParentShift(g, a, p, k - |a|);
        }
      }
    }
  }

  lemma ConcatFirstChild<T>(g: Graph<T>, a: seq<T>, p: seq<T>)
    requires FirstChildNext(g, a) && FirstChildNext(g, p)
    requires a != [] ==> EndsAtLeaf(g, a)
    ensures FirstChildNext(g, a + p)
  {
    var s := a + p;
    forall k | 0 <= k < |s| - 1 && s[k] in g && g[s[k]] != []
      ensures s[k + 1] == g[s[k]][0]
    {
      if k < |a| - 1 {
        assert s[k] == a[k] && s[k + 1] == a[k + 1];
      } else if k >= |a| {
        assert s[k] == p[k - |a|] && s[k + 1] == p[k + 1 - |a|];
      }
    }
  }

  lemma ConsGrows<T>(g: Graph<T>, x: T, f: seq<T>)
    requires x in g && Hangs(g, x, f)
    ensures Grows(g, x, [x] + f)
  {
    var s := [x] + f;
    forall k | 0 < k < |s|
      ensures HasParent(g, s, k)
    {
      assert s[k] == f[k - 1];
      if Edge(g, x, f[k - 1]) {
        assert s[0] == x;
      } else {
        HasParentShift(g, [x], f, k - 1);
      }
    }
  }

  lemma ConsFirstChild<T>(g: Graph<T>, x: T, f: seq<T>)
    requires x in g && FirstChildNext(g, f)
    requires g[x] != [] ==> |f| > 0 && f[0] == g[x][0]
    ensures FirstChildNext(g, [x] + f)
  {
    var s := [x] + f;
    forall k | 0 <= k < |s| - 1 && s[k] in g && g[s[k]] != []
      ensures s[k + 1] == g[s[k]][0]
    {
      if k > 0 {
        assert s[k] == f[k - 1] && s[k + 1] == f[k];
      }
    }
  }

  /** The pre-order of x starts with x, only holds keys, reaches every later node through an edge
      from an earlier one, follows a node with neighbours by its first neighbour, and ends at a
      node without neighbours. */
  lemma {:induction false} PreorderShape<T>(g: Graph<T>, rank: T -> nat, x: T)
    requires Sound(g, rank, x)
    ensures Grows(g, x, Preorder(g, rank, x))
    ensures FirstChildNext(g, Preorder(g, rank, x))
    ensures EndsAtLeaf(g, Preorder(g, rank, x))
    decreases rank(x) + 1, 0
  {
    BoundBelow(rank, g[x], rank(x));
    ForestShape(g, rank, x, g[x]);
    var f := Forest(g, rank, g[x]);
    ConsGrows(g, x, f);
    ConsFirstChild(g, x, f);
    if g[x] == [] {
      assert f == [];
    } else {
      assert ([x] + f)[|f|] == f[|f| - 1];
    }
  }

  /** Appending the pre-order of a further neighbour y of x keeps the forest shape. */
  lemma ConcatShape<T>(g: Graph<T>, x: T, a: seq<T>, y: T, p: seq<T>)
    requires Hangs(g, x, a) && FirstChildNext(g, a) && (a != [] ==> EndsAtLeaf(g, a))
    requires Grows(g, y, p) && FirstChildNext(g, p) && EndsAtLeaf(g, p) && Edge(g, x, y)
    ensures Hangs(g, x, a + p) && FirstChildNext(g, a + p) && EndsAtLeaf(g, a + p)
    ensures (a + p)[0] == if a == [] then y else a[0]
  {
    ConcatHangs(g, x, a, y, p);
    ConcatFirstChild(g, a, p);
    assert (a + p)[|a + p| - 1] == p[|p| - 1];
    if a == [] {
      assert a + p == p;
    }
  }

  /** The forest of some neighbours xs of x has the same shape, every node hanging off x or off an
      earlier node, and starts with the first of xs. */
  lemma {:induction false} ForestShape<T>(g: Graph<T>, rank: T -> nat, x: T, xs: seq<T>)
    requires AllSound(g, rank, xs) && x in g
    requires forall i :: 0 <= i < |xs| ==> xs[i] in g[x]
    ensures Hangs(g, x, Forest(g, rank, xs))
    ensures FirstChildNext(g, Forest(g, rank, xs))
    ensures xs == [] ==> Forest(g, rank, xs) == []
    ensures xs != [] ==> EndsAtLeaf(g, Forest(g, rank, xs)) && Forest(g, rank, xs)[0] == xs[0]
    decreases Bound(rank, xs), |xs| + 1
  {
    if xs != [] {
      var xs', y := xs[..|xs| - 1], xs[|xs| - 1];
      assert AllSound(g, rank, xs') && forall i :: 0 <= i < |xs'| ==> xs'[i] == xs[i];
      ForestShape(g, rank, x, xs');
      PreorderShape(g, rank, y);
      var a, p := Forest(g, rank, xs'), Preorder(g, rank, y);
      assert Forest(g, rank, xs) == a + p;
      ConcatShape(g, x, a, y, p);
      if xs' != [] {
        assert xs[0] == xs'[0];
      }
    }
  }

  // ---------------------------------------------------------------- mirrored graph

  function Reverse<T>(s: seq<T>): (r: seq<T>)
    ensures |r| == |s|
    ensures forall i :: 0 <= i < |s| ==> r[i] == s[|s| - 1 - i]
  {
    if s == [] then [] else [s[|s| - 1]] + Reverse(s[..|s| - 1])
  }

  lemma ReverseAppend<T>(a: seq<T>, b: seq<T>)
    ensures Reverse(a + b) == Reverse(b) + Reverse(a)
  {
  }

  lemma ReverseMultiset<T>(s: seq<T>)
    ensures multiset(Reverse(s)) == multiset(s)
  {
    if s != [] {
      var init, last := s[..|s| - 1], s[|s| - 1];
      ReverseMultiset(init);
      assert Reverse(s) == [last] + Reverse(init);
      assert s == init + [last];
      calc {
        multiset(Reverse(s));
        multiset([last]) + multiset(Reverse(init));
        multiset(init) + multiset([last]);
        multiset(s);
      }
    }
  }

  /** The graph with every neighbour list reversed: what a stack that pushes neighbours in list
      order and pops the last one pushed sees. */
  function Mirror<T>(g: Graph<T>): (m: Graph<T>)
    ensures m.Keys == g.Keys
    ensures forall x :: x in g ==> m[x] == Reverse(g[x])
  {
    map x | x in g :: Reverse(g[x])
  }

  lemma {:induction false} MirrorSound<T>(g: Graph<T>, rank: T -> nat, x: T)
    requires Sound(g, rank, x)
    ensures Sound(Mirror(g), rank, x)
    decreases rank(x)
  {
    var m := Mirror(g);
    forall i | 0 <= i < |m[x]|
      ensures rank(m[x][i]) < rank(x) && Sound(m, rank, m[x][i])
    {
      var j := |g[x]| - 1 - i;
      assert m[x][i] == g[x][j];
      MirrorSound(g, rank, g[x][j]);
    }
  }

  lemma MirrorEdge<T>(g: Graph<T>, u: T, v: T)
    ensures Edge(Mirror(g), u, v) <==> Edge(g, u, v)
  {
    if u in g {
      ReverseMultiset(g[u]);
      assert v in g[u] <==> v in multiset(g[u]);
      assert v in Reverse(g[u]) <==> v in multiset(Reverse(g[u]));
    }
  }

  /** Reversing every neighbour list does not change which nodes the pre-order emits, nor how
      often: only their order. */
  lemma {:induction false} MirrorPreorderMultiset<T>(g: Graph<T>, rank: T -> nat, x: T)
    requires Sound(g, rank, x)
    ensures Sound(Mirror(g), rank, x)
    ensures multiset(Preorder(Mirror(g), rank, x)) == multiset(Preorder(g, rank, x))
    decreases rank(x) + 1, 0
  {
    MirrorSound(g, rank, x);
    var m := Mirror(g);
    BoundBelow(rank, g[x], rank(x));
    ForestReverseMultiset(g, rank, g[x]);
  }

  lemma {:induction false} ForestReverseMultiset<T>(g: Graph<T>, rank: T -> nat, xs: seq<T>)
    requires AllSound(g, rank, xs)
    ensures AllSound(Mirror(g), rank, Reverse(xs))
    ensures multiset(Forest(Mirror(g), rank, Reverse(xs))) == multiset(Forest(g, rank, xs))
    decreases Bound(rank, xs), |xs| + 1
  {
    var m := Mirror(g);
    forall i | 0 <= i < |xs|
      ensures Sound(m, rank, xs[i])
    {
      MirrorSound(g, rank, xs[i]);
    }
    if xs != [] {
      var xs' := xs[..|xs| - 1];
      var y := xs[|xs| - 1];
      ForestReverseMultiset(g, rank, xs');
      MirrorPreorderMultiset(g, rank, y);
      assert Reverse(xs) == [y] + Reverse(xs');
      ForestCons(m, rank, y, Reverse(xs'));
    }
  }

  /** Depth-first order on a stack: a node with neighbours is followed by its last neighbour. */
  ghost predicate LastChildNext<T>(g: Graph<T>, s: seq<T>)
  {
    forall k :: 0 <= k < |s| - 1 && s[k] in g && g[s[k]] != [] ==> s[k + 1] == g[s[k]][|g[s[k]]| - 1]
  }

  /** The pre-order of the mirrored graph, read in g itself: it has the same shape, but a node
      with neighbours is followed by its last neighbour, and it emits the same nodes as often as
      the pre-order of g. */
  lemma MirrorShape<T>(g: Graph<T>, rank: T -> nat, x: T)
    requires Sound(g, rank, x)
    ensures Sound(Mirror(g), rank, x)
    ensures Grows(g, x, Preorder(Mirror(g), rank, x))
    ensures LastChildNext(g, Preorder(Mirror(g), rank, x))
    ensures multiset(Preorder(Mirror(g), rank, x)) == multiset(Preorder(g, rank, x))
  {
    MirrorPreorderMultiset(g, rank, x);
    var m := Mirror(g);
    PreorderShape(m, rank, x);
    var s := Preorder(m, rank, x);
    forall k | 0 < k < |s|
      ensures HasParent(g, s, k)
    {
      assert HasParent(m, s, k);
      var j :| 0 <= j < k && Edge(m, s[j], s[k]);
      MirrorEdge(g, s[j], s[k]);
    }
  }

  lemma MirrorSoundReverse<T>(g: Graph<T>, rank: T -> nat, s: seq<T>)
    requires AllSound(g, rank, s)
    ensures AllSound(Mirror(g), rank, Reverse(s))
  {
    var r := Reverse(s);
    forall k | 0 <= k < |r|
      ensures Sound(Mirror(g), rank, r[k])
    {
      MirrorSound(g, rank, s[|s| - 1 - k]);
    }
  }

  lemma PushSound<T>(g: Graph<T>, rank: T -> nat, s: seq<T>, c: T)
    requires AllSound(g, rank, s) && Sound(g, rank, c)
    ensures AllSound(g, rank, s + g[c])
  {
    var t := s + g[c];
    forall k | 0 <= k < |t|
      ensures Sound(g, rank, t[k])
    {
      if k < |s| {
        assert t[k] == s[k];
      } else {
        assert t[k] == g[c][k - |s|];
      }
    }
  }

  /** Emitting the first node of a forest and putting its neighbours in front of the rest. */
  lemma ForestPop<T>(h: Graph<T>, rank: T -> nat, c: T, rest: seq<T>)
    requires Sound(h, rank, c) && AllSound(h, rank, rest)
    ensures AllSound(h, rank, [c] + rest) && AllSound(h, rank, h[c] + rest)
    ensures Forest(h, rank, [c] + rest) == [c] + Forest(h, rank, h[c] + rest)
  {
    ForestCons(h, rank, c, rest);
    BoundBelow(rank, h[c], rank(c));
    ForestAppend(h, rank, h[c], rest);
  }

  /** What is left to emit from a stack whose top is its last element: the pre-orders of the
      stacked nodes in the mirrored graph, top first. */
  ghost function StackOrder<T>(g: Graph<T>, rank: T -> nat, s: seq<T>): seq<T>
    requires AllSound(g, rank, s)
  {
    MirrorSoundReverse(g, rank, s);
    Forest(Mirror(g), rank, Reverse(s))
  }

  /** Popping the top node of a stack and pushing its neighbours in list order: the top node is
      emitted, and one node less is left to emit. */
  lemma StackStep<T>(g: Graph<T>, rank: T -> nat, s: seq<T>)
    requires s != [] && AllSound(g, rank, s)
    ensures s[|s| - 1] in g && AllSound(g, rank, s[..|s| - 1] + g[s[|s| - 1]])
    ensures StackOrder(g, rank, s) == [s[|s| - 1]] + StackOrder(g, rank, s[..|s| - 1] + g[s[|s| - 1]])
  {
    var m := Mirror(g);
    var c := s[|s| - 1];
    var s' := s[..|s| - 1];
    assert Sound(g, rank, c);
    PushSound(g, rank, s', c);
    MirrorSound(g, rank, c);
    MirrorSoundReverse(g, rank, s');
    ForestPop(m, rank, c, Reverse(s'));
    assert Reverse(s) == [c] + Reverse(s');
    ReverseAppend(s', g[c]);
  }

  /** The stack loop started on one node emits the pre-order of the mirrored graph. */
  lemma StackStart<T>(g: Graph<T>, rank: T -> nat, x: T)
    requires Sound(g, rank, x)
    ensures AllSound(g, rank, [x]) && Sound(Mirror(g), rank, x)
    ensures StackOrder(g, rank, [x]) == Preorder(Mirror(g), rank, x)
  {
    assert AllSound(g, rank, [x]);
    MirrorSound(g, rank, x);
    assert Reverse([x]) == [x];
    ForestSingleton(Mirror(g), rank, x);
  }

  lemma ForestSingleton<T>(g: Graph<T>, rank: T -> nat, x: T)
    requires Sound(g, rank, x)
    ensures AllSound(g, rank, [x]) && Forest(g, rank, [x]) == Preorder(g, rank, x)
  {
    assert AllSound(g, rank, [x]);
    assert [x][..0] == [];
  }

  // ---------------------------------------------------------------- breadth-first order

  /** The neighbour lists of the nodes of q, concatenated in queue order: the next level. */
  function Children<T>(g: Graph<T>, q: seq<T>): seq<T>
    requires forall i :: 0 <= i < |q| ==> q[i] in g
  {
    if q == [] then [] else g[q[0]] + Children(g, q[1..])
  }

  /** v is a neighbour of some node of q. */
  ghost predicate ChildOf<T>(g: Graph<T>, q: seq<T>, v: T)
  {
    exists j :: 0 <= j < |q| && Edge(g, q[j], v)
  }

  /** Every node of the next level is a neighbour of some node of q. */
  lemma {:induction false} ChildrenAreNeighbours<T>(g: Graph<T>, q: seq<T>)
    requires forall i :: 0 <= i < |q| ==> q[i] in g
    ensures forall k :: 0 <= k < |Children(g, q)| ==> ChildOf(g, q, Children(g, q)[k])
    decreases |q|
  {
    if q != [] {
      ChildrenAreNeighbours(g, q[1..]);
      var c := Children(g, q);
      var c' := Children(g, q[1..]);
      assert c == g[q[0]] + c';
      forall k | 0 <= k < |c|
        ensures ChildOf(g, q, c[k])
      {
        if k < |g[q[0]]| {
          assert c[k] == g[q[0]][k];
          assert Edge(g, q[0], c[k]);
        } else {
          assert c[k] == c'[k - |g[q[0]]|];
          assert ChildOf(g, q[1..], c[k]);
          var j :| 0 <= j < |q[1..]| && Edge(g, q[1..][j], c[k]);
          assert q[1..][j] == q[j + 1];
          assert Edge(g, q[j + 1], c[k]);
        }
      }
    }
  }

  lemma {:induction false} ChildrenSound<T>(g: Graph<T>, rank: T -> nat, q: seq<T>)
    requires AllSound(g, rank, q)
    ensures AllSound(g, rank, Children(g, q))
    decreases |q|
  {
    if q != [] {
      ChildrenSound(g, rank, q[1..]);
      var c := Children(g, q);
      forall k | 0 <= k < |c|
        ensures Sound(g, rank, c[k])
      {
        if k < |g[q[0]]| {
          assert c[k] == g[q[0]][k];
        } else {
          assert c[k] == Children(g, q[1..])[k - |g[q[0]]|];
        }
      }
    }
  }

  /** The forest of a queue is the queue itself followed by the forest of the next level, up to
      order; in particular it is that much longer. */
  lemma {:induction false} ForestLevels<T>(g: Graph<T>, rank: T -> nat, q: seq<T>)
    requires AllSound(g, rank, q)
    ensures AllSound(g, rank, Children(g, q))
    ensures |Forest(g, rank, q)| == |q| + |Forest(g, rank, Children(g, q))|
    ensures multiset(Forest(g, rank, q)) == multiset(q) + multiset(Forest(g, rank, Children(g, q)))
    decreases |q|
  {
    ChildrenSound(g, rank, q);
    if q != [] {
      var x := q[0];
      assert q == [x] + q[1..];
      ForestCons(g, rank, x, q[1..]);
      ForestLevels(g, rank, q[1..]);
      ChildrenSound(g, rank, q[1..]);
      ForestAppend(g, rank, g[x], Children(g, q[1..]));
      BoundBelow(rank, g[x], rank(x));
    } else {
      assert Children(g, q) == [];
    }
  }

  /** The size of the traversal still to come from a queue or stack: the measure that shrinks by
      one with every node emitted. */
  ghost function Pending<T>(g: Graph<T>, rank: T -> nat, q: seq<T>): nat
    requires AllSound(g, rank, q)
  {
    |Forest(g, rank, q)|
  }

  /** Popping the front node of a queue and appending its neighbours leaves one node less to emit. */
  lemma QueueStep<T>(g: Graph<T>, rank: T -> nat, q: seq<T>)
    requires AllSound(g, rank, q) && q != []
    ensures AllSound(g, rank, q[1..] + g[q[0]])
    ensures Pending(g, rank, q[1..] + g[q[0]]) == Pending(g, rank, q) - 1
  {
    var x := q[0];
    assert q == [x] + q[1..];
    ForestCons(g, rank, x, q[1..]);
    ForestAppend(g, rank, q[1..], g[x]);
  }

  /** The first-in-first-out loop: emit the front node, append its neighbours at the back. */
  ghost function QueueOrder<T>(g: Graph<T>, rank: T -> nat, q: seq<T>): seq<T>
    requires AllSound(g, rank, q)
    decreases Pending(g, rank, q)
  {
    if q == [] then []
    else
      QueueStep(g, rank, q);
      [q[0]] + QueueOrder(g, rank, q[1..] + g[q[0]])
  }

  /** Level order: the nodes of the queue, then the next level, and so on until a level is empty. */
  ghost function LevelOrder<T>(g: Graph<T>, rank: T -> nat, q: seq<T>): seq<T>
    requires AllSound(g, rank, q)
    decreases Pending(g, rank, q)
  {
    if q == [] then []
    else
      ForestLevels(g, rank, q);
      q + LevelOrder(g, rank, Children(g, q))
  }

  lemma AllSoundConcat<T>(g: Graph<T>, rank: T -> nat, a: seq<T>, b: seq<T>)
    requires AllSound(g, rank, a) && AllSound(g, rank, b)
    ensures AllSound(g, rank, a + b)
  {
    forall i | 0 <= i < |a + b|
      ensures Sound(g, rank, (a + b)[i])
    {
      if i < |a| {
        assert (a + b)[i] == a[i];
      } else {
        assert (a + b)[i] == b[i - |a|];
      }
    }
  }

  /** The neighbours of a sound node are sound. */
  lemma NeighboursSound<T>(g: Graph<T>, rank: T -> nat, x: T)
    requires Sound(g, rank, x)
    ensures AllSound(g, rank, g[x])
  {
  }

  lemma QueueOrderUnfold<T>(g: Graph<T>, rank: T -> nat, q: seq<T>)
    requires AllSound(g, rank, q) && q != []
    ensures AllSound(g, rank, q[1..] + g[q[0]])
    ensures QueueOrder(g, rank, q) == [q[0]] + QueueOrder(g, rank, q[1..] + g[q[0]])
  {
    QueueStep(g, rank, q);
  }

  /** Draining the queue q ahead of a queue r emits q, then continues with r followed by the
      next level of q. */
  lemma {:induction false} QueueOrderSplit<T>(g: Graph<T>, rank: T -> nat, q: seq<T>, r: seq<T>)
    requires AllSound(g, rank, q) && AllSound(g, rank, r)
    ensures AllSound(g, rank, q + r) && AllSound(g, rank, r + Children(g, q))
    ensures QueueOrder(g, rank, q + r) == q + QueueOrder(g, rank, r + Children(g, q))
    decreases |q|
  {
    ChildrenSound(g, rank, q);
    AllSoundConcat(g, rank, q, r);
    AllSoundConcat(g, rank, r, Children(g, q));
    if q == [] {
      assert q + r == r + Children(g, q);
    } else {
      var x, q' := q[0], q[1..];
      assert AllSound(g, rank, q') && Sound(g, rank, x);
      NeighboursSound(g, rank, x);
      AllSoundConcat(g, rank, r, g[x]);
      QueueOrderUnfold(g, rank, q + r);
      assert (q + r)[0] == x && (q + r)[1..] + g[x] == q' + (r + g[x]);
      QueueOrderSplit(g, rank, q', r + g[x]);
      assert Children(g, q) == g[x] + Children(g, q');
      assert r + g[x] + Children(g, q') == r + Children(g, q);
      assert q == [x] + q';
    }
  }

  /** The queue loop emits exactly the level order. */
  lemma {:induction false} QueueOrderIsLevelOrder<T>(g: Graph<T>, rank: T -> nat, q: seq<T>)
    requires AllSound(g, rank, q)
    ensures QueueOrder(g, rank, q) == LevelOrder(g, rank, q)
    decreases Pending(g, rank, q)
  {
    if q != [] {
      QueueOrderSplit(g, rank, q, []);
      assert q + [] == q && [] + Children(g, q) == Children(g, q);
      ForestLevels(g, rank, q);
      QueueOrderIsLevelOrder(g, rank, Children(g, q));
    }
  }

  /** Level order emits the same nodes, each as often, as the pre-order forest. */
  lemma {:induction false} LevelOrderMultiset<T>(g: Graph<T>, rank: T -> nat, q: seq<T>)
    requires AllSound(g, rank, q)
    ensures multiset(LevelOrder(g, rank, q)) == multiset(Forest(g, rank, q))
    decreases Pending(g, rank, q)
  {
    if q != [] {
      ForestLevels(g, rank, q);
      LevelOrderMultiset(g, rank, Children(g, q));
    } else {
      assert Forest(g, rank, q) == [];
    }
  }

  /** Level order from one node: it starts with the node and its neighbours in list order, only
      keys occur in it, and every node after the first is a neighbour of an earlier one. */
  lemma LevelOrderShape<T>(g: Graph<T>, rank: T -> nat, x: T)
    requires Sound(g, rank, x)
    ensures AllSound(g, rank, [x])
    ensures Grows(g, x, LevelOrder(g, rank, [x]))
    ensures |LevelOrder(g, rank, [x])| > |g[x]|
    ensures LevelOrder(g, rank, [x])[..|g[x]| + 1] == [x] + g[x]
  {
    assert AllSound(g, rank, [x]);
    var c := g[x];
    assert Children(g, [x]) == c by {
      assert [x][1..] == [];
    }
    LevelOrderStep(g, rank, [x], c);
    LevelOrderGrows(g, rank, [x]);
    LevelOrderGrows(g, rank, c);
    var rest := LevelOrder(g, rank, c);
    var out := LevelOrder(g, rank, [x]);
    assert out == [x] + rest;
    assert out[0] == x;
    assert out[..|c| + 1] == [x] + rest[..|c|];
  }

  lemma AllSoundKeys<T>(g: Graph<T>, rank: T -> nat, q: seq<T>)
    requires AllSound(g, rank, q)
    ensures AllKeys(g, q)
  {
    forall k | 0 <= k < |q|
      ensures q[k] in g
    {
      assert Sound(g, rank, q[k]);
    }
  }

  /** A queue q followed by an order that starts with the next level c and grows from it grows
      from q. */
  lemma LevelConcat<T>(g: Graph<T>, q: seq<T>, c: seq<T>, rest: seq<T>)
    requires AllKeys(g, q) && AllKeys(g, rest)
    requires forall k :: 0 <= k < |c| ==> ChildOf(g, q, c[k])
    requires |rest| >= |c| && rest[..|c|] == c
    requires forall k :: |c| <= k < |rest| ==> HasParent(g, rest, k)
    ensures AllKeys(g, q + rest)
    ensures forall k :: |q| <= k < |q + rest| ==> HasParent(g, q + rest, k)
    ensures (q + rest)[..|q|] == q
  {
    var out := q + rest;
    forall k | 0 <= k < |out|
      ensures out[k] in g
    {
      if k >= |q| {
        assert out[k] == rest[k - |q|];
      }
    }
    forall k | |q| <= k < |out|
      ensures HasParent(g, out, k)
    {
      var k' := k - |q|;
      assert out[k] == rest[k'];
      if k' < |c| {
        assert rest[k'] == c[k'];
        var j :| 0 <= j < |q| && Edge(g, q[j], c[k']);
        assert out[j] == q[j];
      } else {
        HasParentShift(g, q, rest, k');
      }
    }
  }

  /** In level order only keys occur, the order starts with the queue itself, and every node past
      the queue is a neighbour of an earlier one. */
  lemma {:induction false} LevelOrderGrows<T>(g: Graph<T>, rank: T -> nat, q: seq<T>)
    requires AllSound(g, rank, q)
    ensures AllKeys(g, LevelOrder(g, rank, q))
    ensures forall k :: |q| <= k < |LevelOrder(g, rank, q)| ==> HasParent(g, LevelOrder(g, rank, q), k)
    ensures |LevelOrder(g, rank, q)| >= |q| && LevelOrder(g, rank, q)[..|q|] == q
    decreases Pending(g, rank, q)
  {
    if q != [] {
      ForestLevels(g, rank, q);
      var c := Children(g, q);
      LevelOrderStep(g, rank, q, c);
      LevelOrderGrows(g, rank, c);
      ChildrenAreNeighbours(g, q);
      AllSoundKeys(g, rank, q);
      LevelConcat(g, q, c, LevelOrder(g, rank, c));
    } else {
      assert LevelOrder(g, rank, q) == [];
    }
  }

  // ---------------------------------------------------------------- unfolding on small graphs

  lemma PreorderLeaf<T>(g: Graph<T>, rank: T -> nat, x: T)
    requires Sound(g, rank, x) && g[x] == []
    ensures Preorder(g, rank, x) == [x]
  {
    assert Forest(g, rank, g[x]) == [];
  }

  lemma PreorderOne<T>(g: Graph<T>, rank: T -> nat, x: T)
    requires Sound(g, rank, x) && |g[x]| == 1
    ensures Sound(g, rank, g[x][0])
    ensures Preorder(g, rank, x) == [x] + Preorder(g, rank, g[x][0])
  {
    assert g[x] == [g[x][0]];
    ForestSingleton(g, rank, g[x][0]);
  }

  lemma PreorderTwo<T>(g: Graph<T>, rank: T -> nat, x: T)
    requires Sound(g, rank, x) && |g[x]| == 2
    ensures Sound(g, rank, g[x][0]) && Sound(g, rank, g[x][1])
    ensures Preorder(g, rank, x) == [x] + Preorder(g, rank, g[x][0]) + Preorder(g, rank, g[x][1])
  {
    var a := g[x][0];
    var b := g[x][1];
    assert g[x] == [a] + [b];
    ForestSingleton(g, rank, b);
    ForestCons(g, rank, a, [b]);
  }

  lemma LevelOrderStep<T>(g: Graph<T>, rank: T -> nat, q: seq<T>, c: seq<T>)
    requires AllSound(g, rank, q) && q != [] && Children(g, q) == c
    ensures AllSound(g, rank, c)
    ensures LevelOrder(g, rank, q) == q + LevelOrder(g, rank, c)
  {
    ChildrenSound(g, rank, q);
  }

  lemma LevelOrderLast<T>(g: Graph<T>, rank: T -> nat, q: seq<T>)
    requires AllSound(g, rank, q) && q != [] && Children(g, q) == []
    ensures LevelOrder(g, rank, q) == q
  {
    LevelOrderStep(g, rank, q, []);
    assert q + [] == q;
  }

  // ---------------------------------------------------------------- paths

  /** p is a path of g: a non-empty walk along edges. */
  ghost predicate IsPath<T>(g: Graph<T>, p: seq<T>)
  {
    |p| > 0 && forall i :: 0 <= i < |p| - 1 ==> Edge(g, p[i], p[i + 1])
  }

  /** The number of paths from x to y, an edge listed twice counting twice. */
  ghost function PathCount<T>(g: Graph<T>, rank: T -> nat, x: T, y: T): nat
    requires Sound(g, rank, x)
    decreases rank(x) + 1, 0
  {
    BoundBelow(rank, g[x], rank(x));
    (if x == y then 1 else 0) + PathCountAll(g, rank, g[x], y)
  }

  ghost function PathCountAll<T>(g: Graph<T>, rank: T -> nat, xs: seq<T>, y: T): nat
    requires AllSound(g, rank, xs)
    decreases Bound(rank, xs), |xs| + 1
  {
    if xs == [] then 0 else PathCountAll(g, rank, xs[..|xs| - 1], y) + PathCount(g, rank, xs[|xs| - 1], y)
  }

  /** Without a visited set, the recursive depth-first order emits every node once per path from
      the start to it. */
  lemma {:induction false} PreorderCountsPaths<T>(g: Graph<T>, rank: T -> nat, x: T, y: T)
    requires Sound(g, rank, x)
    ensures multiset(Preorder(g, rank, x))[y] == PathCount(g, rank, x, y)
    decreases rank(x) + 1, 0
  {
    BoundBelow(rank, g[x], rank(x));
    ForestCountsPaths(g, rank, g[x], y);
  }

  lemma {:induction false} ForestCountsPaths<T>(g: Graph<T>, rank: T -> nat, xs: seq<T>, y: T)
    requires AllSound(g, rank, xs)
    ensures multiset(Forest(g, rank, xs))[y] == PathCountAll(g, rank, xs, y)
    decreases Bound(rank, xs), |xs| + 1
  {
    if xs != [] {
      ForestCountsPaths(g, rank, xs[..|xs| - 1], y);
      PreorderCountsPaths(g, rank, xs[|xs| - 1], y);
    }
  }

  /** A path from x, extended backwards by an edge into x. */
  lemma PathCons<T>(g: Graph<T>, x: T, p: seq<T>)
    requires IsPath(g, p) && Edge(g, x, p[0])
    ensures IsPath(g, [x] + p)
  {
    var q := [x] + p;
    forall i | 0 <= i < |q| - 1
      ensures Edge(g, q[i], q[i + 1])
    {
      if i > 0 {
        assert q[i] == p[i - 1] && q[i + 1] == p[i];
      }
    }
  }

  /** Every node the pre-order of x emits is reachable from x by a path. */
  lemma {:induction false} PreorderReachable<T>(g: Graph<T>, rank: T -> nat, x: T, y: T) returns (p: seq<T>)
    requires Sound(g, rank, x) && y in Preorder(g, rank, x)
    ensures IsPath(g, p) && p[0] == x && p[|p| - 1] == y
    decreases rank(x) + 1, 0
  {
    if y == x {
      p := [x];
    } else {
      BoundBelow(rank, g[x], rank(x));
      var c := ForestReachable(g, rank, g[x], y);
      var q := PreorderReachable(g, rank, g[x][c], y);
      PathCons(g, x, q);
      p := [x] + q;
    }
  }

  lemma {:induction false} ForestReachable<T>(g: Graph<T>, rank: T -> nat, xs: seq<T>, y: T) returns (c: nat)
    requires AllSound(g, rank, xs) && y in Forest(g, rank, xs)
    ensures c < |xs| && y in Preorder(g, rank, xs[c])
    decreases Bound(rank, xs), |xs| + 1
  {
    var xs' := xs[..|xs| - 1];
    if y in Preorder(g, rank, xs[|xs| - 1]) {
      c := |xs| - 1;
    } else {
      c := ForestReachable(g, rank, xs', y);
    }
  }

  /** A path without its first node is still a path. */
  lemma PathTail<T>(g: Graph<T>, p: seq<T>)
    requires IsPath(g, p) && |p| > 1
    ensures IsPath(g, p[1..]) && Edge(g, p[0], p[1])
  {
    var tail := p[1..];
    forall k | 0 <= k < |tail| - 1
      ensures Edge(g, tail[k], tail[k + 1])
    {
      assert tail[k] == p[k + 1] && tail[k + 1] == p[k + 2];
    }
  }

  /** A node in the pre-order of a neighbour of x is in the pre-order of x. */
  lemma InNeighbourPreorder<T>(g: Graph<T>, rank: T -> nat, x: T, i: nat, y: T)
    requires Sound(g, rank, x) && i < |g[x]|
    requires y in Preorder(g, rank, g[x][i])
    ensures y in Preorder(g, rank, x)
  {
    BoundBelow(rank, g[x], rank(x));
    PreorderInForest(g, rank, g[x], i);
    assert y in multiset(Preorder(g, rank, g[x][i]));
    assert y in multiset(Forest(g, rank, g[x]));
    assert Preorder(g, rank, x) == [x] + Forest(g, rank, g[x]);
  }

  /** Every node reachable from x by a path is emitted by the pre-order of x. */
  lemma {:induction false} ReachableInPreorder<T>(g: Graph<T>, rank: T -> nat, p: seq<T>)
    requires IsPath(g, p) && Sound(g, rank, p[0])
    ensures p[|p| - 1] in Preorder(g, rank, p[0])
    decreases |p|
  {
    if |p| > 1 {
      var x := p[0];
      PathTail(g, p);
      var i :| 0 <= i < |g[x]| && g[x][i] == p[1];
      ReachableInPreorder(g, rank, p[1..]);
      assert p[|p| - 1] == p[1..][|p| - 2];
      InNeighbourPreorder(g, rank, x, i, p[|p| - 1]);
    } else {
      assert Preorder(g, rank, p[0])[0] == p[0];
    }
  }

  /** The forest of xs contains the pre-order of each of its roots. */
  lemma {:induction false} PreorderInForest<T>(g: Graph<T>, rank: T -> nat, xs: seq<T>, i: nat)
    requires AllSound(g, rank, xs) && i < |xs|
    ensures multiset(Preorder(g, rank, xs[i])) <= multiset(Forest(g, rank, xs))
    decreases |xs|
  {
    if i < |xs| - 1 {
      PreorderInForest(g, rank, xs[..|xs| - 1], i);
    }
  }

  /** The pre-order of x emits exactly the nodes reachable from x. */
  lemma PreorderIsReachable<T>(g: Graph<T>, rank: T -> nat, x: T, y: T)
    requires Sound(g, rank, x)
    ensures y in Preorder(g, rank, x) <==> exists p :: IsPath(g, p) && p[0] == x && p[|p| - 1] == y
  {
    if y in Preorder(g, rank, x) {
      var p := PreorderReachable(g, rank, x, y);
    }
    if p :| IsPath(g, p) && p[0] == x && p[|p| - 1] == y {
      ReachableInPreorder(g, rank, p);
      assert multiset(Preorder(g, rank, x))[y] > 0;
    }
  }
}

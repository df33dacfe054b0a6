/** The brute-force clique search (Lab_5/Lab5_17/src/GreedyAlgorithm.cpp):
    a depth-first search that grows a clique one vertex at a time, keeps
    the longest clique met so far, and stops as soon as a clique takes in
    every vertex of the graph. */
module Greedy {
  import opened Graph

  ghost predicate Vertices(g: Matrix, s: seq<int>) {
    forall i :: 0 <= i < |s| ==> IsVertex(g, s[i])
  }

  /** Every member of `c` has an edge to every earlier member: the lists
      that appending only vertices passing `isClique(clique, v)` builds. */
  ghost predicate Chain(g: Matrix, c: seq<int>)
    requires WellFormed(g) && Vertices(g, c)
  {
    forall i, j :: 0 <= i < j < |c| ==> Edge(g, c[j], c[i])
  }

  /** Every edge of the matrix has its reverse, as in an undirected graph. */
  ghost predicate Symmetric(g: Matrix)
    requires WellFormed(g)
  {
    forall a, b :: IsVertex(g, a) && IsVertex(g, b) ==> (Edge(g, a, b) <==> Edge(g, b, a))
  }

  /** `std::remove` then `erase` of one value (GreedyAlgorithm.cpp:13-14):
      every copy of `x` goes, the rest stay in order. */
  function Erase(s: seq<int>, x: int): (r: seq<int>)
    ensures forall y :: y in r <==> y in s && y != x
    ensures x in s ==> |r| < |s|
    ensures x !in s ==> r == s
    decreases |s|
  {
    if |s| == 0 then [] else (if s[0] == x then [] else [s[0]]) + Erase(s[1..], x)
  }

  /** Erasing a value leaves only vertices of a list of vertices. */
  lemma {:induction false} EraseVertices(g: Matrix, s: seq<int>, x: int)
    requires Vertices(g, s)
    ensures Vertices(g, Erase(s, x))
    decreases |s|
  {
    if |s| != 0 {
      EraseVertices(g, s[1..], x);
    }
  }

  /** Adding a vertex with an edge to every member keeps a chain a chain. */
  lemma ChainSnoc(g: Matrix, c: seq<int>, v: int)
    requires WellFormed(g) && Vertices(g, c) && IsVertex(g, v) && Chain(g, c) && ToAll(g, c, v)
    ensures Vertices(g, c + [v]) && Chain(g, c + [v])
  {
    var d := c + [v];
    forall i, j | 0 <= i < j < |d|
      ensures Edge(g, d[j], d[i])
    {
      assert d[i] == c[i];
    }
  }

  /** In an undirected graph the lists the search builds are exactly the
      lists `isClique(clique)` accepts. */
  lemma ChainPairwise(g: Matrix, c: seq<int>)
    requires WellFormed(g) && Vertices(g, c) && Symmetric(g)
    ensures Chain(g, c) <==> Pairwise(g, c)
  {
    forall i, j | 0 <= i < j < |c|
      ensures Edge(g, c[j], c[i]) <==> Edge(g, c[i], c[j])
    {
    }
  }

  /** `recursiveTraverse` (GreedyAlgorithm.cpp:9-40) without the console
      output: `clique` and `whiteList` are copies, `maxClique` is passed by
      reference and comes back as the second result. */
  method RecursiveTraverse(g: Matrix, clique: seq<int>, vertex: int, whiteList: seq<int>, maxClique: seq<int>)
    returns (done: bool, best: seq<int>)
    requires WellFormed(g) && IsVertex(g, vertex)
    requires Vertices(g, clique) && Vertices(g, whiteList) && Vertices(g, maxClique)
    requires Chain(g, clique) && ToAll(g, clique, vertex) && Chain(g, maxClique)
    ensures Vertices(g, best) && Chain(g, best)
    ensures |clique| < |best|
    ensures !done ==> best == maxClique || |maxClique| < |best|
    ensures done ==> |clique| + 1 <= |best| && best[..|clique| + 1] == clique + [vertex]
    ensures done ==> forall x :: x in whiteList ==> x in best
    decreases |whiteList| + (if vertex in whiteList then 0 else 1)
  {
    var c := clique + [vertex];
    ChainSnoc(g, clique, vertex);
    var wl := Erase(whiteList, vertex);
    EraseVertices(g, whiteList, vertex);
    if |wl| == 0 {
      return true, c;
    }
    best := maxClique;
    var k := 0;
    while k < |wl|
      invariant 0 <= k <= |wl|
      invariant Vertices(g, best) && Chain(g, best)
      invariant best == maxClique || |maxClique| < |best|
      invariant 0 < k ==> |c| <= |best|
    {
      var item := wl[k];
      var ok := IsCliqueWith(g, c, item);
      if ok {
        var d;
        d, best := RecursiveTraverse(g, c, item, wl, best);
        if d {
          assert best[..|c|] == best[..|c| + 1][..|c|] == c;
          forall x | x in whiteList
            ensures x in best
          {
            if x == vertex {
              assert best[|clique|] == c[|clique|] == x;
            }
          }
          return true, best;
        }
      }
      if |best| < |c| {
        best := c;
      }
      k := k + 1;
    }
    done := false;
  }

  /** `findMaxCliqueBruteForce` (GreedyAlgorithm.cpp:42-60): a search from
      every vertex in turn with the whole vertex list as the white list.
      `complete` tells whether the loop stopped early, which happens only
      when the clique found holds every vertex. */
  method FindMaxCliqueBruteForce(g: Matrix) returns (r: seq<int>, complete: bool)
    requires WellFormed(g)
    ensures Vertices(g, r) && Chain(g, r)
    ensures g.vCount == 0 <==> r == []
    ensures complete ==> forall v :: IsVertex(g, v) ==> v in r
  {
    r := [];
    complete := false;
    var whiteList := seq(g.vCount, i => i);
    var vertex := 0;
    while vertex < g.vCount && !complete
      invariant 0 <= vertex <= g.vCount
      invariant Vertices(g, r) && Chain(g, r)
      invariant complete ==> forall v :: IsVertex(g, v) ==> v in r
      invariant 0 < vertex ==> r != []
      invariant r != [] ==> 0 < g.vCount
      invariant complete ==> 0 < vertex
    {
      var done;
      done, r := RecursiveTraverse(g, [], vertex, whiteList, r);
      if done {
        forall v | IsVertex(g, v)
          ensures v in r
        {
          assert whiteList[v] == v;
        }
        complete := true;
      }
      vertex := vertex + 1;
    }
  }
}

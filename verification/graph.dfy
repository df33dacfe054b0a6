/** The adjacency matrix `CAdjancencyMatrix` (Lab_4/Lab_4/CAdjancencyMatrix.hpp):
    a square grid of edge distances in which one reserved distance marks a
    missing edge. Only the integer distances are modelled; the pheromone
    levels that sit beside them are not. */
module Graph {
  /** `cfg::hasNoConnection`, the largest `int` (CAdjancencyMatrix.hpp:12). */
  const NoConnection := 0x7FFF_FFFF

  /** `mVCount`, `mIsDirected`, `mHasNoDeadends`, `mNoConnectionValue`,
      `mVertexPower` and the `mDistance` of every entry of `mData`. */
  datatype Matrix = Matrix(
    vCount: int, directed: bool, noDeadends: bool, noConnection: int,
    power: seq<int>, data: seq<seq<int>>)

  /** `mVCount` rows of `mVCount` entries and one power per vertex. */
  ghost predicate WellFormed(g: Matrix) {
    0 <= g.vCount && |g.power| == g.vCount && |g.data| == g.vCount &&
    forall i :: 0 <= i < |g.data| ==> |g.data[i]| == g.vCount
  }

  /** The constructor with `init` (CAdjancencyMatrix.hpp:39-46, 233-241):
      every entry is the missing-edge distance and every power is zero. A
      negative count makes `resize` throw and is not modelled. */
  function NewMatrix(n: int, directed: bool, noDeadends: bool, noConnection: int): (g: Matrix)
    requires 0 <= n
    ensures WellFormed(g) && g.vCount == n && g.noConnection == noConnection
  {
    Matrix(n, directed, noDeadends, noConnection, seq(n, _ => 0), seq(n, _ => seq(n, _ => noConnection)))
  }

  /** The constructor with its default arguments (CAdjancencyMatrix.hpp:39):
      dead ends ruled out, and `NoConnection` marking a missing edge. */
  function DefaultMatrix(n: int, directed: bool): (g: Matrix)
    requires 0 <= n
    ensures WellFormed(g) && g.vCount == n && g.noDeadends && g.noConnection == NoConnection
  {
    NewMatrix(n, directed, true, NoConnection)
  }

  /** With the default arguments every entry holds the largest `int`, so no
      two vertices are linked. */
  lemma DefaultMatrixEmpty(n: int, directed: bool)
    requires 0 <= n
    ensures var g := DefaultMatrix(n, directed);
      forall a, b :: 0 <= a < n && 0 <= b < n ==> g.data[a][b] == 0x7FFF_FFFF && !Edge(g, a, b)
  {
  }

  /** `size()` (CAdjancencyMatrix.hpp:57-60). */
  function Size(g: Matrix): (n: int)
    requires WellFormed(g)
    ensures n == |g.data| && n == |g.power|
  {
    g.vCount
  }

  predicate IsVertex(g: Matrix, v: int) {
    0 <= v < g.vCount
  }

  /** An edge from `a` to `b`: its distance is not the missing-edge value
      (the test inside `getNeighbours`, CAdjancencyMatrix.hpp:80). */
  predicate Edge(g: Matrix, a: int, b: int)
    requires WellFormed(g) && IsVertex(g, a) && IsVertex(g, b)
  {
    g.data[a][b] != g.noConnection
  }

  ghost predicate Ascending(s: seq<int>) {
    forall i, j :: 0 <= i < j < |s| ==> s[i] < s[j]
  }

  /** The loop of `getNeighbours(v)` (CAdjancencyMatrix.hpp:76-85) over
      the vertices below `k`. */
  function NeighboursBelow(g: Matrix, v: int, k: int): (r: seq<int>)
    requires WellFormed(g) && IsVertex(g, v) && 0 <= k <= g.vCount
    ensures Ascending(r)
    ensures forall i :: 0 <= i < |r| ==> 0 <= r[i] < k
    ensures forall x :: x in r <==> 0 <= x < k && Edge(g, v, x)
    decreases k
  {
    if k == 0 then []
    else NeighboursBelow(g, v, k - 1) + (if Edge(g, v, k - 1) then [k - 1] else [])
  }

  /** `getNeighbours(v)`: the vertices `v` has an edge to, in ascending order. */
  function Neighbours(g: Matrix, v: int): (r: seq<int>)
    requires WellFormed(g) && IsVertex(g, v)
    ensures Ascending(r) && forall x :: x in r <==> IsVertex(g, x) && Edge(g, v, x)
  {
    NeighboursBelow(g, v, g.vCount)
  }

  /** Two ascending lists with the same members are equal: the neighbour
      list is the only ascending list of the neighbours. */
  lemma {:induction false} AscendingUnique(a: seq<int>, b: seq<int>)
    requires Ascending(a) && Ascending(b) && forall x :: x in a <==> x in b
    ensures a == b
    decreases |a|
  {
    assert |a| != 0 ==> a[0] in a && a[0] in b;
    assert |b| != 0 ==> b[0] in b && b[0] in a;
    if |a| != 0 {
      AscendingFirst(a, b[0]);
      AscendingFirst(b, a[0]);
      forall x
        ensures x in a[1..] <==> x in b[1..]
      {
        AscendingRest(a, x);
        AscendingRest(b, x);
      }
      AscendingUnique(a[1..], b[1..]);
      assert a == [a[0]] + a[1..] && b == [b[0]] + b[1..];
    }
  }

  /** The head of an ascending list is its least member. */
  lemma AscendingFirst(s: seq<int>, x: int)
    requires Ascending(s) && x in s
    ensures s[0] <= x
  {
  }

  /** The tail of an ascending list holds exactly the members above the head. */
  lemma AscendingRest(s: seq<int>, x: int)
    requires Ascending(s) && 0 < |s|
    ensures x in s[1..] <==> x in s && s[0] < x
  {
    if x in s && s[0] < x {
      var i :| 0 <= i < |s| && s[i] == x;
      assert s[1..][i - 1] == x;
    }
  }

  /** `v` has an edge to every member of `c`. */
  ghost predicate ToAll(g: Matrix, c: seq<int>, v: int)
    requires WellFormed(g) && IsVertex(g, v) && forall i :: 0 <= i < |c| ==> IsVertex(g, c[i])
  {
    forall i :: 0 <= i < |c| ==> Edge(g, v, c[i])
  }

  /** Every member of `c` has an edge to every later member. */
  ghost predicate Pairwise(g: Matrix, c: seq<int>)
    requires WellFormed(g) && forall i :: 0 <= i < |c| ==> IsVertex(g, c[i])
  {
    forall i, j :: 0 <= i < j < |c| ==> Edge(g, c[i], c[j])
  }

  /** `isClique(clique, vertex)` (CAdjancencyMatrix.hpp:87-95): the loop
      runs while every edge so far exists. Every entry of `clique` must be
      a vertex. */
  method IsCliqueWith(g: Matrix, clique: seq<int>, vertex: int) returns (res: bool)
    requires WellFormed(g) && IsVertex(g, vertex) && forall i :: 0 <= i < |clique| ==> IsVertex(g, clique[i])
    ensures res <==> ToAll(g, clique, vertex)
  {
    res := true;
    var i := 0;
    while res && i < |clique|
      invariant 0 <= i <= |clique|
      invariant res <==> forall k :: 0 <= k < i ==> Edge(g, vertex, clique[k])
      invariant !res ==> exists k :: 0 <= k < i && !Edge(g, vertex, clique[k])
      decreases |clique| - i, res
    {
      res := g.data[vertex][clique[i]] != g.noConnection;
      i := i + 1;
    }
  }

  /** `isClique(clique)` (CAdjancencyMatrix.hpp:97-107): both loops run
      while every edge so far exists. */
  method IsClique(g: Matrix, clique: seq<int>) returns (res: bool)
    requires WellFormed(g) && forall i :: 0 <= i < |clique| ==> IsVertex(g, clique[i])
    ensures res <==> Pairwise(g, clique)
  {
    res := true;
    var i := 0;
    while res && i < |clique|
      invariant 0 <= i <= |clique|
      invariant res ==> forall a, b :: 0 <= a < i && a < b < |clique| ==> Edge(g, clique[a], clique[b])
      invariant !res ==> !Pairwise(g, clique)
      decreases |clique| - i, res
    {
      var j := i + 1;
      while res && j < |clique|
        invariant i + 1 <= j <= |clique|
        invariant res ==> forall b :: i < b < j ==> Edge(g, clique[i], clique[b])
        invariant !res ==> !Pairwise(g, clique)
        decreases |clique| - j, res
      {
        res := g.data[clique[i]][clique[j]] != g.noConnection;
        if !res {
          assert !Edge(g, clique[i], clique[j]);
        }
        j := j + 1;
      }
      i := i + 1;
    }
  }

  /** Growing a list that is pairwise connected by one vertex keeps it so
      exactly when every member has an edge to the new vertex. */
  lemma PairwiseSnoc(g: Matrix, c: seq<int>, v: int)
    requires WellFormed(g) && IsVertex(g, v) && forall i :: 0 <= i < |c| ==> IsVertex(g, c[i])
    ensures Pairwise(g, c + [v]) <==> Pairwise(g, c) && forall i :: 0 <= i < |c| ==> Edge(g, c[i], v)
  {
    var d := c + [v];
    if Pairwise(g, c) && forall i :: 0 <= i < |c| ==> Edge(g, c[i], v) {
      forall i, j | 0 <= i < j < |d|
        ensures Edge(g, d[i], d[j])
      {
        if j < |c| {
          assert d[i] == c[i] && d[j] == c[j];
        } else {
          assert d[i] == c[i] && d[j] == v;
        }
      }
    }
    if Pairwise(g, d) {
      forall i, j | 0 <= i < j < |c|
        ensures Edge(g, c[i], c[j])
      {
        assert d[i] == c[i] && d[j] == c[j];
      }
      forall i | 0 <= i < |c|
        ensures Edge(g, c[i], v)
      {
        assert d[i] == c[i] && d[|c|] == v;
      }
    }
  }

  /** Lists of at most one vertex pass both tests. */
  lemma ShortCliques(g: Matrix, c: seq<int>, v: int)
    requires WellFormed(g) && IsVertex(g, v) && |c| <= 1 && forall i :: 0 <= i < |c| ==> IsVertex(g, c[i])
    ensures Pairwise(g, c) && ToAll(g, [], v)
  {
  }

  /** A new matrix has no edges: no vertex has a neighbour and no two
      vertices pass the clique test. */
  lemma NewMatrixEmpty(n: int, directed: bool, noDeadends: bool, noConnection: int, v: int)
    requires 0 <= n && 0 <= v < n
    ensures var g := NewMatrix(n, directed, noDeadends, noConnection);
      Neighbours(g, v) == [] && (forall w :: 0 <= w < n ==> !Edge(g, v, w)) &&
      (forall i :: 0 <= i < n ==> g.power[i] == 0)
  {
    var g := NewMatrix(n, directed, noDeadends, noConnection);
    NoEdgeNoNeighbours(g, v, n);
  }

  /** A vertex without edges below `k` has no neighbours below `k`. */
  lemma {:induction false} NoEdgeNoNeighbours(g: Matrix, v: int, k: int)
    requires WellFormed(g) && IsVertex(g, v) && 0 <= k <= g.vCount
    requires forall w :: 0 <= w < k ==> !Edge(g, v, w)
    ensures NeighboursBelow(g, v, k) == []
    decreases k
  {
    if k > 0 {
      NoEdgeNoNeighbours(g, v, k - 1);
    }
  }
}

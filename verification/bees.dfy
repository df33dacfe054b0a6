/** The pure helpers of the bee-colony clique search
    (Lab_5/Lab5_17/src/main_lab5_17.cpp): the fitness of a candidate
    vertex list, the order of solutions, and the candidate lists from
    which a bee picks the vertex that replaces one of a solution's. */
module Bees {
  import opened Graph

  /** `cfg::cliqueSize` (main_lab5_17.cpp:29). */
  const CliqueSize := 3

  /** `SSolution` (main_lab5_17.cpp:39-44). The fitness is the count `calc`
      produces, kept as an integer. */
  datatype Solution = Solution(path: seq<int>, fitness: int, trialsCount: int)

  ghost predicate Vertices(g: Matrix, s: seq<int>) {
    forall i :: 0 <= i < |s| ==> IsVertex(g, s[i])
  }

  // ---------------------------------------------------------------- fitness

  /** The inner loop of `calc`: the positions `v2 < k` whose vertex the
      vertex at position `a` has an edge to. */
  function RowCount(g: Matrix, p: seq<int>, a: int, k: int): (c: int)
    requires WellFormed(g) && Vertices(g, p) && 0 <= a < |p| && 0 <= k <= |p|
    ensures 0 <= c <= k
    decreases k
  {
    if k == 0 then 0 else RowCount(g, p, a, k - 1) + (if Edge(g, p[a], p[k - 1]) then 1 else 0)
  }

  /** The outer loop of `calc` over the positions `v1 < k`. */
  function PairCount(g: Matrix, p: seq<int>, k: int): (c: int)
    requires WellFormed(g) && Vertices(g, p) && 0 <= k <= |p|
    ensures 0 <= c <= k * |p|
    decreases k
  {
    if k == 0 then 0 else PairCount(g, p, k - 1) + RowCount(g, p, k - 1, |p|)
  }

  /** `CFitnessCalculator::calc` (main_lab5_17.cpp:60-76): the number of
      ordered position pairs `(v1, v2)`, the diagonal included, whose
      matrix entry is an edge. */
  method Calc(g: Matrix, path: seq<int>) returns (fitness: int)
    requires WellFormed(g) && Vertices(g, path)
    ensures fitness == PairCount(g, path, |path|)
    ensures 0 <= fitness <= |path| * |path|
  {
    fitness := 0;
    var v1 := 0;
    while v1 < |path|
      invariant 0 <= v1 <= |path|
      invariant fitness == PairCount(g, path, v1)
    {
      var v2 := 0;
      var row := 0;
      while v2 < |path|
        invariant 0 <= v2 <= |path|
        invariant row == RowCount(g, path, v1, v2)
      {
        if g.data[path[v1]][path[v2]] != g.noConnection {
          row := row + 1;
        }
        v2 := v2 + 1;
      }
      fitness := fitness + row;
      v1 := v1 + 1;
    }
  }

  /** `CFitnessCalculator::getMaxValue` (main_lab5_17.cpp:51-54): the
      fitness of a clique of `cliqueSize` vertices. */
  function MaxValue(): (m: int)
    ensures m == PairsOf(CliqueSize)
  {
    CliqueSize * (CliqueSize - 1)
  }

  /** The ordered pairs of distinct positions among `k`, counted one row
      at a time. */
  function PairsOf(k: nat): (m: nat)
    decreases k
  {
    if k == 0 then 0 else PairsOf(k - 1) + 2 * (k - 1)
  }

  /** No vertex of the path has an edge to itself, as `generate` never
      makes one (CAdjancencyMatrix.hpp:132). */
  ghost predicate NoLoops(g: Matrix, p: seq<int>)
    requires WellFormed(g) && Vertices(g, p)
  {
    forall i :: 0 <= i < |p| ==> !Edge(g, p[i], p[i])
  }

  /** Every position of the path has an edge to every other position. */
  ghost predicate Full(g: Matrix, p: seq<int>)
    requires WellFormed(g) && Vertices(g, p)
  {
    forall a, b :: 0 <= a < |p| && 0 <= b < |p| && a != b ==> Edge(g, p[a], p[b])
  }

  /** Row `a` of `calc` without its diagonal entry: it reaches `k - 1`
      exactly when position `a` has an edge to every other position below `k`. */
  lemma {:induction false} RowCountMax(g: Matrix, p: seq<int>, a: int, k: int)
    requires WellFormed(g) && Vertices(g, p) && 0 <= a < k <= |p| && NoLoops(g, p)
    ensures RowCount(g, p, a, k) <= k - 1
    ensures RowCount(g, p, a, k) == k - 1 <==> forall b :: 0 <= b < k && b != a ==> Edge(g, p[a], p[b])
    decreases k
  {
    assert !Edge(g, p[a], p[a]);
    if k - 1 == a {
      RowCountAll(g, p, a, a);
    } else {
      RowCountMax(g, p, a, k - 1);
    }
  }

  /** Below the diagonal a row counts every position exactly when each has an edge. */
  lemma {:induction false} RowCountAll(g: Matrix, p: seq<int>, a: int, k: int)
    requires WellFormed(g) && Vertices(g, p) && 0 <= a < |p| && 0 <= k <= |p|
    ensures RowCount(g, p, a, k) == k <==> forall b :: 0 <= b < k ==> Edge(g, p[a], p[b])
    decreases k
  {
    if k != 0 {
      RowCountAll(g, p, a, k - 1);
    }
  }

  /** The fitness of the first `k` rows is at most `k * (|p| - 1)` and
      reaches it exactly when those rows are full. */
  lemma {:induction false} PairCountMax(g: Matrix, p: seq<int>, k: int)
    requires WellFormed(g) && Vertices(g, p) && 0 < |p| && 0 <= k <= |p| && NoLoops(g, p)
    ensures PairCount(g, p, k) <= k * (|p| - 1)
    ensures PairCount(g, p, k) == k * (|p| - 1) <==>
      forall a, b :: 0 <= a < k && 0 <= b < |p| && a != b ==> Edge(g, p[a], p[b])
    decreases k
  {
    if k != 0 {
      PairCountMax(g, p, k - 1);
      RowCountMax(g, p, k - 1, |p|);
      assert k * (|p| - 1) == (k - 1) * (|p| - 1) + (|p| - 1);
    }
  }

  /** With no loops, the fitness of a path of `k` positions is at most
      `k * (k - 1)`, and it reaches that bound exactly when every position
      has an edge to every other: a path of `cliqueSize` vertices has the
      fitness `getMaxValue` exactly when it is a clique. */
  lemma CalcMax(g: Matrix, p: seq<int>)
    requires WellFormed(g) && Vertices(g, p) && NoLoops(g, p)
    ensures PairCount(g, p, |p|) <= |p| * (|p| - 1)
    ensures PairCount(g, p, |p|) == |p| * (|p| - 1) <==> Full(g, p)
    ensures |p| == CliqueSize ==> (PairCount(g, p, |p|) <= MaxValue() && (PairCount(g, p, |p|) == MaxValue() <==> Full(g, p)))
  {
    if |p| != 0 {
      PairCountMax(g, p, |p|);
    }
  }

  /** A full path has no repeated vertex: a repeat would be a loop. */
  lemma FullDistinct(g: Matrix, p: seq<int>)
    requires WellFormed(g) && Vertices(g, p) && NoLoops(g, p) && Full(g, p)
    ensures forall a, b :: 0 <= a < b < |p| ==> p[a] != p[b]
  {
    forall a, b | 0 <= a < b < |p|
      ensures p[a] != p[b]
    {
      assert Edge(g, p[a], p[b]) && !Edge(g, p[a], p[a]);
    }
  }

  /** In an undirected graph a full path is exactly a path that passes
      `isClique(clique)`. */
  lemma FullPairwise(g: Matrix, p: seq<int>)
    requires WellFormed(g) && Vertices(g, p)
    requires forall a, b :: IsVertex(g, a) && IsVertex(g, b) ==> (Edge(g, a, b) <==> Edge(g, b, a))
    ensures Full(g, p) <==> Pairwise(g, p)
  {
    if Pairwise(g, p) {
      forall a, b | 0 <= a < |p| && 0 <= b < |p| && a != b
        ensures Edge(g, p[a], p[b])
      {
        if b < a {
          assert Edge(g, p[b], p[a]);
        }
      }
    }
  }

  // ---------------------------------------------------------------- order

  /** `solutionSortPred` (main_lab5_17.cpp:46): best first. */
  predicate Better(l: Solution, r: Solution) {
    l.fitness > r.fitness
  }

  /** In a list sorted by `Better`, no solution comes before a fitter one. */
  ghost predicate SortedBest(s: seq<Solution>) {
    forall i, j :: 0 <= i < j < |s| ==> !Better(s[j], s[i])
  }

  /** `x` placed before the first solution of `s` that is not fitter than it. */
  function InsertByFitness(x: Solution, s: seq<Solution>): (r: seq<Solution>)
    ensures |r| == |s| + 1
    decreases |s|
  {
    if |s| == 0 || !Better(s[0], x) then [x] + s else [s[0]] + InsertByFitness(x, s[1..])
  }

  /** `std::sort(solutions.begin(), solutions.end(), solutionSortPred)`
      (main_lab5_17.cpp:177, 214, 231, 303). The library promises some
      permutation ordered best first, without saying which among solutions
      of equal fitness; the model takes the one insertion sort gives. */
  function SortSolutions(s: seq<Solution>): (r: seq<Solution>)
    ensures |r| == |s|
    decreases |s|
  {
    if |s| == 0 then [] else InsertByFitness(s[0], SortSolutions(s[1..]))
  }

  /** No solution of `s` is fitter than `f`. */
  ghost predicate AtMost(s: seq<Solution>, f: int) {
    forall i :: 0 <= i < |s| ==> s[i].fitness <= f
  }

  /** A solution at least as fit as every one of a sorted list can go in front. */
  lemma ConsSorted(y: Solution, t: seq<Solution>)
    requires SortedBest(t) && AtMost(t, y.fitness)
    ensures SortedBest([y] + t)
  {
    var r := [y] + t;
    forall i, j | 0 <= i < j < |r| ensures !Better(r[j], r[i]) {
      assert r[j] == t[j - 1];
      if i > 0 {
        assert r[i] == t[i - 1];
      }
    }
  }

  /** The head of a sorted list bounds the rest. */
  lemma SortedHead(s: seq<Solution>)
    requires SortedBest(s) && 0 < |s|
    ensures AtMost(s, s[0].fitness) && SortedBest(s[1..])
  {
    forall i | 0 < i < |s| ensures s[i].fitness <= s[0].fitness {
      assert !Better(s[i], s[0]);
    }
    forall i, j | 0 <= i < j < |s| - 1 ensures !Better(s[1..][j], s[1..][i]) {
      assert !Better(s[j + 1], s[i + 1]);
    }
  }

  /** Inserting keeps a bound every solution involved respects. */
  lemma {:induction false} InsertByFitnessBound(x: Solution, s: seq<Solution>, f: int)
    requires AtMost(s, f) && x.fitness <= f
    ensures AtMost(InsertByFitness(x, s), f)
    decreases |s|
  {
    if |s| > 0 && Better(s[0], x) {
      InsertByFitnessBound(x, s[1..], f);
      var r' := InsertByFitness(x, s[1..]);
      assert InsertByFitness(x, s) == [s[0]] + r';
      assert forall i :: 0 < i <= |r'| ==> ([s[0]] + r')[i] == r'[i - 1];
    }
  }

  /** Inserting adds exactly `x` to the solutions. */
  lemma {:induction false} InsertByFitnessPerm(x: Solution, s: seq<Solution>)
    ensures multiset(InsertByFitness(x, s)) == multiset(s) + multiset{x}
    decreases |s|
  {
    if |s| > 0 && Better(s[0], x) {
      InsertByFitnessPerm(x, s[1..]);
      assert s == [s[0]] + s[1..];
    }
  }

  /** Inserting into a list sorted best first keeps it sorted and adds exactly `x`. */
  lemma {:induction false} InsertByFitnessCorrect(x: Solution, s: seq<Solution>)
    requires SortedBest(s)
    ensures SortedBest(InsertByFitness(x, s))
    ensures multiset(InsertByFitness(x, s)) == multiset(s) + multiset{x}
    decreases |s|
  {
    InsertByFitnessPerm(x, s);
    if |s| == 0 {
      assert InsertByFitness(x, s) == [x];
    } else {
      SortedHead(s);
      if !Better(s[0], x) {
        assert InsertByFitness(x, s) == [x] + s;
        ConsSorted(x, s);
      } else {
        InsertByFitnessCorrect(x, s[1..]);
        InsertByFitnessBound(x, s[1..], s[0].fitness);
        assert InsertByFitness(x, s) == [s[0]] + InsertByFitness(x, s[1..]);
        ConsSorted(s[0], InsertByFitness(x, s[1..]));
      }
    }
  }

  /** The sort returns the same solutions, best first. */
  lemma {:induction false} SortSolutionsCorrect(s: seq<Solution>)
    ensures SortedBest(SortSolutions(s)) && multiset(SortSolutions(s)) == multiset(s)
    decreases |s|
  {
    if |s| > 0 {
      SortSolutionsCorrect(s[1..]);
      InsertByFitnessCorrect(s[0], SortSolutions(s[1..]));
      assert s == [s[0]] + s[1..];
    }
  }

  /** After the sort the first solution is one of the fittest: no solution
      of the input has a higher fitness. */
  lemma SortedFirstIsBest(s: seq<Solution>)
    requires 0 < |s|
    ensures SortSolutions(s)[0] in s
    ensures forall i :: 0 <= i < |s| ==> s[i].fitness <= SortSolutions(s)[0].fitness
  {
    var r := SortSolutions(s);
    SortSolutionsCorrect(s);
    assert r[0] in multiset(r);
    forall i | 0 <= i < |s|
      ensures s[i].fitness <= r[0].fitness
    {
      assert s[i] in multiset(s);
      var k :| 0 <= k < |r| && r[k] == s[i];
      if k > 0 {
        assert !Better(r[k], r[0]);
      }
    }
  }

  // ---------------------------------------------------------------- candidates

  /** `removeVisitedVertices` (main_lab5_17.cpp:82-89): `remove_if` then
      `erase`, dropping every candidate found in `visited`. */
  function RemoveVisited(visited: seq<int>, candidates: seq<int>): (r: seq<int>)
    ensures |r| <= |candidates|
    ensures forall x :: x in r <==> x in candidates && x !in visited
    decreases |candidates|
  {
    if |candidates| == 0 then []
    else (if candidates[0] in visited then [] else [candidates[0]]) + RemoveVisited(visited, candidates[1..])
  }

  /** Each kept candidate keeps all its copies; each visited one loses all. */
  lemma {:induction false} RemoveVisitedCount(visited: seq<int>, candidates: seq<int>, x: int)
    ensures multiset(RemoveVisited(visited, candidates))[x] == if x in visited then 0 else multiset(candidates)[x]
    decreases |candidates|
  {
    if |candidates| != 0 {
      assert candidates == [candidates[0]] + candidates[1..];
      RemoveVisitedCount(visited, candidates[1..], x);
    }
  }

  /** The filter works piece by piece, so the kept candidates stay in order. */
  lemma {:induction false} RemoveVisitedConcat(visited: seq<int>, a: seq<int>, b: seq<int>)
    ensures RemoveVisited(visited, a + b) == RemoveVisited(visited, a) + RemoveVisited(visited, b)
    decreases |a|
  {
    if |a| == 0 {
      assert a + b == b;
    } else {
      assert (a + b)[1..] == a[1..] + b;
      RemoveVisitedConcat(visited, a[1..], b);
    }
  }

  /** Nothing visited, nothing removed; a second pass removes nothing more. */
  lemma {:induction false} RemoveVisitedKeeps(visited: seq<int>, candidates: seq<int>)
    requires forall i :: 0 <= i < |candidates| ==> candidates[i] !in visited
    ensures RemoveVisited(visited, candidates) == candidates
    decreases |candidates|
  {
    if |candidates| != 0 {
      RemoveVisitedKeeps(visited, candidates[1..]);
    }
  }

  lemma RemoveVisitedIdempotent(visited: seq<int>, candidates: seq<int>)
    ensures RemoveVisited(visited, RemoveVisited(visited, candidates)) == RemoveVisited(visited, candidates)
  {
    var r := RemoveVisited(visited, candidates);
    forall i | 0 <= i < |r|
      ensures r[i] !in visited
    {
      assert r[i] in r;
    }
    RemoveVisitedKeeps(visited, r);
  }

  /** The loop of `generateVertexCandidates_Random` over the vertices below
      `k`, skipping `x`. */
  function AllBut(x: int, k: int): (r: seq<int>)
    requires 0 <= k
    ensures Ascending(r)
    ensures forall i :: 0 <= i < |r| ==> 0 <= r[i] < k
    ensures forall y :: y in r <==> 0 <= y < k && y != x
    ensures |r| == if 0 <= x < k then k - 1 else k
    decreases k
  {
    if k == 0 then [] else AllBut(x, k - 1) + (if k - 1 != x then [k - 1] else [])
  }

  /** `generateVertexCandidates_Random` (main_lab5_17.cpp:118-127): every
      vertex but the one at `vertexIdx`, in ascending order. The source
      indexes the solution without a check, so the index must be valid. */
  function CandidatesRandom(g: Matrix, solution: seq<int>, vertexIdx: int): (r: seq<int>)
    requires WellFormed(g) && 0 <= vertexIdx < |solution|
    ensures Ascending(r)
    ensures forall y :: y in r <==> IsVertex(g, y) && y != solution[vertexIdx]
    ensures |r| == if IsVertex(g, solution[vertexIdx]) then g.vCount - 1 else g.vCount
  {
    AllBut(solution[vertexIdx], g.vCount)
  }

  /** An ascending list holds each of its members once. */
  lemma {:induction false} AscendingOnce(s: seq<int>, x: int)
    requires Ascending(s)
    ensures multiset(s)[x] == if x in s then 1 else 0
    decreases |s|
  {
    if |s| != 0 {
      assert s == [s[0]] + s[1..];
      AscendingOnce(s[1..], x);
      if x == s[0] {
        assert x !in s[1..];
      }
    }
  }

  /** How many of the first `k` solution positions other than `vertexIdx`
      hold a vertex with an edge to `x`. */
  ghost function Sources(g: Matrix, solution: seq<int>, vertexIdx: int, x: int, k: int): (c: nat)
    requires WellFormed(g) && Vertices(g, solution) && 0 <= k <= |solution|
    ensures c <= k
    decreases k
  {
    if k == 0 then 0
    else
      var here := if k - 1 != vertexIdx && IsVertex(g, x) && Edge(g, solution[k - 1], x) then 1 else 0;
      Sources(g, solution, vertexIdx, x, k - 1) + here
  }

  /** The loop of `generateVertexCandidates_neighbours` over the first `k`
      positions of the solution. */
  function NeighboursOf(g: Matrix, solution: seq<int>, vertexIdx: int, k: int): (r: seq<int>)
    requires WellFormed(g) && Vertices(g, solution) && 0 <= k <= |solution|
    ensures forall x :: multiset(r)[x] == Sources(g, solution, vertexIdx, x, k)
    decreases k
  {
    if k == 0 then []
    else
      var front := NeighboursOf(g, solution, vertexIdx, k - 1);
      var more := if k - 1 != vertexIdx then Neighbours(g, solution[k - 1]) else [];
      assert forall x :: multiset(more)[x] == if k - 1 != vertexIdx && IsVertex(g, x) && Edge(g, solution[k - 1], x) then 1 else 0 by {
        forall x
          ensures multiset(more)[x] == if k - 1 != vertexIdx && IsVertex(g, x) && Edge(g, solution[k - 1], x) then 1 else 0
        {
          if k - 1 != vertexIdx {
            AscendingOnce(more, x);
          }
        }
      }
      front + more
  }

  /** `generateVertexCandidates_neighbours` (main_lab5_17.cpp:133-145): the
      neighbour lists of every solution vertex but the one at `vertexIdx`,
      in solution order, duplicates kept; a vertex appears once for each
      such solution vertex it neighbours. Every solution entry must be a
      vertex, as `getNeighbours` indexes the matrix with it. */
  function CandidatesNeighbours(g: Matrix, solution: seq<int>, vertexIdx: int): (r: seq<int>)
    requires WellFormed(g) && Vertices(g, solution)
    ensures forall x :: multiset(r)[x] == Sources(g, solution, vertexIdx, x, |solution|)
  {
    NeighboursOf(g, solution, vertexIdx, |solution|)
  }

  /** A candidate is a vertex that some other solution vertex has an edge to. */
  lemma {:induction false} SourcesPositive(g: Matrix, solution: seq<int>, vertexIdx: int, x: int, k: int)
    requires WellFormed(g) && Vertices(g, solution) && 0 <= k <= |solution|
    ensures 0 < Sources(g, solution, vertexIdx, x, k) <==>
      IsVertex(g, x) && exists i :: 0 <= i < k && i != vertexIdx && Edge(g, solution[i], x)
    decreases k
  {
    if k != 0 {
      SourcesPositive(g, solution, vertexIdx, x, k - 1);
    }
  }

  lemma CandidatesNeighboursMembers(g: Matrix, solution: seq<int>, vertexIdx: int, x: int)
    requires WellFormed(g) && Vertices(g, solution)
    ensures x in CandidatesNeighbours(g, solution, vertexIdx) <==>
      IsVertex(g, x) && exists i :: 0 <= i < |solution| && i != vertexIdx && Edge(g, solution[i], x)
  {
    SourcesPositive(g, solution, vertexIdx, x, |solution|);
  }
}

/** The Domineering board `CPlayground` (Lab_6/Domineering/cplayground.cpp,
    cplayground.h): for each of the two players the moves still open and
    the moves made. A move is the pair of cell indices a domino covers on
    the row-major `size x size` board; player 0 places horizontal
    dominoes and player 1 vertical ones. */
module Playground {
  import opened Arith

  type Move = (int, int)

  datatype Direction = Horizontal | Vertical

  /** `mTableSize`, `mPlayersCount`, `mAvailableMoves` and `mMoves`. */
  datatype Board = Board(size: int, playersCount: int, available: seq<seq<Move>>, moves: seq<seq<Move>>)

  // ---------------------------------------------------------------- open moves

  /** How often the outer and inner loops of `populateOpenMoves` run
      (cplayground.cpp:10-11); a bound below zero runs the loop no times. */
  function Rows(n: int, dir: Direction): nat {
    var y := if dir == Horizontal then n else n - 1;
    if y < 0 then 0 else y
  }

  function Cols(n: int, dir: Direction): nat {
    var x := if dir == Horizontal then n - 1 else n;
    if x < 0 then 0 else x
  }

  /** The domino at row `i`, column `j` (cplayground.cpp:15-16). */
  function Domino(n: int, dir: Direction, i: int, j: int): Move {
    (i * n + j, i * n + j + Step(n, dir))
  }

  /** The step from a domino's first cell to its second (cplayground.cpp:9). */
  function Step(n: int, dir: Direction): int {
    if dir == Horizontal then 1 else n
  }

  /** The inner loop: row `i` up to column `j`, in column order. */
  function RowMoves(n: int, dir: Direction, i: int, j: nat): (r: seq<Move>)
    ensures |r| == j
    ensures forall b :: 0 <= b < j ==> r[b] == Domino(n, dir, i, b)
    decreases j
  {
    if j == 0 then [] else RowMoves(n, dir, i, j - 1) + [Domino(n, dir, i, j - 1)]
  }

  /** The outer loop: the first `i` rows, one after the other. */
  function RowsMoves(n: int, dir: Direction, i: nat): seq<Move>
    decreases i
  {
    if i == 0 then [] else RowsMoves(n, dir, i - 1) + RowMoves(n, dir, i - 1, Cols(n, dir))
  }

  /** `populateOpenMoves(tableSize, list, dir)` (cplayground.cpp:7-19). */
  function OpenMoves(n: int, dir: Direction): seq<Move> {
    RowsMoves(n, dir, Rows(n, dir))
  }

  /** The first `i` rows hold `i` times the row length. */
  lemma {:induction false} RowsMovesLength(n: int, dir: Direction, i: nat)
    ensures |RowsMoves(n, dir, i)| == i * Cols(n, dir)
    decreases i
  {
    if i > 0 {
      RowsMovesLength(n, dir, i - 1);
      var x := Cols(n, dir);
      assert (i - 1) * x + x == i * x;
    }
  }

  /** Row `i` starts at cell `i * n`: its dominoes have first cells
      `i * n + j` for the columns `j`. */
  lemma RowCells(n: int, dir: Direction, i: int, base: int)
    requires base == i * n
    ensures var row := RowMoves(n, dir, i, Cols(n, dir));
      forall j :: 0 <= j < |row| ==> row[j] == (base + j, base + j + Step(n, dir))
  {
  }

  /** On a board of size at least one the first `i` rows list dominoes in
      strictly increasing order of their first cell, all before row `i`,
      which starts at cell `top`. */
  lemma {:induction false} RowsMovesAscending(n: int, dir: Direction, i: nat, top: int)
    requires 1 <= n && top == i * n
    ensures var r := RowsMoves(n, dir, i);
      (forall k, l :: 0 <= k < l < |r| ==> r[k].0 < r[l].0) &&
      (forall k :: 0 <= k < |r| ==> 0 <= r[k].0 < top)
    decreases i
  {
    if i > 0 {
      var front := RowsMoves(n, dir, i - 1);
      var row := RowMoves(n, dir, i - 1, Cols(n, dir));
      var base := top - n;
      PreviousRow(i, n, top);
      RowsMovesAscending(n, dir, i - 1, base);
      assert var r := RowsMoves(n, dir, i - 1); forall k :: 0 <= k < |r| ==> 0 <= r[k].0 < base;
      RowAscending(n, dir, i - 1, base);
      AscendingConcat(front, row);
      assert RowsMoves(n, dir, i) == front + row;
    }
  }

  /** Row `i - 1` starts `n` cells before row `i`, at a cell not below 0. */
  lemma PreviousRow(i: int, n: int, top: int)
    requires 1 <= i && 1 <= n && top == i * n
    ensures top - n == (i - 1) * n && 0 <= top - n
  {
    MulMono(1, i, n);
  }

  /** Row `i` lists its dominoes in increasing order, all inside the row. */
  lemma RowAscending(n: int, dir: Direction, i: int, base: int)
    requires base == i * n && 1 <= n
    ensures var row := RowMoves(n, dir, i, Cols(n, dir));
      (forall k, l :: 0 <= k < l < |row| ==> row[k].0 < row[l].0) &&
      (forall k :: 0 <= k < |row| ==> base <= row[k].0 < base + n)
  {
    RowCells(n, dir, i, base);
  }

  /** Two lists ascending in their first cells, all of the first below
      all of the second, make an ascending list. */
  lemma AscendingConcat(a: seq<Move>, b: seq<Move>)
    requires forall k, l :: 0 <= k < l < |a| ==> a[k].0 < a[l].0
    requires forall k, l :: 0 <= k < l < |b| ==> b[k].0 < b[l].0
    requires forall k, l :: 0 <= k < |a| && 0 <= l < |b| ==> a[k].0 < b[l].0
    ensures forall k, l :: 0 <= k < l < |a + b| ==> (a + b)[k].0 < (a + b)[l].0
  {
  }

  /** The first `i` vertical rows are the moves `(k, k + n)` for `k` from 0. */
  lemma {:induction false} VerticalRows(n: int, i: nat)
    ensures var r := RowsMoves(n, Vertical, i);
      forall k :: 0 <= k < |r| ==> r[k] == (k, k + n)
    decreases i
  {
    if i > 0 {
      var x := Cols(n, Vertical);
      var front := RowsMoves(n, Vertical, i - 1);
      var row := RowMoves(n, Vertical, i - 1, x);
      VerticalRows(n, i - 1);
      RowsMovesLength(n, Vertical, i - 1);
      var base := (i - 1) * n;
      RowCells(n, Vertical, i - 1, base);
      assert |front| == base || x == 0;
      assert RowsMoves(n, Vertical, i) == front + row;
    }
  }

  /** The vertical list of a board of size `n` is the `n * (n - 1)` moves
      `(k, k + n)` for `k` from 0 up, in that order (cplayground.cpp:7-19). */
  lemma VerticalMoves(n: int)
    ensures var r := OpenMoves(n, Vertical);
      && |r| == (if 1 <= n then n * (n - 1) else 0)
      && forall k :: 0 <= k < |r| ==> r[k] == (k, k + n)
  {
    RowsMovesLength(n, Vertical, Rows(n, Vertical));
    VerticalRows(n, Rows(n, Vertical));
    if 1 <= n {
      assert (n - 1) * n == n * (n - 1);
    }
  }

  /** The first `i` horizontal rows hold exactly the moves `(x, x + 1)`
      with `x` below `top`, the start of row `i`, and not in the last column. */
  lemma {:induction false} HorizontalRows(n: int, i: nat, top: int)
    requires 1 <= n && top == i * n
    ensures var r := RowsMoves(n, Horizontal, i);
      forall x, y :: (x, y) in r <==> 0 <= x < top && x % n < n - 1 && y == x + 1
    decreases i
  {
    if i > 0 {
      var front := RowsMoves(n, Horizontal, i - 1);
      var row := RowMoves(n, Horizontal, i - 1, n - 1);
      var base := top - n;
      PreviousRow(i, n, top);
      HorizontalRows(n, i - 1, base);
      HorizontalRow(n, i - 1, base);
      assert RowsMoves(n, Horizontal, i) == front + row;
    }
  }

  /** Horizontal row `i` holds exactly the moves `(x, x + 1)` with `x` in
      the row and not in its last column. */
  lemma HorizontalRow(n: int, i: int, base: int)
    requires base == i * n && 1 <= n
    ensures var row := RowMoves(n, Horizontal, i, n - 1);
      forall x, y :: (x, y) in row <==> base <= x < base + n && x % n < n - 1 && y == x + 1
  {
    var row := RowMoves(n, Horizontal, i, n - 1);
    RowCells(n, Horizontal, i, base);
    forall x, y | (x, y) in row
      ensures base <= x < base + n && x % n < n - 1 && y == x + 1
    {
      var j :| 0 <= j < |row| && row[j] == (x, y);
      DivModUnique(x, n, i, j);
    }
    forall x, y | base <= x < base + n && x % n < n - 1 && y == x + 1
      ensures (x, y) in row
    {
      DivModUnique(x, n, i, x - base);
      assert row[x - base] == (x, y);
    }
  }

  /** The horizontal list of a board of size `n` is the `n * (n - 1)` moves
      `(x, x + 1)` with `x` a cell not in the last column, in increasing
      order (cplayground.cpp:7-19). */
  lemma HorizontalMoves(n: int)
    requires 1 <= n
    ensures var r := OpenMoves(n, Horizontal);
      && |r| == n * (n - 1)
      && (forall x, y :: (x, y) in r <==> 0 <= x < n * n && x % n < n - 1 && y == x + 1)
      && (forall k, l :: 0 <= k < l < |r| ==> r[k].0 < r[l].0)
  {
    RowsMovesLength(n, Horizontal, n);
    HorizontalRows(n, n, n * n);
    RowsMovesAscending(n, Horizontal, n, n * n);
  }

  // ---------------------------------------------------------------- the board

  /** `CPlayground(tableSize)` (cplayground.cpp:30-41). */
  function NewBoard(n: int): (b: Board)
    ensures Shaped(b) && b.playersCount == 2 && b.size == n
  {
    Board(n, 2, [OpenMoves(n, Horizontal), OpenMoves(n, Vertical)], [[], []])
  }

  /** One list of open moves and one history per player. */
  ghost predicate Shaped(b: Board) {
    |b.available| == b.playersCount && |b.moves| == b.playersCount
  }

  /** `getNextPlayerId` (cplayground.cpp:53-56). */
  function NextPlayer(b: Board, p: int): (q: int)
    ensures 0 <= p < b.playersCount ==> 0 <= q < b.playersCount && q == (p + 1) % b.playersCount
  {
    if p + 1 == b.playersCount then 0 else p + 1
  }

  /** `getAvailableMoves` (cplayground.cpp:58-68); its assert demands a
      player index inside the list. */
  function AvailableMoves(b: Board, p: int): seq<Move>
    requires 0 <= p < |b.available|
  {
    b.available[p]
  }

  /** `getMoves` (cplayground.cpp:70-74). */
  function MovesOf(b: Board, p: int): seq<Move>
    requires 0 <= p < |b.moves|
  {
    b.moves[p]
  }

  /** The lambda of `removeMoves` (cplayground.cpp:23-25): `x` shares a
      cell with `m`. */
  predicate Overlaps(x: Move, m: Move) {
    x.0 == m.0 || x.1 == m.0 || x.0 == m.1 || x.1 == m.1
  }

  /** `removeMoves` (cplayground.cpp:21-27): the erase-remove idiom drops
      every move sharing a cell with `m` and keeps the others in order. */
  function RemoveMoves(ms: seq<Move>, m: Move): (r: seq<Move>)
    ensures |r| <= |ms|
    ensures forall x :: x in r <==> x in ms && !Overlaps(x, m)
    decreases |ms|
  {
    if |ms| == 0 then []
    else (if Overlaps(ms[0], m) then [] else [ms[0]]) + RemoveMoves(ms[1..], m)
  }

  /** `makeMove` (cplayground.cpp:76-83): record the move in the player's
      history and strike every overlapping move from every open list. */
  function MakeMove(b: Board, p: int, m: Move): (r: Board)
    requires 0 <= p < |b.moves|
    ensures r.size == b.size && r.playersCount == b.playersCount
    ensures |r.available| == |b.available| && |r.moves| == |b.moves|
  {
    b.(available := seq(|b.available|, q requires 0 <= q < |b.available| => RemoveMoves(b.available[q], m)),
       moves := b.moves[p := b.moves[p] + [m]])
  }

  /** `std::find` (cplayground.cpp:88): the first index holding `m`, or
      the length when there is none. */
  function Find(ms: seq<Move>, m: Move): (k: nat)
    ensures k <= |ms| && (k < |ms| ==> ms[k] == m)
    ensures forall j :: 0 <= j < k ==> ms[j] != m
    decreases |ms|
  {
    if |ms| == 0 || ms[0] == m then 0 else 1 + Find(ms[1..], m)
  }

  /** `isMoveValid` (cplayground.cpp:85-90). */
  function IsMoveValid(b: Board, p: int, m: Move): (ok: bool)
    requires 0 <= p < |b.available|
    ensures ok <==> m in b.available[p]
  {
    Find(b.available[p], m) != |b.available[p]|
  }

  // ---------------------------------------------------------------- properties

  /** The filter of `removeMoves` distributes over concatenation and keeps
      or drops each move on its own: it is the order-keeping filter. */
  lemma {:induction false} RemoveMovesConcat(a: seq<Move>, c: seq<Move>, m: Move)
    ensures RemoveMoves(a + c, m) == RemoveMoves(a, m) + RemoveMoves(c, m)
    decreases |a|
  {
    if |a| == 0 {
      assert a + c == c;
    } else {
      assert (a + c)[1..] == a[1..] + c;
      RemoveMovesConcat(a[1..], c, m);
    }
  }

  lemma RemoveMovesSingle(x: Move, m: Move)
    ensures RemoveMoves([x], m) == if Overlaps(x, m) then [] else [x]
  {
    assert [x][1..] == [];
  }

  /** Striking the same move twice strikes nothing more. */
  lemma {:induction false} RemoveMovesIdempotent(ms: seq<Move>, m: Move)
    ensures RemoveMoves(RemoveMoves(ms, m), m) == RemoveMoves(ms, m)
    decreases |ms|
  {
    if |ms| != 0 {
      var head := if Overlaps(ms[0], m) then [] else [ms[0]];
      RemoveMovesConcat(head, RemoveMoves(ms[1..], m), m);
      if !Overlaps(ms[0], m) {
        RemoveMovesSingle(ms[0], m);
      }
      RemoveMovesIdempotent(ms[1..], m);
    }
  }

  /** `makeMove(p, m)` appends `m` to player `p`'s history alone, and leaves
      each open list with exactly its moves that do not touch `m`, in order. */
  lemma MakeMoveEffect(b: Board, p: int, m: Move)
    requires Shaped(b) && 0 <= p < b.playersCount
    ensures var r := MakeMove(b, p, m);
      && Shaped(r)
      && r.moves[p] == b.moves[p] + [m]
      && (forall q :: 0 <= q < |b.moves| && q != p ==> r.moves[q] == b.moves[q])
      && (forall q, x :: 0 <= q < |b.available| ==>
            (x in r.available[q] <==> x in b.available[q] && !Overlaps(x, m)))
  {
  }

  /** After `makeMove(p, m)` no player may play `m`. */
  lemma MakeMoveInvalidates(b: Board, p: int, m: Move)
    requires Shaped(b) && 0 <= p < b.playersCount
    ensures forall q :: 0 <= q < b.playersCount ==> !IsMoveValid(MakeMove(b, p, m), q, m)
  {
    var r := MakeMove(b, p, m);
    forall q | 0 <= q < b.playersCount
      ensures m !in r.available[q]
    {
      assert r.available[q] == RemoveMoves(b.available[q], m);
    }
  }

  /** Open-move lists never grow: each is a sub-list of what it was. */
  lemma MakeMoveShrinks(b: Board, p: int, m: Move)
    requires Shaped(b) && 0 <= p < b.playersCount
    ensures var r := MakeMove(b, p, m);
      forall q :: 0 <= q < b.playersCount ==>
        |r.available[q]| <= |b.available[q]| && (forall x :: x in r.available[q] ==> x in b.available[q])
  {
    var r := MakeMove(b, p, m);
    forall q | 0 <= q < b.playersCount
      ensures |r.available[q]| <= |b.available[q]|
    {
      assert r.available[q] == RemoveMoves(b.available[q], m);
    }
  }

  /** No open move touches a cell already covered by a move made. */
  ghost predicate Fresh(b: Board) {
    forall q, i, s, j ::
      (0 <= q < |b.available| && 0 <= i < |b.available[q]| && 0 <= s < |b.moves| && 0 <= j < |b.moves[s]|) ==>
        !Overlaps(b.available[q][i], b.moves[s][j])
  }

  /** A new board has every move open and none made. */
  lemma NewBoardFresh(n: int)
    ensures Fresh(NewBoard(n))
    ensures NewBoard(n).moves == [[], []]
    ensures NewBoard(n).available == [OpenMoves(n, Horizontal), OpenMoves(n, Vertical)]
  {
  }

  /** `makeMove` keeps the board fresh, whatever move is made. */
  lemma MakeMoveFresh(b: Board, p: int, m: Move)
    requires Shaped(b) && 0 <= p < b.playersCount && Fresh(b)
    ensures Fresh(MakeMove(b, p, m))
  {
    var r := MakeMove(b, p, m);
    forall q, i, s, j | 0 <= q < |r.available| && 0 <= i < |r.available[q]| &&
      0 <= s < |r.moves| && 0 <= j < |r.moves[s]|
      ensures !Overlaps(r.available[q][i], r.moves[s][j])
    {
      var x := r.available[q][i];
      assert r.available[q] == RemoveMoves(b.available[q], m);
      assert x in b.available[q] && !Overlaps(x, m);
      if s == p && j == |b.moves[p]| {
        assert r.moves[s][j] == m;
      } else {
        assert r.moves[s][j] == b.moves[s][j];
      }
    }
  }

  /** In a fresh board no move that was made can be played again. */
  lemma FreshForbidsReplay(b: Board, q: int, s: int, j: int)
    requires Shaped(b) && Fresh(b) && 0 <= q < b.playersCount && 0 <= s < b.playersCount && 0 <= j < |b.moves[s]|
    ensures !IsMoveValid(b, q, b.moves[s][j])
  {
    var m := b.moves[s][j];
    forall i | 0 <= i < |b.available[q]|
      ensures b.available[q][i] != m
    {
      assert !Overlaps(b.available[q][i], m);
    }
  }

  /** `getNextPlayerId` alternates between the two players of a board. */
  lemma NextPlayerAlternates(n: int)
    ensures NextPlayer(NewBoard(n), 0) == 1 && NextPlayer(NewBoard(n), 1) == 0
  {
  }
}

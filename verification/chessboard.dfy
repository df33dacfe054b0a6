/** The static helpers of the eight-queens `ChessBoard` (Lab_2/Lab_2/Lab_2.cpp):
    a position is a list of eight cell indices `0..63` (cell `c` is
    column `c % 8`, row `c / 8`), a board state is 64 cells each holding
    `0` or the number `1..8` of the queen on it, and a 4096-entry table
    says which pairs of cells lie on a common line. */
module ChessBoard {
  import opened Arith

  /** `uint8_t`. */
  type Byte = b: int | 0 <= b < 256

  function Abs(x: int): nat {
    if x < 0 then -x else x
  }

  /** Two cells share a column, a row or a diagonal. */
  predicate Attacks(c1: int, c2: int) {
    var x1, y1, x2, y2 := c1 % 8, c1 / 8, c2 % 8, c2 / 8;
    x1 == x2 || y1 == y2 || Abs(x1 - x2) == Abs(y1 - y2)
  }

  /** Eight queens, each on a cell of the board. */
  ghost predicate OnBoard(q: seq<Byte>) {
    |q| == 8 && forall i :: 0 <= i < 8 ==> q[i] < 64
  }

  ghost predicate Distinct(q: seq<Byte>) {
    forall i, j :: 0 <= i < j < |q| ==> q[i] != q[j]
  }

  // ---------------------------------------------------------------- tables

  /** `init_crossroads` (Lab_2.cpp:128-142): entry `q1 * 64 + q2` for every
      pair of cells. */
  function InitCrossroads(): (t: seq<bool>)
    ensures |t| == 4096
  {
    seq(4096, k => Attacks(k / 64, k % 64))
  }

  /** The entry for cells `q1` and `q2` is the attack relation on them, and
      the table is symmetric with a true diagonal. */
  lemma CrossroadsAt(q1: int, q2: int)
    requires 0 <= q1 < 64 && 0 <= q2 < 64
    ensures InitCrossroads()[q1 * 64 + q2] == Attacks(q1, q2)
    ensures InitCrossroads()[q1 * 64 + q2] == InitCrossroads()[q2 * 64 + q1]
    ensures InitCrossroads()[q1 * 64 + q1]
  {
    DivModUnique(q1 * 64 + q2, 64, q1, q2);
    DivModUnique(q2 * 64 + q1, 64, q2, q1);
    DivModUnique(q1 * 64 + q1, 64, q1, q1);
  }

  /** Cells written as column and row: the attack relation is the usual
      one of chess queens. */
  lemma AttacksCells(x1: int, y1: int, x2: int, y2: int)
    requires 0 <= x1 < 8 && 0 <= x2 < 8 && 0 <= y1 && 0 <= y2
    ensures Attacks(y1 * 8 + x1, y2 * 8 + x2) <==> x1 == x2 || y1 == y2 || Abs(x1 - x2) == Abs(y1 - y2)
  {
    DivModUnique(y1 * 8 + x1, 8, y1, x1);
    DivModUnique(y2 * 8 + x2, 8, y2, x2);
  }

  /** `init_child_counts` (Lab_2.cpp:144-154): with `d` queens placed,
      `64 - d` cells are left for the next one; none after the eighth. */
  function InitChildCounts(): (c: seq<int>)
    ensures |c| == 9 && c[8] == 0
    ensures forall d :: 0 <= d < 8 ==> c[d] + d == 64
    ensures forall d :: 0 <= d < 8 ==> c[d + 1] < c[d]
  {
    seq(9, d => if d < 8 then 64 - d else 0)
  }

  /** `is_input_valid` (Lab_2.cpp:316-319). */
  function IsInputValid<T>(queens: seq<T>): (ok: bool)
    ensures ok <==> |queens| == 8
  {
    |queens| == 8
  }

  // ---------------------------------------------------------------- states

  /** Cell `c` holds the number of a queen below `k` standing on it. */
  ghost predicate Names(q: seq<Byte>, s: seq<Byte>, c: int, k: int)
    requires |q| == 8 && |s| == 64 && 0 <= c < 64 && s[c] != 0
  {
    s[c] <= k && s[c] <= 8 && q[s[c] - 1] == c
  }

  /** The cell of queen `i` holds `i + 1` or the number of a later queen. */
  ghost predicate Latest(q: seq<Byte>, s: seq<Byte>, i: int)
    requires OnBoard(q) && |s| == 64 && 0 <= i < 8
  {
    i < s[q[i]]
  }

  /** The loop of `queens1d_to_state` over the first `k` queens: queen `i`
      writes `i + 1` into its cell, a later queen on the same cell
      overwriting an earlier one. */
  function PlaceUpTo(q: seq<Byte>, k: nat): (s: seq<Byte>)
    requires OnBoard(q) && k <= 8
    ensures |s| == 64
    ensures forall c :: 0 <= c < 64 ==> (s[c] == 0 <==> forall i :: 0 <= i < k ==> q[i] != c)
    ensures forall c :: 0 <= c < 64 && s[c] != 0 ==> Names(q, s, c, k)
    ensures forall i :: 0 <= i < k ==> Latest(q, s, i)
    decreases |q| + k
  {
    if k == 0 then seq(64, _ => 0)
    else
      var prev := PlaceUpTo(q, k - 1);
      var s := prev[q[k - 1] := k];
      assert forall i :: 0 <= i < k ==> Latest(q, s, i) by {
        forall i | 0 <= i < k - 1
          ensures Latest(q, s, i)
        {
          assert Latest(q, prev, i);
        }
      }
      s
  }

  /** `queens1d_to_state` (Lab_2.cpp:99-104): the board that the
      by-reference `state` holds afterwards. */
  function QueensToState(q: seq<Byte>): (s: seq<Byte>)
    requires OnBoard(q)
    ensures |s| == 64 && forall c :: 0 <= c < 64 ==> s[c] <= 8
  {
    PlaceUpTo(q, 8)
  }

  /** Entry `j` is still `0` or the index of a cell below `m` holding
      queen number `j + 1`. */
  ghost predicate Found(s: seq<Byte>, q: seq<Byte>, j: int, m: int)
    requires |s| == 64 && |q| == 8 && 0 <= j < 8
  {
    q[j] == 0 || (q[j] < m && q[j] < 64 && s[q[j]] == j + 1)
  }

  /** The entry for the number in cell `c` is `c` or a later cell. */
  ghost predicate Recorded(s: seq<Byte>, q: seq<Byte>, c: int)
    requires |s| == 64 && |q| == 8 && 0 <= c < 64 && 1 <= s[c] <= 8
  {
    c <= q[s[c] - 1]
  }

  /** The loop of `state_to_queens1d` over the cells below `m`: a cell
      holding queen number `n` writes its index into entry `n - 1`. */
  function TakeUpTo(s: seq<Byte>, m: nat): (q: seq<Byte>)
    requires |s| == 64 && m <= 64 && forall c :: 0 <= c < 64 ==> s[c] <= 8
    ensures |q| == 8
    ensures forall j :: 0 <= j < 8 ==> Found(s, q, j, m)
    ensures forall c :: 0 <= c < m && s[c] != 0 ==> Recorded(s, q, c)
    decreases |s| + m
  {
    if m == 0 then seq(8, _ => 0)
    else
      var prev := TakeUpTo(s, m - 1);
      var q := if s[m - 1] != 0 then prev[s[m - 1] - 1 := m - 1] else prev;
      assert forall j :: 0 <= j < 8 ==> Found(s, q, j, m) by {
        forall j | 0 <= j < 8
          ensures Found(s, q, j, m)
        {
          assert Found(s, prev, j, m - 1);
        }
      }
      q
  }

  /** `state_to_queens1d` (Lab_2.cpp:106-114). A cell number above 8 would
      write outside the array, so every cell must hold at most 8. */
  function StateToQueens(s: seq<Byte>): (q: seq<Byte>)
    requires |s| == 64 && forall c :: 0 <= c < 64 ==> s[c] <= 8
    ensures |q| == 8 && forall j :: 0 <= j < 8 ==> q[j] < 64
  {
    var q := TakeUpTo(s, 64);
    assert forall j :: 0 <= j < 8 ==> q[j] < 64 by {
      forall j | 0 <= j < 8
        ensures q[j] < 64
      {
        assert Found(s, q, j, 64);
      }
    }
    q
  }

  /** Eight queens on eight different cells survive the trip through the
      64-cell board. */
  /** `is_input_valid` (Lab_2.cpp:316-319) on a list of on-board cells
      accepts exactly the lists `queens1d_to_state` takes, and a valid list
      of distinct cells survives the trip through the board and back. */
  lemma ValidInputRoundTrip(q: seq<Byte>)
    requires forall i :: 0 <= i < |q| ==> q[i] < 64
    ensures IsInputValid(q) <==> OnBoard(q)
    ensures IsInputValid(q) && Distinct(q) ==> StateToQueens(QueensToState(q)) == q
  {
    if IsInputValid(q) && Distinct(q) {
      StateRoundTrip(q);
    }
  }

  lemma StateRoundTrip(q: seq<Byte>)
    requires OnBoard(q) && Distinct(q)
    ensures StateToQueens(QueensToState(q)) == q
  {
    var s := QueensToState(q);
    var r := StateToQueens(s);
    forall j | 0 <= j < 8
      ensures r[j] == q[j]
    {
      var c := q[j];
      assert Latest(q, s, j) && Names(q, s, c, 8);
      assert s[c] == j + 1;
      assert Recorded(s, r, c) && Found(s, r, j, 64);
      if r[j] != 0 {
        assert Names(q, s, r[j], 8);
      }
    }
  }

  /** Two queens on one cell: the board keeps only the later one, and the
      trip back loses the earlier one. */
  lemma SharedCellLost()
    ensures var q: seq<Byte> := [1, 1, 2, 3, 4, 5, 6, 7];
      StateToQueens(QueensToState(q))[0] == 0
  {
    var q: seq<Byte> := [1, 1, 2, 3, 4, 5, 6, 7];
    var s := QueensToState(q);
    var r := StateToQueens(s);
    assert Names(q, s, 1, 8) && Latest(q, s, 1);
    forall c | 0 <= c < 64 && s[c] != 0
      ensures s[c] != 1
    {
      assert Names(q, s, c, 8);
    }
    assert Found(s, r, 0, 64);
  }

  // ---------------------------------------------------------------- check

  /** The table entry for the cells of queens `i` and `k`. */
  function Crosses(cr: seq<bool>, q: seq<Byte>, i: int, k: int): bool
    requires |cr| == 4096 && OnBoard(q) && 0 <= i < 8 && 0 <= k < 8
  {
    var a: int := q[i];
    cr[a * 64 + q[k]]
  }

  /** Queen `i` is on a line with an earlier queen. */
  ghost predicate HitsEarlier(cr: seq<bool>, q: seq<Byte>, i: int)
    requires |cr| == 4096 && OnBoard(q) && 0 <= i < 8
  {
    exists k :: 0 <= k < i && Crosses(cr, q, i, k)
  }

  /** The inner loop of `check_state`: queen `i` is on a line with one of
      the queens below `j`. */
  function HitBelow(cr: seq<bool>, q: seq<Byte>, i: int, j: int): (b: bool)
    requires |cr| == 4096 && OnBoard(q) && 0 <= i < 8 && 0 <= j <= 8
    ensures b <==> exists k :: 0 <= k < j && Crosses(cr, q, i, k)
    decreases |q| + j
  {
    if j == 0 then false else Crosses(cr, q, i, j - 1) || HitBelow(cr, q, i, j - 1)
  }

  /** The outer loop of `check_state` over the queens below `n`, last first. */
  function CheckBelow(cr: seq<bool>, q: seq<Byte>, n: int): (r: int)
    requires |cr| == 4096 && OnBoard(q) && 0 <= n <= 8
    ensures 0 <= r <= n
    ensures r != 0 ==> HitsEarlier(cr, q, r - 1)
    ensures forall i, k :: r <= i < n && 0 <= k < i ==> !Crosses(cr, q, i, k)
    decreases |q| + n
  {
    if n == 0 then 0 else if HitBelow(cr, q, n - 1, n - 1) then n else CheckBelow(cr, q, n - 1)
  }

  /** `check_state` (Lab_2.cpp:116-126): `i + 1` for the last queen `i`
      that the table pairs with an earlier queen, `0` when there is none. */
  function CheckState(cr: seq<bool>, q: seq<Byte>): (r: int)
    requires |cr| == 4096 && OnBoard(q)
    ensures 0 <= r <= 8
    ensures r == 0 <==> forall i, k :: 0 <= k < i < 8 ==> !Crosses(cr, q, i, k)
  {
    CheckBelow(cr, q, 8)
  }

  /** With the table of `init_crossroads`, `check_state` gives `0` exactly
      for eight queens none of which attacks another, and two queens on
      one cell count as an attack. */
  lemma CheckStateSolved(q: seq<Byte>)
    requires OnBoard(q)
    ensures CheckState(InitCrossroads(), q) == 0 <==> forall i, k :: 0 <= k < i < 8 ==> !Attacks(q[i], q[k])
    ensures CheckState(InitCrossroads(), q) == 0 ==> Distinct(q)
  {
    forall i, k | 0 <= k < i < 8
      ensures Crosses(InitCrossroads(), q, i, k) == Attacks(q[i], q[k])
    {
      CrossroadsAt(q[i], q[k]);
    }
    forall i, k | 0 <= i < k < 8 && q[i] == q[k]
      ensures Attacks(q[k], q[i])
    {
    }
  }
}

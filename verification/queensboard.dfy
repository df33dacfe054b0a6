/** The hill-climbing board `Board` of Lab_2 (Lab_2/Lab_2/Lab_2.cpp:551-643):
    `queens[row]` is the column of the queen in `row`, the eight columns
    pack into one 32-bit word, and a board's successors move one queen
    within its row. */
module QueensBoard {
  import opened Maybe
  import opened Arith
  import opened ChessBoard

  /** `Board::N`. */
  const N := 8

  /** `point`: an `(x, y)` pair of bytes. */
  type Point = (Byte, Byte)

  // ---------------------------------------------------------------- packing

  /** A byte widened to a 32-bit word. */
  function Word(b: Byte): bv32 {
    b as bv8 as bv32
  }

  /** `array2state` (Lab_2.cpp:556-561): `queens[0]` in the top four bits,
      `queens[7]` in the bottom four. The shifts act on the promoted `int`
      and the result is kept as `uint32_t`; the model computes them on 32
      bits, so a byte of 16 or more spills into the fields above it just
      as the `|` of the source lets it. */
  function ArrayToState(q: seq<Byte>): (s: bv32)
    requires |q| == 8
  {
    (Word(q[0]) << 28) | (Word(q[1]) << 24) | (Word(q[2]) << 20) | (Word(q[3]) << 16) |
    (Word(q[4]) << 12) | (Word(q[5]) << 8) | (Word(q[6]) << 4) | Word(q[7])
  }

  /** Bits `shift .. shift + 3` of `s`. */
  function Nibble(s: bv32, shift: bv32): (n: Byte)
    requires shift <= 28
    ensures n < 16
  {
    ((s >> shift) & 0x0F) as bv8 as int
  }

  /** `state2array` (Lab_2.cpp:563-577). */
  function StateToArray(s: bv32): (q: seq<Byte>)
    ensures |q| == 8 && forall i :: 0 <= i < 8 ==> q[i] < 16
  {
    [Nibble(s, 28), Nibble(s, 24), Nibble(s, 20), Nibble(s, 16),
     Nibble(s, 12), Nibble(s, 8), Nibble(s, 4), Nibble(s, 0)]
  }

  lemma BitsBack(x: bv8)
    ensures x as int as bv8 == x
  {
  }

  lemma ByteBack(b: Byte)
    requires b < 16
    ensures b as bv8 as int == b && Word(b) < 16
  {
  }

  /** A nibble read back as a word is the masked word. */
  lemma NibbleWord(s: bv32, shift: bv32)
    requires shift <= 28
    ensures Word(Nibble(s, shift)) == (s >> shift) & 0x0F
  {
    BitsBack(((s >> shift) & 0x0F) as bv8);
  }

  /** A word is the sum of its eight nibbles in place. */
  lemma Fields(s: bv32)
    ensures (((s >> 28) & 0x0F) << 28) | (((s >> 24) & 0x0F) << 24) | (((s >> 20) & 0x0F) << 20) |
      (((s >> 16) & 0x0F) << 16) | (((s >> 12) & 0x0F) << 12) | (((s >> 8) & 0x0F) << 8) |
      (((s >> 4) & 0x0F) << 4) | (s & 0x0F) == s
  {
  }

  /** Every 32-bit word survives unpacking and packing. */
  lemma StateRoundTrip(s: bv32)
    ensures ArrayToState(StateToArray(s)) == s
  {
    NibbleWord(s, 28);
    NibbleWord(s, 24);
    NibbleWord(s, 20);
    NibbleWord(s, 16);
    NibbleWord(s, 12);
    NibbleWord(s, 8);
    NibbleWord(s, 4);
    NibbleWord(s, 0);
    Fields(s);
  }

  /** Eight values below 16 placed side by side can each be read back. */
  lemma PackFields(a0: bv32, a1: bv32, a2: bv32, a3: bv32, a4: bv32, a5: bv32, a6: bv32, a7: bv32)
    requires a0 < 16 && a1 < 16 && a2 < 16 && a3 < 16 && a4 < 16 && a5 < 16 && a6 < 16 && a7 < 16
    ensures var s := (a0 << 28) | (a1 << 24) | (a2 << 20) | (a3 << 16) | (a4 << 12) | (a5 << 8) | (a6 << 4) | a7;
      (s >> 28) & 0x0F == a0 && (s >> 24) & 0x0F == a1 && (s >> 20) & 0x0F == a2 && (s >> 16) & 0x0F == a3 &&
      (s >> 12) & 0x0F == a4 && (s >> 8) & 0x0F == a5 && (s >> 4) & 0x0F == a6 && s & 0x0F == a7
  {
  }

  /** Reading a field holding a byte below 16 gives the byte. */
  lemma NibbleOfWord(s: bv32, shift: bv32, b: Byte)
    requires shift <= 28 && b < 16 && (s >> shift) & 0x0F == Word(b)
    ensures Nibble(s, shift) == b
  {
    ByteBack(b);
  }

  /** The fields of a packed board of columns below 16 are its columns. */
  lemma ArrayFields(q: seq<Byte>)
    requires |q| == 8 && forall i :: 0 <= i < 8 ==> q[i] < 16
    ensures var s := ArrayToState(q);
      (s >> 28) & 0x0F == Word(q[0]) && (s >> 24) & 0x0F == Word(q[1]) &&
      (s >> 20) & 0x0F == Word(q[2]) && (s >> 16) & 0x0F == Word(q[3]) &&
      (s >> 12) & 0x0F == Word(q[4]) && (s >> 8) & 0x0F == Word(q[5]) &&
      (s >> 4) & 0x0F == Word(q[6]) && (s >> 0) & 0x0F == Word(q[7])
  {
    ByteBack(q[0]);
    ByteBack(q[1]);
    ByteBack(q[2]);
    ByteBack(q[3]);
    ByteBack(q[4]);
    ByteBack(q[5]);
    ByteBack(q[6]);
    ByteBack(q[7]);
    PackFields(Word(q[0]), Word(q[1]), Word(q[2]), Word(q[3]), Word(q[4]), Word(q[5]), Word(q[6]), Word(q[7]));
  }

  /** Eight columns below 16 survive packing and unpacking; the board's
      columns `0..7` are such columns. */
  lemma ArrayRoundTrip(q: seq<Byte>)
    requires |q| == 8 && forall i :: 0 <= i < 8 ==> q[i] < 16
    ensures StateToArray(ArrayToState(q)) == q
  {
    var s := ArrayToState(q);
    ArrayFields(q);
    NibbleOfWord(s, 28, q[0]);
    NibbleOfWord(s, 24, q[1]);
    NibbleOfWord(s, 20, q[2]);
    NibbleOfWord(s, 16, q[3]);
    NibbleOfWord(s, 12, q[4]);
    NibbleOfWord(s, 8, q[5]);
    NibbleOfWord(s, 4, q[6]);
    NibbleOfWord(s, 0, q[7]);
    assert StateToArray(s) == [q[0], q[1], q[2], q[3], q[4], q[5], q[6], q[7]];
    SeqOfEight(q);
  }

  lemma SeqOfEight<T>(q: seq<T>)
    requires |q| == 8
    ensures q == [q[0], q[1], q[2], q[3], q[4], q[5], q[6], q[7]]
  {
  }

  // ---------------------------------------------------------------- normalize

  /** `normalize` (Lab_2.cpp:579-611). The loops give a point whose column
      repeats an earlier one the first free column other than its own
      index; the result then takes only the rows `y`, so it is the list of
      rows whatever the repair did. */
  method Normalize(vec: seq<Point>) returns (r: Option<seq<Byte>>)
    ensures r.None? <==> |vec| != 8
    ensures r.Some? ==> |r.value| == 8 && forall i :: 0 <= i < 8 ==> r.value[i] == vec[i].1
  {
    if |vec| != 8 {
      return None;
    }
    var v := vec;
    var i := 0;
    while i < 8
      invariant 0 <= i <= 8 && |v| == 8
      invariant forall k :: 0 <= k < 8 ==> v[k].1 == vec[k].1
    {
      var j := 0;
      while j < i
        invariant 0 <= j <= i && |v| == 8
        invariant forall k :: 0 <= k < 8 ==> v[k].1 == vec[k].1
      {
        if v[i].0 == v[j].0 {
          var n := 0;
          while n < 8
            invariant 0 <= n <= 8 && |v| == 8
            invariant forall k :: 0 <= k < 8 ==> v[k].1 == vec[k].1
          {
            if n != i {
              var k := 0;
              while k < 8 && v[k].0 != n
                invariant 0 <= k <= 8
              {
                k := k + 1;
              }
              if k == 8 {
                v := v[i := (n, v[i].1)];
                break;
              }
            }
            n := n + 1;
          }
        }
        j := j + 1;
      }
      i := i + 1;
    }
    r := Some(seq(8, k requires 0 <= k < 8 => v[k].1));
  }

  // ---------------------------------------------------------------- conflicts

  /** A conflict: `((i, queens[i]), (j, queens[j]))`. */
  type Conflict = ((int, Byte), (int, Byte))

  /** Queens `i` and `j` share a column or a diagonal. */
  predicate Clash(q: seq<Byte>, i: int, j: int)
    requires |q| == 8 && 0 <= i < 8 && 0 <= j < 8
  {
    var a: int, b: int := q[i], q[j];
    a == b || Abs(i - j) == Abs(a - b)
  }

  function Pair(q: seq<Byte>, i: int, j: int): Conflict
    requires |q| == 8 && 0 <= i < 8 && 0 <= j < 8
  {
    ((i, q[i]), (j, q[j]))
  }

  /** The order the loops list conflicts in. */
  function Key(c: Conflict): int {
    c.0.0 * 8 + c.1.0
  }

  /** The pair of some clashing queens `i < j`, with `lo <= i`. */
  ghost predicate Listed(q: seq<Byte>, c: Conflict, lo: int)
    requires |q| == 8
  {
    0 <= lo <= c.0.0 < c.1.0 < 8 && Clash(q, c.0.0, c.1.0) && c == Pair(q, c.0.0, c.1.0)
  }

  ghost predicate AllListed(q: seq<Byte>, r: seq<Conflict>, lo: int)
    requires |q| == 8
  {
    forall k :: 0 <= k < |r| ==> Listed(q, r[k], lo)
  }

  ghost predicate Ordered(r: seq<Conflict>) {
    forall a, b :: 0 <= a < b < |r| ==> Key(r[a]) < Key(r[b])
  }

  lemma OrderedConcat(a: seq<Conflict>, b: seq<Conflict>)
    requires Ordered(a) && Ordered(b)
    requires forall x, y :: 0 <= x < |a| && 0 <= y < |b| ==> Key(a[x]) < Key(b[y])
    ensures Ordered(a + b)
  {
    var c := a + b;
    forall x, y | 0 <= x < y < |c|
      ensures Key(c[x]) < Key(c[y])
    {
      if y < |a| {
        assert c[x] == a[x] && c[y] == a[y];
      } else if x < |a| {
        assert c[x] == a[x] && c[y] == b[y - |a|];
      } else {
        assert c[x] == b[x - |a|] && c[y] == b[y - |a|];
      }
    }
  }

  lemma AllListedConcat(q: seq<Byte>, a: seq<Conflict>, b: seq<Conflict>, lo: int)
    requires |q| == 8 && AllListed(q, a, lo) && AllListed(q, b, lo)
    ensures AllListed(q, a + b, lo)
  {
    var c := a + b;
    forall k | 0 <= k < |c|
      ensures Listed(q, c[k], lo)
    {
      if k < |a| {
        assert c[k] == a[k];
      } else {
        assert c[k] == b[k - |a|];
      }
    }
  }

  /** The inner loop of `calculateConflicts`: the queens `j..7` that clash
      with queen `i`. */
  function ConflictsRow(q: seq<Byte>, i: int, j: int): (r: seq<Conflict>)
    requires |q| == 8 && 0 <= i < j <= 8
    ensures |r| <= 8 - j
    decreases |q| - j
  {
    if j == 8 then []
    else (if Clash(q, i, j) then [Pair(q, i, j)] else []) + ConflictsRow(q, i, j + 1)
  }

  /** The row lists pairs `(i, b)` with `j <= b`. */
  ghost predicate InRow(r: seq<Conflict>, i: int, j: int) {
    forall k :: 0 <= k < |r| ==> r[k].0.0 == i && j <= r[k].1.0
  }

  lemma {:induction false} ConflictsRowShape(q: seq<Byte>, i: int, j: int)
    requires |q| == 8 && 0 <= i < j <= 8
    ensures InRow(ConflictsRow(q, i, j), i, j)
    decreases |q| - j
  {
    if j < 8 {
      ConflictsRowShape(q, i, j + 1);
      var rest := ConflictsRow(q, i, j + 1);
      var head := if Clash(q, i, j) then [Pair(q, i, j)] else [];
      var r := head + rest;
      assert ConflictsRow(q, i, j) == r;
      forall k | 0 <= k < |r|
        ensures r[k].0.0 == i && j <= r[k].1.0
      {
        if k >= |head| {
          assert r[k] == rest[k - |head|];
        }
      }
    }
  }

  lemma {:induction false} ConflictsRowListed(q: seq<Byte>, i: int, j: int)
    requires |q| == 8 && 0 <= i < j <= 8
    ensures AllListed(q, ConflictsRow(q, i, j), i)
    decreases |q| - j
  {
    if j < 8 {
      ConflictsRowListed(q, i, j + 1);
      var head := if Clash(q, i, j) then [Pair(q, i, j)] else [];
      assert ConflictsRow(q, i, j) == head + ConflictsRow(q, i, j + 1);
      AllListedConcat(q, head, ConflictsRow(q, i, j + 1), i);
    }
  }

  /** The row lists its pairs by increasing second queen. */
  lemma {:induction false} ConflictsRowOrdered(q: seq<Byte>, i: int, j: int)
    requires |q| == 8 && 0 <= i < j <= 8
    ensures Ordered(ConflictsRow(q, i, j))
    decreases |q| - j
  {
    if j < 8 {
      ConflictsRowOrdered(q, i, j + 1);
      ConflictsRowShape(q, i, j + 1);
      var rest := ConflictsRow(q, i, j + 1);
      var head := if Clash(q, i, j) then [Pair(q, i, j)] else [];
      assert ConflictsRow(q, i, j) == head + rest;
      forall x, y | 0 <= x < |head| && 0 <= y < |rest|
        ensures Key(head[x]) < Key(rest[y])
      {
        assert head[x] == Pair(q, i, j);
        assert rest[y].0.0 == i && j < rest[y].1.0;
      }
      OrderedConcat(head, rest);
    }
  }

  lemma {:induction false} ConflictsRowComplete(q: seq<Byte>, i: int, j: int, b: int)
    requires |q| == 8 && 0 <= i < j <= b < 8 && Clash(q, i, b)
    ensures Pair(q, i, b) in ConflictsRow(q, i, j)
    decreases |q| - j
  {
    var head := if Clash(q, i, j) then [Pair(q, i, j)] else [];
    assert ConflictsRow(q, i, j) == head + ConflictsRow(q, i, j + 1);
    if b == j {
      assert head[0] == Pair(q, i, b);
    } else {
      ConflictsRowComplete(q, i, j + 1, b);
    }
  }

  /** `m (m - 1) / 2`: the pairs among `m` queens. */
  function Tri(m: nat): nat {
    if m == 0 then 0 else Tri(m - 1) + (m - 1)
  }

  /** The outer loop of `calculateConflicts` over the queens `i..7`. */
  function ConflictsFrom(q: seq<Byte>, i: int): (r: seq<Conflict>)
    requires |q| == 8 && 0 <= i <= 8
    ensures |r| <= Tri(8 - i)
    decreases |q| - i
  {
    if i == 8 then [] else ConflictsRow(q, i, i + 1) + ConflictsFrom(q, i + 1)
  }

  lemma {:induction false} ConflictsFromSound(q: seq<Byte>, i: int)
    requires |q| == 8 && 0 <= i <= 8
    ensures Ordered(ConflictsFrom(q, i)) && AllListed(q, ConflictsFrom(q, i), i)
    decreases |q| - i
  {
    if i < 8 {
      var row := ConflictsRow(q, i, i + 1);
      var rest := ConflictsFrom(q, i + 1);
      ConflictsRowShape(q, i, i + 1);
      ConflictsRowListed(q, i, i + 1);
      ConflictsRowOrdered(q, i, i + 1);
      ConflictsFromSound(q, i + 1);
      forall x, y | 0 <= x < |row| && 0 <= y < |rest|
        ensures Key(row[x]) < Key(rest[y])
      {
        assert Listed(q, row[x], i) && Listed(q, rest[y], i + 1);
      }
      OrderedConcat(row, rest);
      forall k | 0 <= k < |rest|
        ensures Listed(q, rest[k], i)
      {
        assert Listed(q, rest[k], i + 1);
      }
      AllListedConcat(q, row, rest, i);
    }
  }

  lemma {:induction false} ConflictsFromComplete(q: seq<Byte>, i: int, a: int, b: int)
    requires |q| == 8 && 0 <= i <= a < b < 8 && Clash(q, a, b)
    ensures Pair(q, a, b) in ConflictsFrom(q, i)
    decreases |q| - i
  {
    if a == i {
      ConflictsRowComplete(q, i, i + 1, b);
    } else {
      ConflictsFromComplete(q, i + 1, a, b);
    }
  }

  /** `calculateConflicts` (Lab_2.cpp:613-629): at most 28 pairs. */
  function CalculateConflicts(q: seq<Byte>): (r: seq<Conflict>)
    requires |q| == 8
    ensures |r| <= 28
  {
    assert Tri(8) == 28;
    ConflictsFrom(q, 0)
  }

  /** Every clashing pair `i < j` is listed, nothing else is, and the keys
      increase, so each pair is listed once. */
  lemma CalculateConflictsCorrect(q: seq<Byte>)
    requires |q| == 8
    ensures var r := CalculateConflicts(q);
      Ordered(r) && AllListed(q, r, 0) &&
      forall a, b :: 0 <= a < b < 8 && Clash(q, a, b) ==> Pair(q, a, b) in r
  {
    ConflictsFromSound(q, 0);
    forall a, b | 0 <= a < b < 8 && Clash(q, a, b)
      ensures Pair(q, a, b) in CalculateConflicts(q)
    {
      ConflictsFromComplete(q, 0, a, b);
    }
  }

  /** Two queens on the board clash exactly when their cells, row `i`
      column `q[i]`, are on a common line: the board's conflicts are the
      pairs the `ChessBoard` table marks. */
  lemma ClashIsAttack(q: seq<Byte>, i: int, j: int)
    requires |q| == 8 && 0 <= i < 8 && 0 <= j < 8 && i != j && q[i] < 8 && q[j] < 8
    ensures Clash(q, i, j) <==> Attacks(i * 8 + q[i], j * 8 + q[j])
    ensures Clash(q, i, j) <==> InitCrossroads()[(i * 8 + q[i]) * 64 + (j * 8 + q[j])]
  {
    AttacksCells(q[i], i, q[j], j);
    CrossroadsAt(i * 8 + q[i], j * 8 + q[j]);
  }

  // ---------------------------------------------------------------- successors

  /** One successor: the board and its number of conflicts. */
  type Successor = (seq<Byte>, int)

  /** The number of conflicts the successor list records for a board. */
  function ConflictCount(b: seq<Byte>): (n: int)
    requires |b| == 8
    ensures 0 <= n <= 28
  {
    |CalculateConflicts(b)|
  }

  /** The board with the queen of `row` moved to column `col`. */
  function Move(q: seq<Byte>, row: int, col: Byte): (b: seq<Byte>)
    requires |q| == 8 && 0 <= row < 8
    ensures |b| == 8 && b[row] == col
  {
    q[row := col]
  }

  /** `b` is the board with the queen of one row moved to another column
      below 8. */
  ghost predicate OneMove(q: seq<Byte>, b: seq<Byte>)
    requires |q| == 8
  {
    exists row, col :: (0 <= row < 8 && 0 <= col < 8 && col != q[row] && b == Move(q, row, col))
  }

  ghost predicate AllMoves(q: seq<Byte>, r: seq<seq<Byte>>)
    requires |q| == 8
  {
    forall k :: 0 <= k < |r| ==> OneMove(q, r[k])
  }

  lemma AllMovesConcat(q: seq<Byte>, a: seq<seq<Byte>>, b: seq<seq<Byte>>)
    requires |q| == 8 && AllMoves(q, a) && AllMoves(q, b)
    ensures AllMoves(q, a + b)
  {
    var c := a + b;
    forall k | 0 <= k < |c|
      ensures OneMove(q, c[k])
    {
      if k < |a| {
        assert c[k] == a[k];
      } else {
        assert c[k] == b[k - |a|];
      }
    }
  }

  /** The boards of the inner loop of `generateSuccessors`: columns
      `col..7` of `row`, skipping the queen's own. */
  function BoardsRow(q: seq<Byte>, row: int, col: int): (r: seq<seq<Byte>>)
    requires |q| == 8 && 0 <= row < 8 && 0 <= col <= 8
    ensures |r| == if col <= q[row] < 8 then 7 - col else 8 - col
    ensures forall k :: 0 <= k < |r| ==> |r[k]| == 8
    decreases |q| - col
  {
    if col == 8 then []
    else (if q[row] == col then [] else [Move(q, row, col)]) + BoardsRow(q, row, col + 1)
  }

  lemma {:induction false} BoardsRowSound(q: seq<Byte>, row: int, col: int)
    requires |q| == 8 && 0 <= row < 8 && 0 <= col <= 8
    ensures AllMoves(q, BoardsRow(q, row, col))
    decreases |q| - col
  {
    if col < 8 {
      var head := if q[row] == col then [] else [Move(q, row, col)];
      assert BoardsRow(q, row, col) == head + BoardsRow(q, row, col + 1);
      if q[row] != col {
        assert head[0] == Move(q, row, col);
        assert OneMove(q, head[0]);
      }
      BoardsRowSound(q, row, col + 1);
      AllMovesConcat(q, head, BoardsRow(q, row, col + 1));
    }
  }

  lemma {:induction false} BoardsRowComplete(q: seq<Byte>, row: int, col: int, c: int)
    requires |q| == 8 && 0 <= row < 8 && 0 <= col <= c < 8 && c != q[row]
    ensures Move(q, row, c) in BoardsRow(q, row, col)
    decreases |q| - col
  {
    var head := if q[row] == col then [] else [Move(q, row, col)];
    var rest := BoardsRow(q, row, col + 1);
    assert BoardsRow(q, row, col) == head + rest;
    if c == col {
      assert (head + rest)[0] == Move(q, row, c);
    } else {
      BoardsRowComplete(q, row, col + 1, c);
    }
  }

  /** The boards of the outer loop over the rows `row..7`. */
  function BoardsFrom(q: seq<Byte>, row: int): (r: seq<seq<Byte>>)
    requires |q| == 8 && 0 <= row <= 8
    ensures 7 * (8 - row) <= |r| <= 8 * (8 - row)
    ensures (forall x :: row <= x < 8 ==> q[x] < 8) ==> |r| == 7 * (8 - row)
    ensures forall k :: 0 <= k < |r| ==> |r[k]| == 8
    decreases |q| - row
  {
    if row == 8 then [] else BoardsRow(q, row, 0) + BoardsFrom(q, row + 1)
  }

  lemma {:induction false} BoardsFromSound(q: seq<Byte>, row: int)
    requires |q| == 8 && 0 <= row <= 8
    ensures AllMoves(q, BoardsFrom(q, row))
    decreases |q| - row
  {
    if row < 8 {
      BoardsRowSound(q, row, 0);
      BoardsFromSound(q, row + 1);
      AllMovesConcat(q, BoardsRow(q, row, 0), BoardsFrom(q, row + 1));
    }
  }

  lemma {:induction false} BoardsFromComplete(q: seq<Byte>, row: int, x: int, c: int)
    requires |q| == 8 && 0 <= row <= x < 8 && 0 <= c < 8 && c != q[x]
    ensures Move(q, x, c) in BoardsFrom(q, row)
    decreases |q| - row
  {
    if x == row {
      BoardsRowComplete(q, row, 0, c);
    } else {
      BoardsFromComplete(q, row + 1, x, c);
    }
  }

  /** Each board paired with its number of conflicts. */
  function Scored(boards: seq<seq<Byte>>): (r: seq<Successor>)
    requires forall k :: 0 <= k < |boards| ==> |boards[k]| == 8
    ensures |r| == |boards|
    ensures forall k :: 0 <= k < |r| ==> r[k] == (boards[k], ConflictCount(boards[k]))
  {
    if boards == [] then [] else [(boards[0], ConflictCount(boards[0]))] + Scored(boards[1..])
  }

  /** `generateSuccessors` (Lab_2.cpp:631-643): every board one move away,
      row by row and column by column, each paired with its number of
      conflicts; 56 for a board whose columns are all below 8. */
  function GenerateSuccessors(q: seq<Byte>): (r: seq<Successor>)
    requires |q| == 8
    ensures 56 <= |r| <= 64
    ensures (forall x :: 0 <= x < 8 ==> q[x] < 8) ==> |r| == 56
  {
    Scored(BoardsFrom(q, 0))
  }

  /** Every successor moves one queen within its row and carries its own
      conflict count. */
  lemma GenerateSuccessorsSound(q: seq<Byte>)
    requires |q| == 8
    ensures var r := GenerateSuccessors(q);
      forall k :: 0 <= k < |r| ==> |r[k].0| == 8 && OneMove(q, r[k].0) && r[k].1 == ConflictCount(r[k].0)
  {
    var boards := BoardsFrom(q, 0);
    var r := GenerateSuccessors(q);
    BoardsFromSound(q, 0);
    forall k | 0 <= k < |r|
      ensures |r[k].0| == 8 && OneMove(q, r[k].0) && r[k].1 == ConflictCount(r[k].0)
    {
      assert r[k].0 == boards[k];
    }
  }

  /** Every move of one queen to another column below 8 is a successor. */
  lemma GenerateSuccessorsComplete(q: seq<Byte>, x: int, c: int)
    requires |q| == 8 && 0 <= x < 8 && 0 <= c < 8 && c != q[x]
    ensures (Move(q, x, c), ConflictCount(Move(q, x, c))) in GenerateSuccessors(q)
  {
    var boards := BoardsFrom(q, 0);
    BoardsFromComplete(q, 0, x, c);
    var k :| 0 <= k < |boards| && boards[k] == Move(q, x, c);
    assert GenerateSuccessors(q)[k] == (boards[k], ConflictCount(boards[k]));
  }

  /** A board one move away differs from the board in exactly one row,
      and there holds a column below 8. */
  lemma OneMoveOneRow(q: seq<Byte>, b: seq<Byte>)
    requires |q| == 8 && OneMove(q, b)
    ensures |b| == 8 && exists row :: (0 <= row < 8 && b[row] != q[row] && b[row] < 8 &&
      forall x :: 0 <= x < 8 && x != row ==> b[x] == q[x])
  {
    var row, col :| 0 <= row < 8 && 0 <= col < 8 && col != q[row] && b == Move(q, row, col);
    assert b == q[row := col];
  }
}

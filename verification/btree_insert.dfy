/** Insertion below the root: `splitChild` and `insertNonFull`
    (Lab_3/Lab_3/btree.cpp:66-117). */
module BTreeInsert {
  import opened InOrder
  import opened Arrays
  import opened BTreeNodes

  /** `while (i >= 0 && keys[i] > key) i--;` — the last slot at or below `i`
      whose key does not exceed `key`, or -1. */
  function LastNotAbove(keys: seq<int>, i: int, key: int): (j: int)
    requires -1 <= i < |keys|
    ensures -1 <= j <= i
    ensures j >= 0 ==> keys[j] <= key
    ensures forall m :: j < m <= i ==> key < keys[m]
    decreases i + 1
  {
    if i >= 0 && keys[i] > key then LastNotAbove(keys, i - 1, key) else i
  }

  /** The fresh node `z` of `splitChild` (btree.cpp:92-104): the upper T - 1
      records of the full node `y` and, when `y` is internal, its upper T children. */
  function UpperHalf(y: Node): (z: Node)
    requires Wired(y) && y.numKeys == MaxKeys
    ensures Wired(z) && z.numKeys == T - 1 && z.leaf == y.leaf
  {
    var f := FreshNode(y.leaf);
    var z := Node(Copy(f.keys, 0, y.keys, T, 0, T - 1),
                  Copy(f.data, 0, y.data, T, 0, T - 1),
                  if !y.leaf then Copy(f.children, 0, y.children, T, 0, T) else f.children,
                  T - 1, y.leaf);
    BorrowedChildren(y, z, T);
    z
  }

  /** The upper half holds the records of `y` past the median and, for an
      internal `y`, the children past the median, so it is no higher than `y`. */
  lemma UpperHalfSlots(y: Node)
    requires Wired(y) && y.numKeys == MaxKeys
    ensures var z := UpperHalf(y);
      && (forall m :: 0 <= m < T - 1 ==> z.keys[m] == y.keys[m + T] && z.data[m] == y.data[m + T])
      && (!y.leaf ==> forall m :: 0 <= m < T ==> z.children[m] == y.children[m + T])
      && Height(z) <= Height(y)
  {
    UpperHalfRecords(y);
    UpperHalfChildren(y);
  }

  lemma UpperHalfRecords(y: Node)
    requires Wired(y) && y.numKeys == MaxKeys
    ensures var z := UpperHalf(y);
      forall m :: 0 <= m < T - 1 ==> z.keys[m] == y.keys[m + T] && z.data[m] == y.data[m + T]
  {
  }

  lemma UpperHalfChildren(y: Node)
    requires Wired(y) && y.numKeys == MaxKeys
    ensures var z := UpperHalf(y);
      && (!y.leaf ==> forall m :: 0 <= m < T ==> z.children[m] == y.children[m + T])
      && Height(z) <= Height(y)
  {
    BorrowedChildren(y, UpperHalf(y), T);
  }

  lemma UpperLivePairs(y: Node)
    requires Wired(y) && y.numKeys == MaxKeys
    ensures LivePairs(UpperHalf(y)) == LivePairs(y)[T..]
  {
    var z := UpperHalf(y);
    UpperHalfSlots(y);
    var kz := LivePairs(z);
    var ky := LivePairs(y)[T..];
    forall m | 0 <= m < |kz| ensures kz[m] == ky[m] {
      assert kz[m] == (z.keys[m], z.data[m]);
      assert ky[m] == LivePairs(y)[m + T];
    }
    SeqExt(kz, ky);
  }

  /** The child slots of `x` after `splitChild(i, y)` (btree.cpp:106-110):
      slots past `i` move one up, the shortened `y` stays at `i`, `z` goes to `i + 1`. */
  function SplitSlots(x: Node, i: int): (ch: seq<Ptr>)
    requires Wired(x) && !x.leaf && 0 <= i <= x.numKeys && x.numKeys < MaxKeys
    requires Child(x, i).numKeys == MaxKeys
    ensures |ch| == |x.children|
    ensures ch[i] == To(Child(x, i).(numKeys := T - 1)) && ch[i + 1] == To(UpperHalf(Child(x, i)))
    ensures forall m :: 0 <= m <= x.numKeys + 1 && m != i && m != i + 1 ==>
      ch[m] == x.children[if m < i then m else m - 1]
    ensures forall m :: 0 <= m < |ch| && ch[m].To? ==> Wired(ch[m].node)
    ensures forall m :: 0 <= m <= x.numKeys + 1 ==> ch[m].To?
  {
    var y := Child(x, i);
    var sh := ShiftUp(x.children, x.numKeys, i + 1);
    var ch := sh[i + 1 := To(UpperHalf(y))][i := To(y.(numKeys := T - 1))];
    forall m | 0 <= m < |ch| && ch[m].To? ensures Wired(ch[m].node) {
      if m != i && m != i + 1 {
        assert ch[m] == sh[m];
      }
    }
    ch
  }

  /** `x->splitChild(i, y)` with `y == x->children[i]` full: the upper half of
      `y` moves to a fresh node `z`, the median record moves up into `x` at
      slot `i`, and `z` becomes child `i + 1` (btree.cpp:91-117). */
  function SplitChild(x: Node, i: int): (r: Node)
    requires Wired(x) && !x.leaf && 0 <= i <= x.numKeys && x.numKeys < MaxKeys
    requires Child(x, i).numKeys == MaxKeys
    ensures Wired(r) && !r.leaf && r.numKeys == x.numKeys + 1
    ensures Child(r, i) == Child(x, i).(numKeys := T - 1) && Child(r, i + 1) == UpperHalf(Child(x, i))
    ensures forall m :: 0 <= m <= x.numKeys + 1 && m != i && m != i + 1 ==>
      r.children[m] == x.children[if m < i then m else m - 1]
  {
    var y := Child(x, i);
    Node(OpenSlot(x.keys, x.numKeys, i, y.keys[T - 1]),
         OpenSlot(x.data, x.numKeys, i, y.data[T - 1]),
         SplitSlots(x, i), x.numKeys + 1, x.leaf)
  }

  /** The live records after a split: those of `x` with the median inserted at slot `i`. */
  lemma SplitLivePairs(x: Node, i: int)
    requires Wired(x) && !x.leaf && 0 <= i <= x.numKeys && x.numKeys < MaxKeys
    requires Child(x, i).numKeys == MaxKeys
    ensures LivePairs(SplitChild(x, i)) ==
      LivePairs(x)[..i] + ([LivePairs(Child(x, i))[T - 1]] + LivePairs(x)[i..])
  {
    var y := Child(x, i);
    LivePairsOpen(x, SplitChild(x, i), i, LivePairs(y)[T - 1]);
  }

  /** The two halves of a split are no higher than the node they came from. */
  lemma SplitChildHeight(x: Node, i: int)
    requires Wired(x) && !x.leaf && 0 <= i <= x.numKeys && x.numKeys < MaxKeys
    requires Child(x, i).numKeys == MaxKeys
    ensures Height(Child(SplitChild(x, i), i)) < Height(x)
    ensures Height(Child(SplitChild(x, i), i + 1)) < Height(x)
  {
    var y := Child(x, i);
    HeightBelow(x, i);
    UpperHalfSlots(y);
    assert Height(y.(numKeys := T - 1)) == Height(y) by {
      assert y.(numKeys := T - 1).children == y.children;
    }
  }

  /** `insertNonFull(key, dataVal)` on a node with room for one more key
      (btree.cpp:66-89): a leaf opens a slot after the last key not above
      `key`; an internal node hands the record to the child at that position. */
  function InsertNonFull(n: Node, key: int, val: string): (r: Node)
    requires Wired(n) && n.numKeys < MaxKeys
    ensures Wired(r) && r.leaf == n.leaf
    ensures n.numKeys <= r.numKeys <= n.numKeys + 1
    ensures n.leaf ==> r.numKeys == n.numKeys + 1
    decreases Height(n), 2
  {
    if n.leaf then LeafInsert(n, key, val)
    else InsertBelow(n, LastNotAbove(n.keys, n.numKeys - 1, key) + 1, key, val)
  }

  /** The leaf branch (btree.cpp:68-76): the keys above `key` move one slot up
      and the record takes the slot they left. */
  function LeafInsert(n: Node, key: int, val: string): (r: Node)
    requires Wired(n) && n.leaf && n.numKeys < MaxKeys
    ensures Wired(r) && r.leaf && r.numKeys == n.numKeys + 1
  {
    var c := LastNotAbove(n.keys, n.numKeys - 1, key) + 1;
    n.(keys := OpenSlot(n.keys, n.numKeys, c, key),
       data := OpenSlot(n.data, n.numKeys, c, val),
       numKeys := n.numKeys + 1)
  }

  /** The internal branch (btree.cpp:78-86): a full child `c` is split first and
      the record goes right of the median when the median is below `key`. */
  function InsertBelow(n: Node, c: int, key: int, val: string): (r: Node)
    requires Wired(n) && !n.leaf && n.numKeys < MaxKeys && 0 <= c <= n.numKeys
    ensures Wired(r) && !r.leaf && n.numKeys <= r.numKeys <= n.numKeys + 1
    decreases Height(n), 1
  {
    if Child(n, c).numKeys == MaxKeys then
      var n1 := SplitChild(n, c);
      SplitChildHeight(n, c);
      Descend(n1, if n1.keys[c] < key then c + 1 else c, key, val)
    else
      HeightBelow(n, c);
      Descend(n, c, key, val)
  }

  /** `children[c]->insertNonFull(key, dataVal)` (btree.cpp:86). */
  function Descend(n: Node, c: int, key: int, val: string): (r: Node)
    requires Wired(n) && !n.leaf && 0 <= c <= n.numKeys && Child(n, c).numKeys < MaxKeys
    ensures Wired(r) && !r.leaf && r.numKeys == n.numKeys
    decreases Height(Child(n, c)), 4
  {
    var sub := InsertNonFull(Child(n, c), key, val);
    ReplaceChild(n, c, sub);
    n.(children := n.children[c := To(sub)])
  }

  // ---------------------------------------------------------------- correctness

  /** The records of a full node split around its median into those of its two halves. */
  lemma HalvesTraverse(y: Node)
    requires Wired(y) && y.numKeys == MaxKeys
    ensures Traverse(y) == Traverse(y.(numKeys := T - 1)) + [LivePairs(y)[T - 1]] + Traverse(UpperHalf(y))
  {
    var k := LivePairs(y);
    assert LivePairs(y.(numKeys := T - 1)) == k[..T - 1];
    UpperLivePairs(y);
    if y.leaf {
      Around(k, T - 1);
    } else {
      HalvesParts(y);
      WeaveAt(Parts(y), k, T - 1);
    }
  }

  /** The subtrees of the two halves of a full internal node. */
  lemma HalvesParts(y: Node)
    requires Wired(y) && y.numKeys == MaxKeys && !y.leaf
    ensures Parts(y.(numKeys := T - 1)) == Parts(y)[..T]
    ensures Parts(UpperHalf(y)) == Parts(y)[T..]
  {
    UpperHalfSlots(y);
    PartsPrefix(y, y.(numKeys := T - 1));
    PartsSuffix(y, UpperHalf(y), T);
  }

  /** The full child's records split around its median. */
  lemma SplitTraverse(x: Node, i: int)
    requires Wired(x) && !x.leaf && 0 <= i <= x.numKeys && x.numKeys < MaxKeys
    requires Child(x, i).numKeys == MaxKeys
    ensures var r := SplitChild(x, i);
      Traverse(Child(x, i)) == Traverse(Child(r, i)) + [LivePairs(Child(x, i))[T - 1]] + Traverse(Child(r, i + 1))
  {
    HalvesTraverse(Child(x, i));
  }

  /** The parts after a split: child `i` gives way to the two halves of the full child. */
  lemma SplitChildParts(x: Node, i: int)
    requires Wired(x) && !x.leaf && 0 <= i <= x.numKeys && x.numKeys < MaxKeys
    requires Child(x, i).numKeys == MaxKeys
    ensures var r := SplitChild(x, i);
      Parts(r) == Parts(x)[..i] + [Traverse(Child(r, i))] + ([Traverse(Child(r, i + 1))] + Parts(x)[i + 1..])
  {
    PartsOpen(x, SplitChild(x, i), i);
  }

  /** Splitting a full child keeps the node's records in order. */
  lemma SplitChildTraverse(x: Node, i: int)
    requires Wired(x) && !x.leaf && 0 <= i <= x.numKeys && x.numKeys < MaxKeys
    requires Child(x, i).numKeys == MaxKeys
    ensures Traverse(SplitChild(x, i)) == Traverse(x)
  {
    var r := SplitChild(x, i);
    var y := Child(x, i);
    var med := LivePairs(y)[T - 1];
    var a := Traverse(Child(r, i));
    var b := Traverse(Child(r, i + 1));
    var px := Parts(x);
    var kx := LivePairs(x);
    SplitChildParts(x, i);
    SplitLivePairs(x, i);
    WeaveSplitPart(px[..i], a, med, b, px[i + 1..], kx[..i], kx[i..]);
    SplitTraverse(x, i);
    Around(px, i);
    Halves(kx, i);
  }

  /** The two halves of a full, valid node are filled and balanced at its height. */
  lemma HalvesValid(y: Node, h: int)
    requires Wired(y) && y.numKeys == MaxKeys && Filled(y) && Balanced(y, h)
    ensures Filled(y.(numKeys := T - 1)) && Balanced(y.(numKeys := T - 1), h)
    ensures Filled(UpperHalf(y)) && Balanced(UpperHalf(y), h)
  {
    var z := UpperHalf(y);
    UpperHalfSlots(y);
    if !y.leaf {
      forall m | 0 <= m <= z.numKeys
        ensures T - 1 <= z.children[m].node.numKeys && Filled(z.children[m].node)
        ensures Balanced(z.children[m].node, h - 1)
      {
        assert z.children[m] == y.children[m + T];
      }
    }
  }

  /** Splitting a full child keeps every non-root node at least half full
      and all leaves at the same depth. */
  lemma SplitChildValid(x: Node, i: int, h: int)
    requires Wired(x) && !x.leaf && 0 <= i <= x.numKeys && x.numKeys < MaxKeys
    requires Child(x, i).numKeys == MaxKeys && Filled(x) && Balanced(x, h)
    ensures Filled(SplitChild(x, i)) && Balanced(SplitChild(x, i), h)
  {
    var r := SplitChild(x, i);
    HalvesValid(Child(x, i), h - 1);
    forall m | 0 <= m <= r.numKeys
      ensures T - 1 <= r.children[m].node.numKeys && Filled(r.children[m].node)
      ensures Balanced(r.children[m].node, h - 1)
    {
      if m != i && m != i + 1 {
        assert r.children[m] == x.children[if m < i then m else m - 1];
      }
    }
  }

  /** Inserting an absent key into a non-full node inserts its record in key
      order and keeps the subtree filled and balanced. */
  /** `r` is `n` with the record `(key, val)` added in key order, still
      filled and balanced at height `h`. */
  ghost predicate Inserted(n: Node, r: Node, key: int, val: string, h: int)
    requires Wired(n) && Wired(r)
  {
    Traverse(r) == InsertSorted(Traverse(n), (key, val)) && Filled(r) && Balanced(r, h)
  }

  lemma {:induction false} InsertNonFullCorrect(n: Node, key: int, val: string, h: int)
    requires Wired(n) && n.numKeys < MaxKeys && Ordered(n) && Filled(n) && Balanced(n, h)
    requires key !in Keys(Traverse(n))
    ensures var r := InsertNonFull(n, key, val);
      && Traverse(r) == InsertSorted(Traverse(n), (key, val))
      && Filled(r) && Balanced(r, h)
    decreases Height(n), 3
  {
    if n.leaf {
      InsertPosition(n, key);
      InsertNonFullLeaf(n, key, val);
      InsertLeafCorrect(n, key, val);
    } else {
      InsertInternalCorrect(n, key, val, h);
    }
  }

  /** The internal branch of `insertNonFull` (btree.cpp:77-88). */
  lemma {:induction false} InsertInternalCorrect(n: Node, key: int, val: string, h: int)
    requires Wired(n) && !n.leaf && n.numKeys < MaxKeys && Ordered(n) && Filled(n) && Balanced(n, h)
    requires key !in Keys(Traverse(n))
    ensures Inserted(n, InsertNonFull(n, key, val), key, val, h)
    decreases Height(n), 2
  {
    var j := LastNotAbove(n.keys, n.numKeys - 1, key);
    InsertPosition(n, key);
    InsertNonFullInternal(n, key, val);
    InsertBelowCorrect(n, j + 1, key, val, h);
  }

  lemma InsertNonFullLeaf(n: Node, key: int, val: string)
    requires Wired(n) && n.numKeys < MaxKeys && n.leaf
    ensures InsertNonFull(n, key, val) == LeafInsert(n, key, val)
  {
  }

  lemma InsertNonFullInternal(n: Node, key: int, val: string)
    requires Wired(n) && n.numKeys < MaxKeys && !n.leaf
    ensures InsertNonFull(n, key, val) == InsertBelow(n, LastNotAbove(n.keys, n.numKeys - 1, key) + 1, key, val)
  {
  }

  /** For an absent key, the keys up to the last one not above it are below
      it and the next live key is above it. */
  lemma InsertPosition(n: Node, key: int)
    requires Wired(n) && Ordered(n) && key !in Keys(Traverse(n))
    ensures var j := LastNotAbove(n.keys, n.numKeys - 1, key);
      && (forall m :: 0 <= m <= j ==> n.keys[m] < key)
      && (j + 1 == n.numKeys || key < n.keys[j + 1])
  {
    OrderedParts(n);
    var j := LastNotAbove(n.keys, n.numKeys - 1, key);
    forall m | 0 <= m <= j ensures n.keys[m] < key {
      LiveKeysInTraverse(n, m);
    }
  }

  /** The internal branch, for the child `c` whose neighbouring keys bracket `key`. */
  lemma {:induction false} InsertBelowCorrect(n: Node, c: int, key: int, val: string, h: int)
    requires Wired(n) && !n.leaf && n.numKeys < MaxKeys && Ordered(n) && Filled(n) && Balanced(n, h)
    requires 0 <= c <= n.numKeys && key !in Keys(Traverse(n))
    requires c == 0 || n.keys[c - 1] < key
    requires c == n.numKeys || key < n.keys[c]
    ensures Inserted(n, InsertBelow(n, c, key, val), key, val, h)
    decreases Height(n), 1
  {
    if Child(n, c).numKeys == MaxKeys {
      InsertSplitCorrect(n, c, key, val, h);
    } else {
      HeightBelow(n, c);
      BelowDirect(n, c, key, val);
      DescendCorrect(n, c, key, val, h);
    }
  }

  /** The internal branch when child `c` is full: split, then descend. */
  lemma {:induction false} InsertSplitCorrect(n: Node, c: int, key: int, val: string, h: int)
    requires Wired(n) && !n.leaf && n.numKeys < MaxKeys && Ordered(n) && Filled(n) && Balanced(n, h)
    requires 0 <= c <= n.numKeys && key !in Keys(Traverse(n)) && Child(n, c).numKeys == MaxKeys
    requires c == 0 || n.keys[c - 1] < key
    requires c == n.numKeys || key < n.keys[c]
    ensures Inserted(n, InsertBelow(n, c, key, val), key, val, h)
    decreases Height(n), 0
  {
    var n1 := SplitChild(n, c);
    var c' := if n1.keys[c] < key then c + 1 else c;
    SplitReady(n, c, key, h, n1, c');
    BelowSplit(n, c, key, val, n1, c');
    DescendCorrect(n1, c', key, val, h);
  }

  lemma BelowSplit(n: Node, c: int, key: int, val: string, n1: Node, c': int)
    requires Wired(n) && !n.leaf && n.numKeys < MaxKeys && 0 <= c <= n.numKeys
    requires Child(n, c).numKeys == MaxKeys
    requires n1 == SplitChild(n, c) && c' == (if n1.keys[c] < key then c + 1 else c)
    ensures InsertBelow(n, c, key, val) == Descend(n1, c', key, val)
  {
  }

  lemma BelowDirect(n: Node, c: int, key: int, val: string)
    requires Wired(n) && !n.leaf && n.numKeys < MaxKeys && 0 <= c <= n.numKeys
    requires Child(n, c).numKeys < MaxKeys
    ensures InsertBelow(n, c, key, val) == Descend(n, c, key, val)
  {
  }

  /** After the split the descent's preconditions hold at the child `c'` it picks. */
  lemma SplitReady(n: Node, c: int, key: int, h: int, n1: Node, c': int)
    requires Wired(n) && !n.leaf && n.numKeys < MaxKeys && Ordered(n) && Filled(n) && Balanced(n, h)
    requires 0 <= c <= n.numKeys && key !in Keys(Traverse(n)) && Child(n, c).numKeys == MaxKeys
    requires c == 0 || n.keys[c - 1] < key
    requires c == n.numKeys || key < n.keys[c]
    requires n1 == SplitChild(n, c) && c' == (if n1.keys[c] < key then c + 1 else c)
    ensures Wired(n1) && !n1.leaf && 0 <= c' <= n1.numKeys
    ensures Ordered(n1) && Filled(n1) && Balanced(n1, h) && Traverse(n1) == Traverse(n)
    ensures key !in Keys(Traverse(n1))
    ensures c' == 0 || n1.keys[c' - 1] < key
    ensures c' == n1.numKeys || key < n1.keys[c']
    ensures Child(n1, c').numKeys < MaxKeys && Height(Child(n1, c')) < Height(n)
  {
    SplitChildTraverse(n, c);
    SplitChildValid(n, c, h);
    SplitBracket(n, c, key);
    SplitChildHeight(n, c);
  }

  /** The live records of a leaf after `insertNonFull`: the new record sits
      right after the last record whose key does not exceed it. */
  lemma LeafLivePairs(n: Node, key: int, val: string)
    requires Wired(n) && n.leaf && n.numKeys < MaxKeys
    ensures var j := LastNotAbove(n.keys, n.numKeys - 1, key);
      LivePairs(LeafInsert(n, key, val)) == LivePairs(n)[..j + 1] + ([(key, val)] + LivePairs(n)[j + 1..])
  {
    var j := LastNotAbove(n.keys, n.numKeys - 1, key);
    LivePairsOpen(n, LeafInsert(n, key, val), j + 1, (key, val));
  }

  /** The leaf branch of `insertNonFull`: shift the larger keys up one slot and store the record. */
  lemma InsertLeafCorrect(n: Node, key: int, val: string)
    requires Wired(n) && n.leaf && n.numKeys < MaxKeys
    requires forall m :: 0 <= m <= LastNotAbove(n.keys, n.numKeys - 1, key) ==> n.keys[m] < key
    ensures Traverse(LeafInsert(n, key, val)) == InsertSorted(Traverse(n), (key, val))
    ensures Filled(LeafInsert(n, key, val))
    ensures Balanced(LeafInsert(n, key, val), 0)
  {
    var j := LastNotAbove(n.keys, n.numKeys - 1, key);
    var k := LivePairs(n);
    LeafLivePairs(n, key, val);
    var pre := k[..j + 1];
    forall m | 0 <= m < |pre| ensures pre[m].0 < key {
      assert pre[m] == k[m];
    }
    InsertSortedAfter(pre, k[j + 1..], (key, val));
    Halves(k, j + 1);
  }

  /** After splitting the full child `c` that brackets an absent `key`, the
      child the descent picks next (btree.cpp:82-84) is bracketed by the keys
      around it. */
  lemma SplitBracket(n: Node, c: int, key: int)
    requires Wired(n) && !n.leaf && n.numKeys < MaxKeys && Ordered(n)
    requires 0 <= c <= n.numKeys && Child(n, c).numKeys == MaxKeys
    requires c == 0 || n.keys[c - 1] < key
    requires c == n.numKeys || key < n.keys[c]
    requires key !in Keys(Traverse(n))
    ensures var n1 := SplitChild(n, c);
      var c' := if n1.keys[c] < key then c + 1 else c;
      && (c' == 0 || n1.keys[c' - 1] < key) && (c' == n1.numKeys || key < n1.keys[c'])
  {
    var n1 := SplitChild(n, c);
    var med := Child(n, c).keys[T - 1];
    SplitKeysAround(n, c);
    ChildKeyInTraverse(n, c, T - 1);
    NotInKeys(Traverse(n), med, key);
    if med < key {
      assert n1.keys[c] < key;
    } else {
      assert key < n1.keys[c];
    }
  }

  lemma NotInKeys(s: seq<Pair>, a: int, b: int)
    requires a in Keys(s) && b !in Keys(s)
    ensures a != b
  {
  }

  /** A live key of a child is a key of the parent's traversal. */
  lemma ChildKeyInTraverse(n: Node, c: int, m: int)
    requires Wired(n) && !n.leaf && 0 <= c <= n.numKeys && 0 <= m < Child(n, c).numKeys
    ensures Child(n, c).keys[m] in Keys(Traverse(n))
  {
    var y := Child(n, c);
    var p := LivePairs(y)[m];
    LiveKeysInTraverse(y, m);
    assert Parts(n)[c] == Traverse(y);
    WeaveHasPart(Parts(n), LivePairs(n), c, p);
    assert p.0 == y.keys[m];
  }

  /** The keys on either side of the median after a split. */
  lemma SplitKeysAround(x: Node, i: int)
    requires Wired(x) && !x.leaf && 0 <= i <= x.numKeys && x.numKeys < MaxKeys
    requires Child(x, i).numKeys == MaxKeys
    ensures var r := SplitChild(x, i);
      && r.keys[i] == Child(x, i).keys[T - 1]
      && (i > 0 ==> r.keys[i - 1] == x.keys[i - 1])
      && (i < x.numKeys ==> r.keys[i + 1] == x.keys[i])
  {
  }

  /** One descent step into child `c`, bracketed by the keys around it. */
  lemma {:induction false} DescendCorrect(n: Node, c: int, key: int, val: string, h: int)
    requires Wired(n) && !n.leaf && 0 <= c <= n.numKeys && Ordered(n) && Filled(n) && Balanced(n, h)
    requires c == 0 || n.keys[c - 1] < key
    requires c == n.numKeys || key < n.keys[c]
    requires Child(n, c).numKeys < MaxKeys && key !in Keys(Traverse(n))
    ensures Inserted(n, Descend(n, c, key, val), key, val, h)
    decreases Height(Child(n, c)), 4
  {
    var ch := Child(n, c);
    var sub := InsertNonFull(ch, key, val);
    Bracket(n, c, key);
    OrderedParts(n);
    InsertNonFullCorrect(ch, key, val, h - 1);
    ReplaceChild(n, c, sub);
    TraverseAround(n, c);
    InsertSortedMiddle(Before(n, c), Traverse(ch), After(n, c), (key, val));
    ReplaceChildFilled(n, c, sub);
    ReplaceChildBalanced(n, c, sub, h);
    assert Inserted(n, n.(children := n.children[c := To(sub)]), key, val, h);
  }
}

/** The node of the B-tree in Lab_3/Lab_3/btree.h:24-48: fixed arrays of
    MaxKeys keys and payloads, MaxKeys + 1 child pointers, a count of live
    keys and a leaf flag. Slots at or past the count keep whatever they held
    last ("stale" slots), exactly as the C++ arrays do. */
module BTreeNodes {
  import opened InOrder
  import opened Arrays

  /** Minimum degree `T1000` (btree.h:10). */
  const T: int := 10
  /** Key capacity `MAX_KEY_T` (btree.h:11). */
  const MaxKeys: int := 2 * T - 1

  /** A child pointer slot: null, a pointer to a node that `merge` has
      deleted, or a pointer to a live node. */
  datatype Ptr = Null | Freed | To(node: Node)

  datatype Node = Node(keys: seq<int>, data: seq<string>, children: seq<Ptr>, numKeys: int, leaf: bool)

  /** Array sizes and count in range; every live child slot of an internal
      node points to a node; every node reachable through a slot is wired too. */
  ghost predicate Wired(n: Node)
    decreases n
  {
    && |n.keys| == MaxKeys && |n.data| == MaxKeys && |n.children| == MaxKeys + 1
    && 0 <= n.numKeys <= MaxKeys
    && (forall i :: 0 <= i < |n.children| && n.children[i].To? ==> Wired(n.children[i].node))
    && (!n.leaf ==> forall i :: 0 <= i <= n.numKeys ==> n.children[i].To?)
  }

  /** `new BTreeNode(leaf)` (btree.cpp:7-10) sets only the leaf flag and a zero count; the
      arrays stay indeterminate, and the model's choice for them is 0, "" and
      null children (see "Left out" in README.md). */
  function FreshNode(leaf: bool): (r: Node)
    ensures |r.keys| == MaxKeys && |r.data| == MaxKeys && |r.children| == MaxKeys + 1
    ensures r.numKeys == 0 && r.leaf == leaf
    ensures forall i :: 0 <= i < |r.children| ==> r.children[i] == Null
    ensures leaf ==> Wired(r)
  {
    Node(seq(MaxKeys, _ => 0), seq(MaxKeys, _ => ""), seq(MaxKeys + 1, _ => Null), 0, leaf)
  }

  /** The live child at slot `i` of an internal node. */
  function Child(n: Node, i: int): (c: Node)
    requires Wired(n) && !n.leaf && 0 <= i <= n.numKeys
    ensures Wired(c) && c < n
  {
    n.children[i].node
  }

  /** The live records of a node, in slot order. */
  function LivePairs(n: Node): (r: seq<Pair>)
    requires Wired(n)
    ensures |r| == n.numKeys
  {
    seq(n.numKeys, i requires 0 <= i < n.numKeys => (n.keys[i], n.data[i]))
  }

  /** The records `traverse` emits for the subtree at `n`, in order (btree.cpp:12-20). */
  function Traverse(n: Node): seq<Pair>
    requires Wired(n)
    decreases n, 1
  {
    if n.leaf then LivePairs(n) else Weave(Parts(n), LivePairs(n))
  }

  /** The traversals of the live children of an internal node. */
  function Parts(n: Node): (r: seq<seq<Pair>>)
    requires Wired(n) && !n.leaf
    ensures |r| == n.numKeys + 1
    decreases n, 0
  {
    seq(n.numKeys + 1, i requires 0 <= i <= n.numKeys => Traverse(n.children[i].node))
  }

  /** The records of an internal node's traversal that precede child `j`. */
  function Before(n: Node, j: int): seq<Pair>
    requires Wired(n) && !n.leaf && 0 <= j <= n.numKeys
  {
    Weave(Parts(n)[..j] + [[]], LivePairs(n)[..j])
  }

  /** The records of an internal node's traversal that follow child `j`. */
  function After(n: Node, j: int): seq<Pair>
    requires Wired(n) && !n.leaf && 0 <= j <= n.numKeys
  {
    Weave([[]] + Parts(n)[j + 1..], LivePairs(n)[j..])
  }

  /** Height counting every slot that holds a pointer, live or stale. */
  function Height(n: Node): nat
    decreases n
  {
    1 + MaxOf(seq(|n.children|, i requires 0 <= i < |n.children| =>
                  if n.children[i].To? then Height(n.children[i].node) else 0))
  }

  function MaxOf(s: seq<nat>): (m: nat)
    ensures forall i :: 0 <= i < |s| ==> s[i] <= m
    decreases |s|
  {
    if |s| == 0 then 0 else var rest := MaxOf(s[1..]); if s[0] < rest then rest else s[0]
  }

  /** Every leaf of the subtree at `n` lies `h` levels below it. */
  ghost predicate Balanced(n: Node, h: int)
    requires Wired(n)
    decreases n
  {
    if n.leaf then h == 0
    else h >= 1 && forall i :: 0 <= i <= n.numKeys ==> Balanced(n.children[i].node, h - 1)
  }

  /** Every node below `n` holds at least T - 1 keys. */
  ghost predicate Filled(n: Node)
    requires Wired(n)
    decreases n
  {
    !n.leaf ==> forall i :: 0 <= i <= n.numKeys ==>
      T - 1 <= n.children[i].node.numKeys && Filled(n.children[i].node)
  }

  /** The keys the subtree at `n` emits strictly increase. */
  ghost predicate Ordered(n: Node)
    requires Wired(n)
  {
    Increasing(Traverse(n))
  }

  /** What the in-node search needs: live keys strictly increasing and every
      internal node holding a key, throughout the subtree. */
  ghost predicate Searchable(n: Node)
    requires Wired(n)
    decreases n
  {
    && (forall i, j :: 0 <= i < j < n.numKeys ==> n.keys[i] < n.keys[j])
    && (!n.leaf ==> 1 <= n.numKeys && forall i :: 0 <= i <= n.numKeys ==> Searchable(n.children[i].node))
  }

  // ---------------------------------------------------------------- height

  lemma MaxOfBound(s: seq<nat>, b: nat)
    requires forall i :: 0 <= i < |s| ==> s[i] <= b
    ensures MaxOf(s) <= b
  {
    if |s| > 0 {
      MaxOfBound(s[1..], b);
    }
  }

  /** A node reached through a slot is lower than the node holding the slot. */
  lemma HeightBelow(n: Node, i: int)
    requires 0 <= i < |n.children| && n.children[i].To?
    ensures Height(n.children[i].node) < Height(n)
  {
    var s := seq(|n.children|, i requires 0 <= i < |n.children| =>
                 if n.children[i].To? then Height(n.children[i].node) else 0);
    assert s[i] == Height(n.children[i].node);
  }

  /** A well-sized node whose child pointers are pointers of `y`, moved
      down by `off` slots, is wired and no higher than `y`. */
  lemma BorrowedChildren(y: Node, z: Node, off: int)
    requires Wired(y) && 0 <= off
    requires |z.keys| == MaxKeys && |z.data| == MaxKeys && |z.children| == MaxKeys + 1 && 0 <= z.numKeys <= MaxKeys
    requires forall m :: 0 <= m < |z.children| && z.children[m].To? ==>
      m + off < |y.children| && z.children[m] == y.children[m + off]
    requires !z.leaf ==> forall m :: 0 <= m <= z.numKeys ==> z.children[m].To?
    ensures Wired(z) && Height(z) <= Height(y)
  {
    forall m | 0 <= m < |z.children| && z.children[m].To?
      ensures Wired(z.children[m].node) && Height(z.children[m].node) < Height(y)
    {
      HeightBelow(y, m + off);
    }
    HeightAtMost(z, Height(y));
  }

  /** A node whose slots all lead below `h` has height at most `h`. */
  lemma HeightAtMost(n: Node, h: nat)
    requires 1 <= h
    requires forall i :: 0 <= i < |n.children| && n.children[i].To? ==> Height(n.children[i].node) < h
    ensures Height(n) <= h
  {
    var s := seq(|n.children|, i requires 0 <= i < |n.children| =>
                 if n.children[i].To? then Height(n.children[i].node) else 0);
    MaxOfBound(s, h - 1);
  }

  // ---------------------------------------------------------------- traversal structure

  /** The traversal of an internal node around its child `j`. */
  lemma TraverseAround(n: Node, j: int)
    requires Wired(n) && !n.leaf && 0 <= j <= n.numKeys
    ensures Traverse(n) == Before(n, j) + Parts(n)[j] + After(n, j)
    ensures j > 0 ==> |Before(n, j)| > 0 && Before(n, j)[|Before(n, j)| - 1] == LivePairs(n)[j - 1]
    ensures j < n.numKeys ==> |After(n, j)| > 0 && After(n, j)[0] == LivePairs(n)[j]
  {
    var p := Parts(n);
    var k := LivePairs(n);
    assert p == p[..j] + [p[j]] + p[j + 1..];
    assert k == k[..j] + k[j..];
    WeaveMiddle(p[..j], p[j], p[j + 1..], k[..j], k[j..]);
    if j > 0 {
      var q := p[..j] + [[]];
      WeaveAt(q, k[..j], j - 1);
      assert q[j..] == [[]];
      assert k[..j][j..] == [];
      assert k[..j][j - 1] == k[j - 1];
    }
    if j < n.numKeys {
      assert k[j..][0] == k[j];
    }
  }

  lemma {:induction false} WeaveHasRecord(parts: seq<seq<Pair>>, kv: seq<Pair>, m: int)
    requires |parts| == |kv| + 1 && 0 <= m < |kv|
    ensures kv[m] in Weave(parts, kv)
    decreases m
  {
    if m > 0 {
      WeaveHasRecord(parts[1..], kv[1..], m - 1);
      assert kv[1..][m - 1] == kv[m];
    }
  }

  lemma {:induction false} WeaveHasPart(parts: seq<seq<Pair>>, kv: seq<Pair>, m: int, p: Pair)
    requires |parts| == |kv| + 1 && 0 <= m < |parts| && p in parts[m]
    ensures p in Weave(parts, kv)
    decreases m
  {
    if m > 0 {
      WeaveHasPart(parts[1..], kv[1..], m - 1, p);
      assert parts[1..][m - 1] == parts[m];
    }
  }

  /** The separating records of a strictly increasing interleaving increase, and so do its parts. */
  lemma {:induction false} WeaveIncreasing(parts: seq<seq<Pair>>, kv: seq<Pair>)
    requires |parts| == |kv| + 1 && Increasing(Weave(parts, kv))
    ensures Increasing(kv)
    ensures forall m :: 0 <= m < |parts| ==> Increasing(parts[m])
    decreases |kv|
  {
    if |kv| > 0 {
      var w := Weave(parts[1..], kv[1..]);
      IncreasingConcat3(parts[0], [kv[0]], w);
      WeaveIncreasing(parts[1..], kv[1..]);
      forall m | 0 <= m < |parts| ensures Increasing(parts[m]) {
        if m > 0 {
          assert parts[1..][m - 1] == parts[m];
        }
      }
      var s := parts[0] + [kv[0]] + w;
      forall a, b | 0 <= a < b < |kv| ensures kv[a].0 < kv[b].0 {
        if a == 0 {
          WeaveHasRecord(parts[1..], kv[1..], b - 1);
          assert kv[1..][b - 1] == kv[b];
          var x :| 0 <= x < |w| && w[x] == kv[b];
          assert s[|parts[0]|] == kv[0];
          assert s[|parts[0]| + 1 + x] == kv[b];
        } else {
          assert kv[1..][a - 1] == kv[a] && kv[1..][b - 1] == kv[b];
        }
      }
    }
  }

  /** An ordered internal node has ordered children and increasing live keys. */
  lemma OrderedParts(n: Node)
    requires Wired(n) && Ordered(n)
    ensures Increasing(LivePairs(n))
    ensures forall i, j :: 0 <= i < j < n.numKeys ==> n.keys[i] < n.keys[j]
    ensures !n.leaf ==> forall i :: 0 <= i <= n.numKeys ==> Ordered(n.children[i].node)
  {
    if !n.leaf {
      WeaveIncreasing(Parts(n), LivePairs(n));
      forall i | 0 <= i <= n.numKeys ensures Ordered(n.children[i].node) {
        assert Parts(n)[i] == Traverse(n.children[i].node);
      }
    }
    var k := LivePairs(n);
    forall i, j | 0 <= i < j < n.numKeys ensures n.keys[i] < n.keys[j] {
      assert k[i].0 == n.keys[i] && k[j].0 == n.keys[j];
    }
  }

  /** Keys of `Before(n, j)` lie below every key of child `j` and of `After(n, j)`, and so on. */
  lemma Bracket(n: Node, j: int, key: int)
    requires Wired(n) && !n.leaf && Ordered(n) && 0 <= j <= n.numKeys
    requires j == 0 || n.keys[j - 1] < key
    requires j == n.numKeys || key < n.keys[j]
    ensures AllBelow(Before(n, j), key) && AllAbove(After(n, j), key)
    ensures key in Keys(Traverse(n)) <==> key in Keys(Parts(n)[j])
  {
    TraverseAround(n, j);
    var b := Before(n, j);
    var a := After(n, j);
    var m := Parts(n)[j];
    IncreasingConcat3(b, m, a);
    if j > 0 {
      assert b[|b| - 1].0 == n.keys[j - 1];
    }
    if j < n.numKeys {
      assert a[0].0 == n.keys[j];
    }
    AllBelowNotIn(b, key);
    AllBelowNotIn(a, key);
    KeysConcat(b + m, a);
    KeysConcat(b, m);
  }

  /** Two nodes with the same record arrays and count hold the same live records. */
  lemma SameRecords(a: Node, b: Node)
    requires Wired(a) && Wired(b) && a.keys == b.keys && a.data == b.data && a.numKeys == b.numKeys
    ensures LivePairs(a) == LivePairs(b)
  {
  }

  /** Replacing one child slot changes the traversal at that part only. */
  lemma ReplaceChild(n: Node, j: int, c: Node)
    requires Wired(n) && !n.leaf && 0 <= j <= n.numKeys && Wired(c)
    ensures Wired(n.(children := n.children[j := To(c)]))
    ensures var n' := n.(children := n.children[j := To(c)]);
      Traverse(n') == Before(n, j) + Traverse(c) + After(n, j)
  {
    var n' := n.(children := n.children[j := To(c)]);
    assert Parts(n') == Parts(n)[j := Traverse(c)];
    assert LivePairs(n') == LivePairs(n);
    assert Parts(n')[..j] == Parts(n)[..j];
    assert Parts(n')[j + 1..] == Parts(n)[j + 1..];
    TraverseAround(n', j);
  }

  /** A node whose children are those of `x` with one slot opened at `i`
      has the parts of `x` with the parts of its children `i` and `i + 1`
      in place of part `i`. */
  lemma PartsOpen(x: Node, r: Node, i: int)
    requires Wired(x) && !x.leaf && Wired(r) && !r.leaf
    requires 0 <= i <= x.numKeys && r.numKeys == x.numKeys + 1
    requires forall m :: 0 <= m <= x.numKeys + 1 && m != i && m != i + 1 ==>
      r.children[m] == x.children[if m < i then m else m - 1]
    ensures Parts(r) == Parts(x)[..i] + [Traverse(Child(r, i))] + ([Traverse(Child(r, i + 1))] + Parts(x)[i + 1..])
  {
    var px := Parts(x);
    var s := px[..i] + [Traverse(Child(r, i))] + ([Traverse(Child(r, i + 1))] + px[i + 1..]);
    var pr := Parts(r);
    forall m | 0 <= m < |pr| ensures pr[m] == s[m] {
      if m < i {
        assert r.children[m] == x.children[m];
      } else if m > i + 1 {
        assert r.children[m] == x.children[m - 1];
      }
    }
    SeqExt(pr, s);
  }

  /** A node sharing the children of `y` but fewer live keys has a prefix of its parts. */
  lemma PartsPrefix(y: Node, y': Node)
    requires Wired(y) && !y.leaf && Wired(y') && !y'.leaf
    requires y'.children == y.children && y'.numKeys <= y.numKeys
    ensures Parts(y') == Parts(y)[..y'.numKeys + 1]
  {
    var p := Parts(y)[..y'.numKeys + 1];
    forall m | 0 <= m < |p| ensures Parts(y')[m] == p[m] {
    }
    SeqExt(Parts(y'), p);
  }

  /** A node whose live children are those of `y` from slot `off` on has the parts of `y` from `off` on. */
  lemma PartsSuffix(y: Node, z: Node, off: int)
    requires Wired(y) && !y.leaf && Wired(z) && !z.leaf
    requires 0 <= off && z.numKeys + off == y.numKeys
    requires forall m :: 0 <= m <= z.numKeys ==> z.children[m] == y.children[m + off]
    ensures Parts(z) == Parts(y)[off..]
  {
    var p := Parts(y)[off..];
    forall m | 0 <= m < |p| ensures Parts(z)[m] == p[m] {
      assert z.children[m] == y.children[m + off];
    }
    SeqExt(Parts(z), p);
  }

  /** A node whose records are those of `x` with slot `i` opened for `p`
      lists the live records of `x` with `p` inserted at position `i`. */
  lemma LivePairsOpen(x: Node, r: Node, i: int, p: Pair)
    requires Wired(x) && Wired(r) && 0 <= i <= x.numKeys < MaxKeys && r.numKeys == x.numKeys + 1
    requires r.keys == OpenSlot(x.keys, x.numKeys, i, p.0) && r.data == OpenSlot(x.data, x.numKeys, i, p.1)
    ensures LivePairs(r) == LivePairs(x)[..i] + ([p] + LivePairs(x)[i..])
  {
    var kx := LivePairs(x);
    var s := kx[..i] + ([p] + kx[i..]);
    var kr := LivePairs(r);
    forall m | 0 <= m < |kr| ensures kr[m] == s[m] {
      if m < i {
        assert s[m] == kx[m];
      } else if m > i {
        assert s[m] == kx[m - 1];
      }
    }
    SeqExt(kr, s);
  }

  /** A node whose records are those of `x` with slot `i` closed (the records
      past it moved one slot down) lists the live records of `x` without record `i`. */
  lemma LivePairsClose(x: Node, r: Node, i: int)
    requires Wired(x) && Wired(r) && 0 <= i < x.numKeys && r.numKeys == x.numKeys - 1
    requires r.keys == ShiftDown(x.keys, i + 1, x.numKeys) && r.data == ShiftDown(x.data, i + 1, x.numKeys)
    ensures LivePairs(r) == LivePairs(x)[..i] + LivePairs(x)[i + 1..]
  {
    var kx := LivePairs(x);
    var s := kx[..i] + kx[i + 1..];
    var kr := LivePairs(r);
    forall m | 0 <= m < |kr| ensures kr[m] == s[m] {
      if m < i {
        assert s[m] == kx[m];
      } else {
        assert s[m] == kx[m + 1];
      }
    }
    SeqExt(kr, s);
  }

  /** A node whose children are those of `x` with slots `i` and `i + 1` closed
      into one has the parts of `x` with its own child `i` in place of parts `i` and `i + 1`. */
  lemma PartsClose(x: Node, r: Node, i: int)
    requires Wired(x) && !x.leaf && Wired(r) && !r.leaf
    requires 0 <= i < x.numKeys && r.numKeys == x.numKeys - 1
    requires forall m :: 0 <= m <= r.numKeys && m != i ==> r.children[m] == x.children[if m < i then m else m + 1]
    ensures Parts(r) == Parts(x)[..i] + [Traverse(Child(r, i))] + Parts(x)[i + 2..]
  {
    var px := Parts(x);
    var s := px[..i] + [Traverse(Child(r, i))] + px[i + 2..];
    var pr := Parts(r);
    forall m | 0 <= m < |pr| ensures pr[m] == s[m] {
      if m < i {
        assert r.children[m] == x.children[m];
      } else if m > i {
        assert r.children[m] == x.children[m + 1];
        assert s[m] == px[m + 1];
      }
    }
    SeqExt(pr, s);
  }

  /** The traversal of an internal node around its record `j` and the two children beside it. */
  lemma TraverseSeparator(n: Node, j: int)
    requires Wired(n) && !n.leaf && 0 <= j < n.numKeys
    ensures Traverse(n) == Before(n, j) + (Parts(n)[j] + [LivePairs(n)[j]] + Parts(n)[j + 1]) + After(n, j + 1)
  {
    var p := Parts(n);
    var k := LivePairs(n);
    assert p == p[..j] + [p[j]] + ([p[j + 1]] + p[j + 2..]);
    assert k == k[..j] + ([k[j]] + k[j + 1..]);
    WeaveSplitPart(p[..j], p[j], k[j], p[j + 1], p[j + 2..], k[..j], k[j + 1..]);
    WeaveMiddle(p[..j], p[j] + [k[j]] + p[j + 1], p[j + 2..], k[..j], k[j + 1..]);
  }

  /** Changing only children `j` and `j + 1` and record `j` of a node leaves
      what precedes and what follows them in its traversal unchanged. */
  lemma Local(n: Node, n': Node, j: int)
    requires Wired(n) && !n.leaf && Wired(n') && !n'.leaf && n'.numKeys == n.numKeys && 0 <= j < n.numKeys
    requires forall m :: 0 <= m <= n.numKeys && m != j && m != j + 1 ==> n'.children[m] == n.children[m]
    requires forall m :: 0 <= m < n.numKeys && m != j ==> n'.keys[m] == n.keys[m] && n'.data[m] == n.data[m]
    ensures Traverse(n') == Before(n, j) + (Parts(n')[j] + [LivePairs(n')[j]] + Parts(n')[j + 1]) + After(n, j + 1)
  {
    var p, p' := Parts(n), Parts(n');
    var k, k' := LivePairs(n), LivePairs(n');
    forall m | 0 <= m < j ensures p'[m] == p[m] && k'[m] == k[m] {
      assert n'.children[m] == n.children[m];
    }
    forall m | j + 2 <= m <= n.numKeys ensures p'[m] == p[m] {
      assert n'.children[m] == n.children[m];
    }
    forall m | j + 1 <= m < n.numKeys ensures k'[m] == k[m] {
    }
    SeqExt(p'[..j], p[..j]);
    SeqExt(k'[..j], k[..j]);
    SeqExt(p'[j + 2..], p[j + 2..]);
    SeqExt(k'[j + 1..], k[j + 1..]);
    TraverseSeparator(n', j);
  }

  /** The live records of a node are among its traversal's records. */
  lemma LiveKeysInTraverse(n: Node, m: int)
    requires Wired(n) && 0 <= m < n.numKeys
    ensures LivePairs(n)[m] in Traverse(n) && n.keys[m] in Keys(Traverse(n))
  {
    assert LivePairs(n)[m].0 == n.keys[m];
    if !n.leaf {
      WeaveHasRecord(Parts(n), LivePairs(n), m);
    }
    assert LivePairs(n)[m] in Traverse(n);
  }

  /** In an ordered node, the live keys of child `j` lie between the records
      on either side of it. */
  lemma ChildKeysBracketed(n: Node, j: int, m: int)
    requires Wired(n) && !n.leaf && Ordered(n) && 0 <= j <= n.numKeys && 0 <= m < Child(n, j).numKeys
    ensures j < n.numKeys ==> Child(n, j).keys[m] < n.keys[j]
    ensures 0 < j ==> n.keys[j - 1] < Child(n, j).keys[m]
  {
    var c := Child(n, j);
    var p := LivePairs(c)[m];
    LiveKeysInTraverse(c, m);
    assert Parts(n)[j] == Traverse(c);
    if j < n.numKeys {
      TraverseSeparator(n, j);
      SepOrder(Before(n, j), Parts(n)[j], LivePairs(n)[j], Parts(n)[j + 1], After(n, j + 1), p);
    }
    if 0 < j {
      TraverseSeparator(n, j - 1);
      SepOrder(Before(n, j - 1), Parts(n)[j - 1], LivePairs(n)[j - 1], Parts(n)[j], After(n, j), p);
    }
  }

  /** Replacing a child by a node at least half full keeps the node filled. */
  lemma ReplaceChildFilled(n: Node, j: int, c: Node)
    requires Wired(n) && !n.leaf && 0 <= j <= n.numKeys && Wired(c)
    requires Filled(n) && Filled(c) && T - 1 <= c.numKeys
    ensures Filled(n.(children := n.children[j := To(c)]))
  {
  }

  /** Replacing a child by a node of the same height keeps the node balanced. */
  lemma ReplaceChildBalanced(n: Node, j: int, c: Node, h: int)
    requires Wired(n) && !n.leaf && 0 <= j <= n.numKeys && Wired(c)
    requires Balanced(n, h) && Balanced(c, h - 1)
    ensures Balanced(n.(children := n.children[j := To(c)]), h)
  {
  }

  /** Each child of a filled, balanced node is filled, balanced one level lower, and holds at least T - 1 keys. */
  lemma ChildValid(n: Node, j: int, h: int)
    requires Wired(n) && !n.leaf && 0 <= j <= n.numKeys && Filled(n) && Balanced(n, h)
    ensures T - 1 <= Child(n, j).numKeys && Filled(Child(n, j)) && Balanced(Child(n, j), h - 1)
  {
  }

  /** A node whose children `j` and `j + 1` alone were replaced by filled
      subtrees of the same height is still filled and balanced. */
  lemma PairReplaced(n: Node, r: Node, j: int, a: Node, b: Node, h: int)
    requires Wired(n) && !n.leaf && Wired(r) && !r.leaf && r.numKeys == n.numKeys && 0 <= j < n.numKeys
    requires forall m :: 0 <= m <= n.numKeys && m != j && m != j + 1 ==> r.children[m] == n.children[m]
    requires r.children[j] == To(a) && r.children[j + 1] == To(b)
    requires Filled(n) && Balanced(n, h) && Wired(a) && Wired(b)
    requires T - 1 <= a.numKeys && Filled(a) && Balanced(a, h - 1)
    requires T - 1 <= b.numKeys && Filled(b) && Balanced(b, h - 1)
    ensures Filled(r) && Balanced(r, h)
  {
    forall m | 0 <= m <= r.numKeys
      ensures T - 1 <= r.children[m].node.numKeys && Filled(r.children[m].node)
      ensures Balanced(r.children[m].node, h - 1)
    {
      if m != j && m != j + 1 {
        assert r.children[m] == n.children[m];
      }
    }
  }

  /** A node with the children, count and leaf flag of a filled, balanced
      node is filled and balanced too, at the same depth. */
  lemma SameShape(n: Node, r: Node, h: int)
    requires Wired(n) && Wired(r) && r.children == n.children && r.numKeys == n.numKeys && r.leaf == n.leaf
    requires Filled(n) && Balanced(n, h)
    ensures Filled(r) && Balanced(r, h) && Depth(r) == Depth(n)
  {
    if !n.leaf {
      assert Child(r, 0) == Child(n, 0);
    }
  }

  /** The depth of the leftmost path; the height at which a balanced node sits. */
  function Depth(n: Node): (d: nat)
    requires Wired(n)
    decreases n
  {
    if n.leaf then 0 else 1 + Depth(Child(n, 0))
  }

  lemma BalancedDepth(n: Node, h: int)
    requires Wired(n) && Balanced(n, h)
    ensures h == Depth(n)
    decreases n
  {
    if !n.leaf {
      BalancedDepth(Child(n, 0), h - 1);
    }
  }

  /** Every node of a valid subtree holds at least one key, except possibly the top leaf. */
  lemma FilledSearchable(n: Node)
    requires Wired(n) && Ordered(n) && Filled(n) && (n.leaf || 1 <= n.numKeys)
    ensures Searchable(n)
    decreases n
  {
    OrderedParts(n);
    if !n.leaf {
      forall i | 0 <= i <= n.numKeys ensures Searchable(n.children[i].node) {
        FilledSearchable(n.children[i].node);
      }
    }
  }
}

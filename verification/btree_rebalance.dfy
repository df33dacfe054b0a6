/** Rebalancing before a removal descends into a child holding only T - 1
    keys: `fill`, `borrow_from_prev`, `borrow_from_next` and
    `merge_child_keys` (Lab_3/Lab_3/btree.cpp:242-338). Each keeps the
    records the node emits, in order, and keeps every node below it at least
    half full with all leaves at one depth. */
module BTreeRebalance {
  import opened InOrder
  import opened Arrays
  import opened BTreeNodes

  /** What rebalancing assumes of an internal node: every child holds at
      least T - 1 keys, and the children are all leaves or all internal. */
  ghost predicate Siblings(n: Node)
    requires Wired(n)
  {
    && !n.leaf
    && forall j :: 0 <= j <= n.numKeys ==> T - 1 <= Child(n, j).numKeys && Child(n, j).leaf == Child(n, 0).leaf
  }

  /** A filled, balanced internal node meets what rebalancing assumes. */
  lemma ValidSiblings(n: Node, h: int)
    requires Wired(n) && !n.leaf && Filled(n) && Balanced(n, h)
    ensures Siblings(n)
  {
    forall j | 0 <= j <= n.numKeys ensures Child(n, j).leaf == (h == 1) {
      assert Balanced(Child(n, j), h - 1);
    }
  }

  // ---------------------------------------------------------------- merge_child_keys

  /** The child of `merge_child_keys` after it takes the separating record
      `p` into slot T - 1 and the records and children of its right sibling
      `s` from slot T on (btree.cpp:311-321, 327). */
  function Merged(c: Node, p: Pair, s: Node): (r: Node)
    requires Wired(c) && Wired(s) && c.numKeys == T - 1 && s.numKeys <= T - 1 && c.leaf == s.leaf
    ensures Wired(r) && r.leaf == c.leaf && r.numKeys == T + s.numKeys
  {
    Node(Copy(c.keys[T - 1 := p.0], T, s.keys, 0, 0, s.numKeys),
         Copy(c.data[T - 1 := p.1], T, s.data, 0, 0, s.numKeys),
         if c.leaf then c.children else Copy(c.children, T, s.children, 0, 0, s.numKeys + 1),
         T + s.numKeys, c.leaf)
  }

  /** The merged child lists the records of `c`, then `p`, then those of `s`. */
  lemma MergedTraverse(c: Node, p: Pair, s: Node)
    requires Wired(c) && Wired(s) && c.numKeys == T - 1 && s.numKeys <= T - 1 && c.leaf == s.leaf
    ensures Traverse(Merged(c, p, s)) == Traverse(c) + [p] + Traverse(s)
  {
    MergedLive(c, p, s);
    if !c.leaf {
      MergedParts(c, p, s);
      WeaveJoin(Parts(c), LivePairs(c), p, Parts(s), LivePairs(s));
    }
  }

  /** The live records of the merged child. */
  lemma MergedLive(c: Node, p: Pair, s: Node)
    requires Wired(c) && Wired(s) && c.numKeys == T - 1 && s.numKeys <= T - 1 && c.leaf == s.leaf
    ensures LivePairs(Merged(c, p, s)) == LivePairs(c) + ([p] + LivePairs(s))
  {
    var r := Merged(c, p, s);
    var lc, ls := LivePairs(c), LivePairs(s);
    var want := lc + ([p] + ls);
    forall m | 0 <= m < |want| ensures LivePairs(r)[m] == want[m] {
      if m < T - 1 {
        assert r.keys[m] == c.keys[m] && r.data[m] == c.data[m];
        assert want[m] == lc[m];
      } else if m == T - 1 {
        assert r.keys[m] == p.0 && r.data[m] == p.1;
        assert want[m] == p;
      } else {
        assert r.keys[m] == s.keys[m - T] && r.data[m] == s.data[m - T];
        assert want[m] == ls[m - T];
      }
    }
    SeqExt(LivePairs(r), want);
  }

  /** The subtrees of an internal merged child: those of `c`, then those of `s`. */
  lemma MergedParts(c: Node, p: Pair, s: Node)
    requires Wired(c) && Wired(s) && c.numKeys == T - 1 && s.numKeys <= T - 1 && c.leaf == s.leaf && !c.leaf
    ensures Parts(Merged(c, p, s)) == Parts(c) + Parts(s)
  {
    var r := Merged(c, p, s);
    var pc, ps := Parts(c), Parts(s);
    forall m | 0 <= m < |pc + ps| ensures Parts(r)[m] == (pc + ps)[m] {
      if m < T {
        assert r.children[m] == c.children[m];
      } else {
        assert r.children[m] == s.children[m - T];
      }
    }
    SeqExt(Parts(r), pc + ps);
  }

  /** Merging two filled, balanced siblings of one height gives a filled, balanced node of that height. */
  lemma MergedValid(c: Node, p: Pair, s: Node, h: int)
    requires Wired(c) && Wired(s) && c.numKeys == T - 1 && s.numKeys <= T - 1 && c.leaf == s.leaf
    requires Filled(c) && Filled(s) && Balanced(c, h) && Balanced(s, h)
    ensures Filled(Merged(c, p, s)) && Balanced(Merged(c, p, s), h)
  {
    var r := Merged(c, p, s);
    if !c.leaf {
      forall m | 0 <= m <= r.numKeys
        ensures T - 1 <= r.children[m].node.numKeys && Filled(r.children[m].node)
        ensures Balanced(r.children[m].node, h - 1)
      {
        if m < T {
          assert r.children[m] == c.children[m];
        } else {
          assert r.children[m] == s.children[m - T];
        }
      }
    }
  }

  /** `merge_child_keys(idx)` (btree.cpp:305-338): child `i` absorbs record
      `i` and child `i + 1`; the records past `i` and the children past
      `i + 1` move one slot down, and the node loses a key. The deleted
      sibling's pointer stays behind in slot `i + 1` when no child moves into it. */
  function Merge(n: Node, i: int): (r: Node)
    requires Wired(n) && !n.leaf && 0 <= i < n.numKeys
    requires Child(n, i).numKeys == T - 1 && Child(n, i + 1).numKeys <= T - 1
    requires Child(n, i).leaf == Child(n, i + 1).leaf
    ensures Wired(r) && !r.leaf && r.numKeys == n.numKeys - 1
    ensures Child(r, i) == Merged(Child(n, i), LivePairs(n)[i], Child(n, i + 1))
    ensures forall m :: 0 <= m <= r.numKeys && m != i ==> r.children[m] == n.children[if m < i then m else m + 1]
    ensures i + 1 == n.numKeys ==> r.children[i + 1] == Freed
  {
    var merged := Merged(Child(n, i), LivePairs(n)[i], Child(n, i + 1));
    var moved := ShiftDown(n.children[i + 1 := Freed], i + 2, n.numKeys + 1);
    var ch := moved[i := To(merged)];
    forall m | 0 <= m < |ch| && ch[m].To? ensures Wired(ch[m].node) {
      if m != i {
        assert ch[m] == moved[m];
      }
    }
    Node(ShiftDown(n.keys, i + 1, n.numKeys), ShiftDown(n.data, i + 1, n.numKeys), ch, n.numKeys - 1, false)
  }

  /** Merging leaves the node's records, and what precedes and follows the merged child, unchanged. */
  lemma MergeTraverse(n: Node, i: int)
    requires Wired(n) && !n.leaf && 0 <= i < n.numKeys
    requires Child(n, i).numKeys == T - 1 && Child(n, i + 1).numKeys <= T - 1
    requires Child(n, i).leaf == Child(n, i + 1).leaf
    ensures Before(Merge(n, i), i) == Before(n, i)
    ensures After(Merge(n, i), i) == After(n, i + 1)
    ensures Traverse(Child(Merge(n, i), i)) == Parts(n)[i] + [LivePairs(n)[i]] + Parts(n)[i + 1]
    ensures Traverse(Merge(n, i)) == Traverse(n)
  {
    var r := Merge(n, i);
    var pn, kn := Parts(n), LivePairs(n);
    LivePairsClose(n, r, i);
    PartsClose(n, r, i);
    MergedTraverse(Child(n, i), kn[i], Child(n, i + 1));
    assert Parts(r)[..i] == pn[..i];
    assert LivePairs(r)[..i] == kn[..i];
    assert Parts(r)[i + 1..] == pn[i + 2..];
    assert LivePairs(r)[i..] == kn[i + 1..];
    TraverseAround(r, i);
    TraverseSeparator(n, i);
  }

  /** Merging two siblings with T - 1 keys and fewer keeps the node filled and balanced. */
  lemma MergeValid(n: Node, i: int, h: int)
    requires Wired(n) && !n.leaf && 0 <= i < n.numKeys
    requires Child(n, i).numKeys == T - 1 && Child(n, i + 1).numKeys <= T - 1
    requires Child(n, i).leaf == Child(n, i + 1).leaf
    requires Filled(n) && Balanced(n, h)
    ensures Filled(Merge(n, i)) && Balanced(Merge(n, i), h)
  {
    var r := Merge(n, i);
    MergedValid(Child(n, i), LivePairs(n)[i], Child(n, i + 1), h - 1);
    forall m | 0 <= m <= r.numKeys
      ensures T - 1 <= r.children[m].node.numKeys && Filled(r.children[m].node)
      ensures Balanced(r.children[m].node, h - 1)
    {
      if m != i {
        assert r.children[m] == n.children[if m < i then m else m + 1];
      }
    }
  }

  // ---------------------------------------------------------------- borrow_from_prev

  /** The child of `borrow_from_prev` (btree.cpp:261-273, 276): its records
      and, when internal, its children move one slot up; `p` takes record
      slot 0 and `z` child slot 0. */
  function Prepend(c: Node, p: Pair, z: Ptr): (r: Node)
    requires Wired(c) && c.numKeys < MaxKeys && (!c.leaf ==> z.To?) && (z.To? ==> Wired(z.node))
    ensures Wired(r) && r.leaf == c.leaf && r.numKeys == c.numKeys + 1
  {
    var ch := if c.leaf then c.children else OpenSlot(c.children, c.numKeys + 1, 0, z);
    assert forall m :: 0 <= m < |ch| && ch[m].To? ==> Wired(ch[m].node);
    Node(OpenSlot(c.keys, c.numKeys, 0, p.0), OpenSlot(c.data, c.numKeys, 0, p.1), ch, c.numKeys + 1, c.leaf)
  }

  /** The prepended child lists the records below `z`, then `p`, then its own. */
  lemma PrependTraverse(c: Node, p: Pair, z: Ptr)
    requires Wired(c) && c.numKeys < MaxKeys && (!c.leaf ==> z.To?) && (z.To? ==> Wired(z.node))
    ensures Traverse(Prepend(c, p, z)) == (if c.leaf then [] else Traverse(z.node)) + [p] + Traverse(c)
  {
    PrependLive(c, p, z);
    if !c.leaf {
      PrependParts(c, p, z);
      WeaveJoin([Traverse(z.node)], [], p, Parts(c), LivePairs(c));
    }
  }

  /** The prepended child's records: `p`, then those of `c`. */
  lemma PrependLive(c: Node, p: Pair, z: Ptr)
    requires Wired(c) && c.numKeys < MaxKeys && (!c.leaf ==> z.To?) && (z.To? ==> Wired(z.node))
    ensures LivePairs(Prepend(c, p, z)) == [] + ([p] + LivePairs(c))
  {
    var lc := LivePairs(c);
    LivePairsOpen(c, Prepend(c, p, z), 0, p);
    assert lc[..0] == [] && lc[0..] == lc;
  }

  /** The children of the prepended child: `z`, then those of `c`. */
  lemma PrependChildren(c: Node, p: Pair, z: Ptr)
    requires Wired(c) && c.numKeys < MaxKeys && !c.leaf && z.To? && Wired(z.node)
    ensures var r := Prepend(c, p, z);
      r.children[0] == z && forall m :: 0 <= m <= c.numKeys ==> r.children[m + 1] == c.children[m]
  {
  }

  /** The prepended child's subtrees: the one below `z`, then those of `c`. */
  lemma PrependParts(c: Node, p: Pair, z: Ptr)
    requires Wired(c) && c.numKeys < MaxKeys && !c.leaf && z.To? && Wired(z.node)
    ensures Parts(Prepend(c, p, z)) == [Traverse(z.node)] + Parts(c)
  {
    var r := Prepend(c, p, z);
    PrependChildren(c, p, z);
    PartsSuffix(r, c, 1);
    var pr := Parts(r);
    Halves(pr, 1);
    assert pr[..1] == [Traverse(z.node)];
  }

  /** A prepended child stays filled and balanced when `z` is a filled subtree one level lower. */
  lemma PrependValid(c: Node, p: Pair, z: Ptr, h: int)
    requires Wired(c) && c.numKeys < MaxKeys && (!c.leaf ==> z.To?) && (z.To? ==> Wired(z.node))
    requires Filled(c) && Balanced(c, h)
    requires !c.leaf ==> T - 1 <= z.node.numKeys && Filled(z.node) && Balanced(z.node, h - 1)
    ensures Filled(Prepend(c, p, z)) && Balanced(Prepend(c, p, z), h)
  {
    var r := Prepend(c, p, z);
    if !c.leaf {
      forall m | 0 <= m <= r.numKeys
        ensures T - 1 <= r.children[m].node.numKeys && Filled(r.children[m].node)
        ensures Balanced(r.children[m].node, h - 1)
      {
        if m > 0 {
          assert r.children[m] == c.children[m - 1];
        }
      }
    }
  }

  /** The traversal of a node with at least one key, around its last record. */
  lemma DropLastTraverse(s: Node)
    requires Wired(s) && 1 <= s.numKeys
    ensures Traverse(s) == Traverse(s.(numKeys := s.numKeys - 1)) + [LivePairs(s)[s.numKeys - 1]] +
                           (if s.leaf then [] else Traverse(Child(s, s.numKeys)))
  {
    var k := s.numKeys;
    var s' := s.(numKeys := k - 1);
    var ls := LivePairs(s);
    assert LivePairs(s') == ls[..k - 1];
    if s.leaf {
      assert ls == ls[..k - 1] + [ls[k - 1]];
    } else {
      var ps := Parts(s);
      WeaveAt(ps, ls, k - 1);
      PartsPrefix(s, s');
      assert ps[k..] == [ps[k]];
      assert ls[k..] == [];
    }
  }

  /** A node with at least T keys stays filled and balanced without its last record and child. */
  lemma DropLastValid(s: Node, h: int)
    requires Wired(s) && T <= s.numKeys && Filled(s) && Balanced(s, h)
    ensures Filled(s.(numKeys := s.numKeys - 1)) && Balanced(s.(numKeys := s.numKeys - 1), h)
  {
  }

  /** `borrow_from_prev(idx)` (btree.cpp:257-278), giving the record that moves
      down from the parent the payload `v`: the separating record joins child
      `i` at its front, the last record of child `i - 1` replaces it in the
      node, and the last child of child `i - 1` becomes the first of child `i`. */
  function BorrowFromPrevWith(n: Node, i: int, v: string): (r: Node)
    requires Wired(n) && !n.leaf && 0 < i <= n.numKeys
    requires Child(n, i).numKeys < MaxKeys && 1 <= Child(n, i - 1).numKeys
    requires Child(n, i).leaf == Child(n, i - 1).leaf
    ensures Wired(r) && !r.leaf && r.numKeys == n.numKeys
    ensures Child(r, i).numKeys == Child(n, i).numKeys + 1 && Child(r, i - 1).numKeys == Child(n, i - 1).numKeys - 1
    ensures forall m :: 0 <= m <= n.numKeys && m != i - 1 && m != i ==> r.children[m] == n.children[m]
    ensures forall m :: 0 <= m < n.numKeys && m != i - 1 ==> r.keys[m] == n.keys[m] && r.data[m] == n.data[m]
  {
    var c := Child(n, i);
    var s := Child(n, i - 1);
    var k := s.numKeys;
    var c' := Prepend(c, (n.keys[i - 1], v), s.children[k]);
    var s' := s.(numKeys := k - 1);
    var ch := n.children[i - 1 := To(s')][i := To(c')];
    assert forall m :: 0 <= m < |ch| && ch[m].To? ==> Wired(ch[m].node);
    n.(keys := n.keys[i - 1 := s.keys[k - 1]], data := n.data[i - 1 := s.data[k - 1]], children := ch)
  }

  /** `borrow_from_prev` as intended: the separating record keeps its payload. */
  function BorrowFromPrev(n: Node, i: int): (r: Node)
    requires Wired(n) && !n.leaf && 0 < i <= n.numKeys
    requires Child(n, i).numKeys < MaxKeys && 1 <= Child(n, i - 1).numKeys
    requires Child(n, i).leaf == Child(n, i - 1).leaf
    ensures Wired(r) && !r.leaf && r.numKeys == n.numKeys
  {
    BorrowFromPrevWith(n, i, n.data[i - 1])
  }

  /** `borrow_from_prev` as written: line 270 stores the separating key in
      the child's slot 0 but not its payload, so slot 0 keeps the child's old
      first payload, which the shift has already copied to slot 1. */
  function BorrowFromPrevAsWritten(n: Node, i: int): (r: Node)
    requires Wired(n) && !n.leaf && 0 < i <= n.numKeys
    requires Child(n, i).numKeys < MaxKeys && 1 <= Child(n, i - 1).numKeys
    requires Child(n, i).leaf == Child(n, i - 1).leaf
    ensures Wired(r) && !r.leaf && r.numKeys == n.numKeys
  {
    BorrowFromPrevWith(n, i, Child(n, i).data[0])
  }

  /** The two children a borrow from the left rewrites, and the record it moves up. */
  lemma BorrowPrevParts(n: Node, i: int, v: string)
    requires Wired(n) && !n.leaf && 0 < i <= n.numKeys
    requires Child(n, i).numKeys < MaxKeys && 1 <= Child(n, i - 1).numKeys
    requires Child(n, i).leaf == Child(n, i - 1).leaf
    ensures var r := BorrowFromPrevWith(n, i, v); var s := Child(n, i - 1);
      && Parts(r)[i - 1] == Traverse(s.(numKeys := s.numKeys - 1))
      && Parts(r)[i] == (if s.leaf then [] else Traverse(Child(s, s.numKeys))) + [(n.keys[i - 1], v)] + Parts(n)[i]
      && LivePairs(r)[i - 1] == LivePairs(s)[s.numKeys - 1]
  {
    var s := Child(n, i - 1);
    PrependTraverse(Child(n, i), (n.keys[i - 1], v), s.children[s.numKeys]);
  }

  /** The node's traversal before and after a borrow from the left differs at
      most in the payload of the record that moves down. */
  lemma BorrowPrevSplit(n: Node, i: int, v: string) returns (pre: seq<Pair>, post: seq<Pair>)
    requires Wired(n) && !n.leaf && 0 < i <= n.numKeys
    requires Child(n, i).numKeys < MaxKeys && 1 <= Child(n, i - 1).numKeys
    requires Child(n, i).leaf == Child(n, i - 1).leaf
    ensures Traverse(n) == pre + [LivePairs(n)[i - 1]] + post
    ensures Traverse(BorrowFromPrevWith(n, i, v)) == pre + [(n.keys[i - 1], v)] + post
  {
    var s := Child(n, i - 1);
    var k := s.numKeys;
    DropLastTraverse(s);
    BorrowPrevParts(n, i, v);
    pre, post := RotateRight(n, BorrowFromPrevWith(n, i, v), i - 1, (n.keys[i - 1], v),
      Traverse(s.(numKeys := k - 1)), LivePairs(s)[k - 1], if s.leaf then [] else Traverse(Child(s, k)));
  }

  /** A rotation through separator `j`: the last record of child `j` moves up
      and the separator moves down to the front of child `j + 1`, possibly
      with another payload `x`; both traversals split around the separator. */
  lemma RotateRight(n: Node, r: Node, j: int, x: Pair, front: seq<Pair>, l: Pair, tail: seq<Pair>)
    returns (pre: seq<Pair>, post: seq<Pair>)
    requires Wired(n) && !n.leaf && Wired(r) && !r.leaf && r.numKeys == n.numKeys && 0 <= j < n.numKeys
    requires forall m :: 0 <= m <= n.numKeys && m != j && m != j + 1 ==> r.children[m] == n.children[m]
    requires forall m :: 0 <= m < n.numKeys && m != j ==> r.keys[m] == n.keys[m] && r.data[m] == n.data[m]
    requires Parts(n)[j] == front + [l] + tail && Parts(r)[j] == front && LivePairs(r)[j] == l
    requires Parts(r)[j + 1] == tail + [x] + Parts(n)[j + 1]
    ensures Traverse(n) == pre + [LivePairs(n)[j]] + post
    ensures Traverse(r) == pre + [x] + post
  {
    TraverseSeparator(n, j);
    Local(n, r, j);
    var b, a := Before(n, j), After(n, j + 1);
    Shuffle(b, front, l, tail, LivePairs(n)[j], Parts(n)[j + 1], a);
    Shuffle(b, front, l, tail, x, Parts(n)[j + 1], a);
    pre := b + front + [l] + tail;
    post := Parts(n)[j + 1] + a;
  }

  /** The regrouping both sides of a rotation through the parent need. */
  lemma Shuffle(b: seq<Pair>, p: seq<Pair>, l: Pair, t: seq<Pair>, x: Pair, q: seq<Pair>, a: seq<Pair>)
    ensures b + ((p + [l] + t) + [x] + q) + a == (b + p + [l] + t) + [x] + (q + a)
    ensures b + (p + [l] + (t + [x] + q)) + a == (b + p + [l] + t) + [x] + (q + a)
    ensures b + (q + [x] + (t + [l] + p)) + a == (b + q) + [x] + (t + [l] + p + a)
    ensures b + ((q + [x] + t) + [l] + p) + a == (b + q) + [x] + (t + [l] + p + a)
  {
  }

  /** Borrowing from the left sibling keeps the node's records. */
  lemma BorrowFromPrevPreserves(n: Node, i: int)
    requires Wired(n) && !n.leaf && 0 < i <= n.numKeys
    requires Child(n, i).numKeys < MaxKeys && 1 <= Child(n, i - 1).numKeys
    requires Child(n, i).leaf == Child(n, i - 1).leaf
    ensures Traverse(BorrowFromPrev(n, i)) == Traverse(n)
  {
    var pre, post := BorrowPrevSplit(n, i, n.data[i - 1]);
  }

  /** As written, the borrow replaces the separating record's payload by the
      child's old first payload, so unless the two agree the node's records change. */
  lemma BorrowFromPrevAsWrittenLoses(n: Node, i: int)
    requires Wired(n) && !n.leaf && 0 < i <= n.numKeys
    requires Child(n, i).numKeys < MaxKeys && 1 <= Child(n, i - 1).numKeys
    requires Child(n, i).leaf == Child(n, i - 1).leaf
    ensures (n.keys[i - 1], Child(n, i).data[0]) in Traverse(BorrowFromPrevAsWritten(n, i))
    ensures Child(n, i).data[0] != n.data[i - 1] ==> Traverse(BorrowFromPrevAsWritten(n, i)) != Traverse(n)
  {
    var v := Child(n, i).data[0];
    var pre, post := BorrowPrevSplit(n, i, v);
    var w := Traverse(BorrowFromPrevAsWritten(n, i));
    assert w[|pre|] == (n.keys[i - 1], v);
    assert Traverse(n)[|pre|] == LivePairs(n)[i - 1];
  }

  /** Borrowing from a left sibling with at least T keys keeps the node filled and balanced. */
  lemma BorrowPrevValid(n: Node, i: int, v: string, h: int)
    requires Wired(n) && !n.leaf && 0 < i <= n.numKeys
    requires Child(n, i).numKeys < MaxKeys && T <= Child(n, i - 1).numKeys
    requires Child(n, i).leaf == Child(n, i - 1).leaf
    requires Filled(n) && Balanced(n, h)
    ensures Filled(BorrowFromPrevWith(n, i, v)) && Balanced(BorrowFromPrevWith(n, i, v), h)
  {
    var a, b := BorrowPrevChildren(n, i, v, h);
    PairReplaced(n, BorrowFromPrevWith(n, i, v), i - 1, a, b, h);
  }

  /** The two children a borrow from the left leaves behind, and their validity. */
  lemma BorrowPrevChildren(n: Node, i: int, v: string, h: int) returns (a: Node, b: Node)
    requires Wired(n) && !n.leaf && 0 < i <= n.numKeys
    requires Child(n, i).numKeys < MaxKeys && T <= Child(n, i - 1).numKeys
    requires Child(n, i).leaf == Child(n, i - 1).leaf
    requires Filled(n) && Balanced(n, h)
    ensures var s := Child(n, i - 1);
      a == s.(numKeys := s.numKeys - 1) && b == Prepend(Child(n, i), (n.keys[i - 1], v), s.children[s.numKeys])
    ensures Wired(a) && T - 1 <= a.numKeys && Filled(a) && Balanced(a, h - 1)
    ensures Wired(b) && T - 1 <= b.numKeys && Filled(b) && Balanced(b, h - 1)
  {
    var c := Child(n, i);
    var s := Child(n, i - 1);
    var z := s.children[s.numKeys];
    ChildValid(n, i - 1, h);
    ChildValid(n, i, h);
    DropLastValid(s, h - 1);
    if !s.leaf {
      ChildValid(s, s.numKeys, h - 1);
    }
    PrependValid(c, (n.keys[i - 1], v), z, h - 1);
    a, b := s.(numKeys := s.numKeys - 1), Prepend(c, (n.keys[i - 1], v), z);
  }

  // ---------------------------------------------------------------- borrow_from_next

  /** The child of `borrow_from_next` (btree.cpp:284-288, 301): `p` goes to
      the first free record slot and, when internal, `z` to the slot after its last child. */
  function Append(c: Node, p: Pair, z: Ptr): (r: Node)
    requires Wired(c) && c.numKeys < MaxKeys && (!c.leaf ==> z.To?) && (z.To? ==> Wired(z.node))
    ensures Wired(r) && r.leaf == c.leaf && r.numKeys == c.numKeys + 1
  {
    var ch := if c.leaf then c.children else c.children[c.numKeys + 1 := z];
    assert forall m :: 0 <= m < |ch| && ch[m].To? ==> Wired(ch[m].node);
    Node(c.keys[c.numKeys := p.0], c.data[c.numKeys := p.1], ch, c.numKeys + 1, c.leaf)
  }

  /** The appended child lists its own records, then `p`, then those below `z`. */
  lemma AppendTraverse(c: Node, p: Pair, z: Ptr)
    requires Wired(c) && c.numKeys < MaxKeys && (!c.leaf ==> z.To?) && (z.To? ==> Wired(z.node))
    ensures Traverse(Append(c, p, z)) == Traverse(c) + [p] + (if c.leaf then [] else Traverse(z.node))
  {
    var r := Append(c, p, z);
    var lc := LivePairs(c);
    assert LivePairs(r) == lc + [p];
    if !c.leaf {
      var pc := Parts(c);
      var tz := Traverse(z.node);
      forall m | 0 <= m < |pc + [tz]| ensures Parts(r)[m] == (pc + [tz])[m] {
        if m <= c.numKeys {
          assert r.children[m] == c.children[m];
        }
      }
      SeqExt(Parts(r), pc + [tz]);
      WeaveJoin(pc, lc, p, [tz], []);
      assert lc + ([p] + []) == lc + [p];
    }
  }

  /** An appended child stays filled and balanced when `z` is a filled subtree one level lower. */
  lemma AppendValid(c: Node, p: Pair, z: Ptr, h: int)
    requires Wired(c) && c.numKeys < MaxKeys && (!c.leaf ==> z.To?) && (z.To? ==> Wired(z.node))
    requires Filled(c) && Balanced(c, h)
    requires !c.leaf ==> T - 1 <= z.node.numKeys && Filled(z.node) && Balanced(z.node, h - 1)
    ensures Filled(Append(c, p, z)) && Balanced(Append(c, p, z), h)
  {
    var r := Append(c, p, z);
    if !c.leaf {
      forall m | 0 <= m <= r.numKeys
        ensures T - 1 <= r.children[m].node.numKeys && Filled(r.children[m].node)
        ensures Balanced(r.children[m].node, h - 1)
      {
        if m <= c.numKeys {
          assert r.children[m] == c.children[m];
        }
      }
    }
  }

  /** The sibling of `borrow_from_next` (btree.cpp:291-302): its records and,
      when internal, its children move one slot down over the first. */
  function DropFirst(s: Node): (r: Node)
    requires Wired(s) && 1 <= s.numKeys
    ensures Wired(r) && r.leaf == s.leaf && r.numKeys == s.numKeys - 1
  {
    var ch := if s.leaf then s.children else ShiftDown(s.children, 1, s.numKeys + 1);
    assert forall m :: 0 <= m < |ch| && ch[m].To? ==> Wired(ch[m].node);
    Node(ShiftDown(s.keys, 1, s.numKeys), ShiftDown(s.data, 1, s.numKeys), ch, s.numKeys - 1, s.leaf)
  }

  /** The traversal of a node with at least one key, around its first record. */
  lemma DropFirstTraverse(s: Node)
    requires Wired(s) && 1 <= s.numKeys
    ensures Traverse(s) == (if s.leaf then [] else Traverse(Child(s, 0))) + [LivePairs(s)[0]] + Traverse(DropFirst(s))
  {
    var ls := LivePairs(s);
    DropFirstLive(s);
    if s.leaf {
      Halves(ls, 1);
      assert ls[..1] == [ls[0]];
    } else {
      DropFirstParts(s);
    }
  }

  /** The records left after dropping the first. */
  lemma DropFirstLive(s: Node)
    requires Wired(s) && 1 <= s.numKeys
    ensures LivePairs(DropFirst(s)) == LivePairs(s)[1..]
  {
    var d := DropFirst(s);
    DropFirstRecords(s, d);
    LivePairsClose(s, d, 0);
  }

  /** The key and payload arrays of the dropped sibling. */
  lemma DropFirstRecords(s: Node, d: Node)
    requires Wired(s) && 1 <= s.numKeys && d == DropFirst(s)
    ensures d.keys == ShiftDown(s.keys, 1, s.numKeys) && d.data == ShiftDown(s.data, 1, s.numKeys)
  {
  }

  /** The subtrees left after dropping the first child. */
  lemma DropFirstParts(s: Node)
    requires Wired(s) && 1 <= s.numKeys && !s.leaf
    ensures Parts(DropFirst(s)) == Parts(s)[1..]
  {
    var d := DropFirst(s);
    assert forall m :: 0 <= m <= d.numKeys ==> d.children[m] == s.children[m + 1];
    PartsSuffix(s, d, 1);
  }

  /** A sibling with at least T keys stays filled and balanced after losing its first record and child. */
  lemma DropFirstValid(s: Node, h: int)
    requires Wired(s) && 1 <= s.numKeys && Filled(s) && Balanced(s, h)
    ensures Filled(DropFirst(s)) && Balanced(DropFirst(s), h)
  {
    var d := DropFirst(s);
    if !s.leaf {
      forall m | 0 <= m <= d.numKeys
        ensures T - 1 <= d.children[m].node.numKeys && Filled(d.children[m].node)
        ensures Balanced(d.children[m].node, h - 1)
      {
        assert d.children[m] == s.children[m + 1];
      }
    }
  }

  /** `borrow_from_next(idx)` (btree.cpp:280-303): the separating record joins
      child `i` at its end, the first record of child `i + 1` replaces it in
      the node, and the first child of child `i + 1` becomes the last of child `i`. */
  function BorrowFromNext(n: Node, i: int): (r: Node)
    requires Wired(n) && !n.leaf && 0 <= i < n.numKeys
    requires Child(n, i).numKeys < MaxKeys && 1 <= Child(n, i + 1).numKeys
    requires Child(n, i).leaf == Child(n, i + 1).leaf
    ensures Wired(r) && !r.leaf && r.numKeys == n.numKeys
    ensures Child(r, i).numKeys == Child(n, i).numKeys + 1 && Child(r, i + 1).numKeys == Child(n, i + 1).numKeys - 1
    ensures forall m :: 0 <= m <= n.numKeys && m != i && m != i + 1 ==> r.children[m] == n.children[m]
  {
    var c := Child(n, i);
    var s := Child(n, i + 1);
    var c' := Append(c, LivePairs(n)[i], s.children[0]);
    var ch := n.children[i := To(c')][i + 1 := To(DropFirst(s))];
    assert forall m :: 0 <= m < |ch| && ch[m].To? ==> Wired(ch[m].node);
    n.(keys := n.keys[i := s.keys[0]], data := n.data[i := s.data[0]], children := ch)
  }

  /** The two children a borrow from the right rewrites, and the record it moves up. */
  lemma BorrowNextParts(n: Node, i: int)
    requires Wired(n) && !n.leaf && 0 <= i < n.numKeys
    requires Child(n, i).numKeys < MaxKeys && 1 <= Child(n, i + 1).numKeys
    requires Child(n, i).leaf == Child(n, i + 1).leaf
    ensures var r := BorrowFromNext(n, i); var s := Child(n, i + 1);
      && Parts(r)[i] == Parts(n)[i] + [LivePairs(n)[i]] + (if s.leaf then [] else Traverse(Child(s, 0)))
      && Parts(r)[i + 1] == Traverse(DropFirst(s))
      && LivePairs(r)[i] == LivePairs(s)[0]
  {
    var s := Child(n, i + 1);
    AppendTraverse(Child(n, i), LivePairs(n)[i], s.children[0]);
  }

  /** Borrowing from the right sibling keeps the node's records. */
  lemma BorrowFromNextPreserves(n: Node, i: int)
    requires Wired(n) && !n.leaf && 0 <= i < n.numKeys
    requires Child(n, i).numKeys < MaxKeys && 1 <= Child(n, i + 1).numKeys
    requires Child(n, i).leaf == Child(n, i + 1).leaf
    ensures Traverse(BorrowFromNext(n, i)) == Traverse(n)
  {
    var r := BorrowFromNext(n, i);
    var s := Child(n, i + 1);
    var lead := if s.leaf then [] else Traverse(Child(s, 0));
    DropFirstTraverse(s);
    BorrowNextParts(n, i);
    TraverseSeparator(n, i);
    Local(n, r, i);
    Shuffle(Before(n, i), Traverse(DropFirst(s)), LivePairs(s)[0], lead, LivePairs(n)[i], Parts(n)[i], After(n, i + 1));
  }

  /** Borrowing from a right sibling with at least T keys keeps the node filled and balanced. */
  lemma BorrowNextValid(n: Node, i: int, h: int)
    requires Wired(n) && !n.leaf && 0 <= i < n.numKeys
    requires Child(n, i).numKeys < MaxKeys && T <= Child(n, i + 1).numKeys
    requires Child(n, i).leaf == Child(n, i + 1).leaf
    requires Filled(n) && Balanced(n, h)
    ensures Filled(BorrowFromNext(n, i)) && Balanced(BorrowFromNext(n, i), h)
  {
    var a, b := BorrowNextChildren(n, i, h);
    PairReplaced(n, BorrowFromNext(n, i), i, a, b, h);
  }

  /** The two children a borrow from the right leaves behind, and their validity. */
  lemma BorrowNextChildren(n: Node, i: int, h: int) returns (a: Node, b: Node)
    requires Wired(n) && !n.leaf && 0 <= i < n.numKeys
    requires Child(n, i).numKeys < MaxKeys && T <= Child(n, i + 1).numKeys
    requires Child(n, i).leaf == Child(n, i + 1).leaf
    requires Filled(n) && Balanced(n, h)
    ensures a == Append(Child(n, i), LivePairs(n)[i], Child(n, i + 1).children[0]) && b == DropFirst(Child(n, i + 1))
    ensures Wired(a) && T - 1 <= a.numKeys && Filled(a) && Balanced(a, h - 1)
    ensures Wired(b) && T - 1 <= b.numKeys && Filled(b) && Balanced(b, h - 1)
  {
    var c := Child(n, i);
    var s := Child(n, i + 1);
    ChildValid(n, i, h);
    ChildValid(n, i + 1, h);
    if !s.leaf {
      ChildValid(s, 0, h - 1);
    }
    AppendValid(c, LivePairs(n)[i], s.children[0], h - 1);
    DropFirstValid(s, h - 1);
    a, b := Append(c, LivePairs(n)[i], s.children[0]), DropFirst(s);
  }

  // ---------------------------------------------------------------- fill

  /** `fill(idx)` for a child `idx` holding T - 1 keys (btree.cpp:242-255):
      borrow from the left sibling if it has T keys or more, else from the
      right one, else merge with the right sibling, or with the left one when
      `idx` is the last child. In that last case the slot `idx` keeps the
      pointer to the sibling the merge has deleted. */
  function Fill(n: Node, idx: int): (r: Node)
    requires Wired(n) && Siblings(n) && 1 <= n.numKeys && 0 <= idx <= n.numKeys && Child(n, idx).numKeys < T
    ensures Wired(r) && !r.leaf && n.numKeys - 1 <= r.numKeys <= n.numKeys
    ensures idx > r.numKeys ==> r.children[idx] == Freed
  {
    if idx != 0 && Child(n, idx - 1).numKeys >= T then BorrowFromPrev(n, idx)
    else if idx != n.numKeys && Child(n, idx + 1).numKeys >= T then BorrowFromNext(n, idx)
    else if idx != n.numKeys then Merge(n, idx)
    else Merge(n, idx - 1)
  }

  /** `fill(idx)` as written: its borrow from the left sibling is
      `borrow_from_prev` as written (btree.cpp:244-245, 270), which gives the
      record moving down the child's old first payload; the other branches
      are those of `Fill`. */
  function FillAsWritten(n: Node, idx: int): (r: Node)
    requires Wired(n) && Siblings(n) && 1 <= n.numKeys && 0 <= idx <= n.numKeys && Child(n, idx).numKeys < T
    ensures Wired(r) && !r.leaf && n.numKeys - 1 <= r.numKeys <= n.numKeys
    ensures idx > r.numKeys ==> r.children[idx] == Freed
  {
    if idx != 0 && Child(n, idx - 1).numKeys >= T then BorrowFromPrevAsWritten(n, idx)
    else Fill(n, idx)
  }

  /** The two fills agree unless `fill` borrows from the left sibling; there
      the fill as written changes the node's records whenever the moved
      record's payload differs from the child's first one, while the
      corrected fill keeps them. */
  lemma FillAsWrittenLoses(n: Node, idx: int)
    requires Wired(n) && Siblings(n) && 1 <= n.numKeys && 0 <= idx <= n.numKeys && Child(n, idx).numKeys < T
    ensures !(idx != 0 && Child(n, idx - 1).numKeys >= T) ==> FillAsWritten(n, idx) == Fill(n, idx)
    ensures idx != 0 && Child(n, idx - 1).numKeys >= T ==>
      && Traverse(Fill(n, idx)) == Traverse(n)
      && (Child(n, idx).data[0] != n.data[idx - 1] ==> Traverse(FillAsWritten(n, idx)) != Traverse(n))
  {
    if idx != 0 && Child(n, idx - 1).numKeys >= T {
      assert Fill(n, idx) == BorrowFromPrev(n, idx);
      BorrowFromPrevPreserves(n, idx);
      BorrowFromPrevAsWrittenLoses(n, idx);
    }
  }

  /** The fill as written leaves the node as filled and balanced as the
      corrected one, and the child the removal descends into holds at least T keys. */
  lemma FillAsWrittenValid(n: Node, idx: int, h: int)
    requires Wired(n) && !n.leaf && 1 <= n.numKeys && 0 <= idx <= n.numKeys && Child(n, idx).numKeys < T
    requires Filled(n) && Balanced(n, h)
    ensures Siblings(n)
    ensures var n1 := FillAsWritten(n, idx);
      && Filled(n1) && Balanced(n1, h) && 0 <= Target(n1, idx) <= n1.numKeys
      && T <= Child(n1, Target(n1, idx)).numKeys
  {
    FillValid(n, idx, h);
    if idx != 0 && Child(n, idx - 1).numKeys >= T {
      BorrowPrevValid(n, idx, Child(n, idx).data[0], h);
    }
  }

  /** The child the removal descends into after `fill(idx)`: `idx`, or
      `idx - 1` when the child merged into its left sibling. */
  function Target(n1: Node, idx: int): (c: int)
    requires 0 <= n1.numKeys && 0 <= idx <= n1.numKeys + 1
    ensures 0 <= c <= n1.numKeys && (c == idx || c == n1.numKeys)
  {
    if idx <= n1.numKeys then idx else idx - 1
  }

  /** After `fill`, the node is still filled and balanced and the child the
      removal descends into holds at least T keys. */
  lemma FillValid(n: Node, idx: int, h: int)
    requires Wired(n) && !n.leaf && 1 <= n.numKeys && 0 <= idx <= n.numKeys && Child(n, idx).numKeys < T
    requires Filled(n) && Balanced(n, h)
    ensures Siblings(n)
    ensures var n1 := Fill(n, idx);
      && Filled(n1) && Balanced(n1, h) && 0 <= Target(n1, idx) <= n1.numKeys
      && T <= Child(n1, Target(n1, idx)).numKeys
  {
    ValidSiblings(n, h);
    if idx != 0 && Child(n, idx - 1).numKeys >= T {
      assert Fill(n, idx) == BorrowFromPrev(n, idx);
      BorrowPrevValid(n, idx, n.data[idx - 1], h);
    } else if idx != n.numKeys && Child(n, idx + 1).numKeys >= T {
      assert Fill(n, idx) == BorrowFromNext(n, idx);
      BorrowNextValid(n, idx, h);
    } else {
      FillMergeValid(n, idx, h);
    }
  }

  /** `fill` when neither sibling can spare a key keeps the node filled and balanced. */
  lemma FillMergeValid(n: Node, idx: int, h: int)
    requires Wired(n) && Siblings(n) && 1 <= n.numKeys && 0 <= idx <= n.numKeys && Child(n, idx).numKeys < T
    requires Filled(n) && Balanced(n, h)
    requires !(idx != 0 && Child(n, idx - 1).numKeys >= T) && !(idx != n.numKeys && Child(n, idx + 1).numKeys >= T)
    ensures var n1 := Fill(n, idx);
      && Filled(n1) && Balanced(n1, h) && 0 <= Target(n1, idx) <= n1.numKeys
      && T <= Child(n1, Target(n1, idx)).numKeys
  {
    var i := if idx != n.numKeys then idx else idx - 1;
    assert Fill(n, idx) == Merge(n, i);
    MergeValid(n, i, h);
  }

  /** `fill` keeps the node's records, and the keys beside the child the
      removal descends into still bracket the key being removed. */
  lemma FillTraverse(n: Node, idx: int, key: int)
    requires Wired(n) && Siblings(n) && 1 <= n.numKeys && 0 <= idx <= n.numKeys && Child(n, idx).numKeys < T
    requires Ordered(n)
    requires idx == 0 || n.keys[idx - 1] < key
    requires idx == n.numKeys || key < n.keys[idx]
    ensures var n1 := Fill(n, idx); var c := Target(n1, idx);
      && Traverse(n1) == Traverse(n)
      && (c == 0 || n1.keys[c - 1] < key) && (c == n1.numKeys || key < n1.keys[c])
  {
    if idx != 0 && Child(n, idx - 1).numKeys >= T {
      assert Fill(n, idx) == BorrowFromPrev(n, idx);
      PrevBracket(n, idx, key);
    } else if idx != n.numKeys && Child(n, idx + 1).numKeys >= T {
      assert Fill(n, idx) == BorrowFromNext(n, idx);
      NextBracket(n, idx, key);
    } else {
      FillMerge(n, idx, key);
    }
  }

  /** `fill` when neither sibling can spare a key: the merge keeps the records
      and the merged child is bracketed by the keys around it. */
  lemma FillMerge(n: Node, idx: int, key: int)
    requires Wired(n) && Siblings(n) && 1 <= n.numKeys && 0 <= idx <= n.numKeys && Child(n, idx).numKeys < T
    requires Ordered(n)
    requires idx == 0 || n.keys[idx - 1] < key
    requires idx == n.numKeys || key < n.keys[idx]
    requires !(idx != 0 && Child(n, idx - 1).numKeys >= T) && !(idx != n.numKeys && Child(n, idx + 1).numKeys >= T)
    ensures var n1 := Fill(n, idx); var c := Target(n1, idx);
      && Traverse(n1) == Traverse(n)
      && (c == 0 || n1.keys[c - 1] < key) && (c == n1.numKeys || key < n1.keys[c])
  {
    var i := if idx != n.numKeys then idx else idx - 1;
    assert Fill(n, idx) == Merge(n, i);
    MergeBracket(n, i, idx, key);
  }

  /** After merging child `i` with child `i + 1`, the merged child is bracketed
      by the keys that bracketed child `idx`, one of the two. */
  lemma MergeBracket(n: Node, i: int, idx: int, key: int)
    requires Wired(n) && !n.leaf && 0 <= i < n.numKeys && Ordered(n)
    requires Child(n, i).numKeys == T - 1 && Child(n, i + 1).numKeys <= T - 1
    requires Child(n, i).leaf == Child(n, i + 1).leaf
    requires idx == i || idx == i + 1
    requires idx == 0 || n.keys[idx - 1] < key
    requires idx == n.numKeys || key < n.keys[idx]
    ensures var n1 := Merge(n, i);
      && Traverse(n1) == Traverse(n) && (i == 0 || n1.keys[i - 1] < key) && (i == n1.numKeys || key < n1.keys[i])
  {
    MergeTraverse(n, i);
    OrderedParts(n);
    var n1 := Merge(n, i);
    if i > 0 {
      assert n1.keys[i - 1] == n.keys[i - 1];
    }
    if i < n1.numKeys {
      assert n1.keys[i] == n.keys[i + 1];
    }
  }

  /** After a borrow from the left, the separator moved up is still below the key. */
  lemma PrevBracket(n: Node, idx: int, key: int)
    requires Wired(n) && !n.leaf && 0 < idx <= n.numKeys && Ordered(n)
    requires Child(n, idx).numKeys < MaxKeys && 1 <= Child(n, idx - 1).numKeys
    requires Child(n, idx).leaf == Child(n, idx - 1).leaf
    requires n.keys[idx - 1] < key
    requires idx == n.numKeys || key < n.keys[idx]
    ensures var n1 := BorrowFromPrev(n, idx);
      && Traverse(n1) == Traverse(n) && n1.keys[idx - 1] < key && (idx == n1.numKeys || key < n1.keys[idx])
  {
    BorrowFromPrevPreserves(n, idx);
    ChildKeysBracketed(n, idx - 1, Child(n, idx - 1).numKeys - 1);
  }

  /** After a borrow from the right, the separator moved up is still above the key. */
  lemma NextBracket(n: Node, idx: int, key: int)
    requires Wired(n) && !n.leaf && 0 <= idx < n.numKeys && Ordered(n)
    requires Child(n, idx).numKeys < MaxKeys && 1 <= Child(n, idx + 1).numKeys
    requires Child(n, idx).leaf == Child(n, idx + 1).leaf
    requires idx == 0 || n.keys[idx - 1] < key
    requires key < n.keys[idx]
    ensures var n1 := BorrowFromNext(n, idx);
      && Traverse(n1) == Traverse(n) && (idx == 0 || n1.keys[idx - 1] < key) && key < n1.keys[idx]
  {
    BorrowFromNextPreserves(n, idx);
    ChildKeysBracketed(n, idx + 1, 0);
  }
}

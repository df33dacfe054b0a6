/** Removal below the root: `BTreeNode::remove` with `getPredecessor` and
    `getSuccessor` (Lab_3/Lab_3/btree.cpp:183-240), on top of the
    rebalancing of `fill`. */
module BTreeDelete {
  import opened InOrder
  import opened Arrays
  import opened BTreeNodes
  import opened BTreeRebalance

  /** `while (idx < numKeys && keys[idx] < key) idx++;` started at `i`:
      the first live slot whose key is not below `key`, or `num`. */
  function FirstNotBelow(keys: seq<int>, num: int, key: int, i: int): (j: int)
    requires 0 <= i <= num <= |keys|
    ensures i <= j <= num
    ensures forall m :: i <= m < j ==> keys[m] < key
    ensures j < num ==> key <= keys[j]
    decreases num - i
  {
    if i < num && keys[i] < key then FirstNotBelow(keys, num, key, i + 1) else i
  }

  /** What removal assumes of a subtree: wired, filled, all leaves at its depth. */
  ghost predicate Sound(n: Node) {
    Wired(n) && Filled(n) && Balanced(n, Depth(n))
  }

  /** The result of `remove`: the rewritten subtree and whether the key was there. */
  datatype Removal = Removal(node: Node, found: bool)

  /** The removal as the code runs it, which may read a child slot holding
      the pointer of a node `merge_child_keys` has deleted. */
  datatype Outcome = Done(removal: Removal) | UseAfterFree

  // ---------------------------------------------------------------- getPredecessor / getSuccessor

  /** `getPredecessor` (btree.cpp:226-232) from the child it starts at: the
      last record of the rightmost leaf, which is the last record the subtree emits. */
  function Rightmost(n: Node): (p: Pair)
    requires Wired(n) && Filled(n) && 1 <= n.numKeys
    ensures |Traverse(n)| > 0 && p == Traverse(n)[|Traverse(n)| - 1]
    decreases n
  {
    if n.leaf then (n.keys[n.numKeys - 1], n.data[n.numKeys - 1])
    else
      TraverseLast(n);
      Rightmost(Child(n, n.numKeys))
  }

  /** `getSuccessor` (btree.cpp:234-240) from the child it starts at: the
      first record of the leftmost leaf, which is the first record the subtree emits. */
  function Leftmost(n: Node): (p: Pair)
    requires Wired(n) && Filled(n) && 1 <= n.numKeys
    ensures |Traverse(n)| > 0 && p == Traverse(n)[0]
    decreases n
  {
    if n.leaf then (n.keys[0], n.data[0])
    else
      TraverseFirst(n);
      Leftmost(Child(n, 0))
  }

  /** An internal node emits its first child's records first. */
  lemma TraverseFirst(n: Node)
    requires Wired(n) && !n.leaf
    ensures Traverse(n) == Parts(n)[0] + After(n, 0)
  {
    TraverseAround(n, 0);
    assert Parts(n)[..0] + [[]] == [[]];
    assert LivePairs(n)[..0] == [];
    assert Before(n, 0) == [];
  }

  /** An internal node emits its last child's records last. */
  lemma TraverseLast(n: Node)
    requires Wired(n) && !n.leaf
    ensures Traverse(n) == Before(n, n.numKeys) + Parts(n)[n.numKeys]
  {
    TraverseAround(n, n.numKeys);
    assert [[]] + Parts(n)[n.numKeys + 1..] == [[]];
    assert LivePairs(n)[n.numKeys..] == [];
    assert After(n, n.numKeys) == [];
  }

  // ---------------------------------------------------------------- the steps of remove

  /** The found-in-a-leaf branch (btree.cpp:190-196): the records past
      `idx` move one slot down over it and the count drops. */
  function LeafErase(n: Node, idx: int): (r: Node)
    requires Wired(n) && n.leaf && 0 <= idx < n.numKeys
    ensures Wired(r) && r.leaf && r.numKeys == n.numKeys - 1
  {
    n.(keys := ShiftDown(n.keys, idx + 1, n.numKeys), data := ShiftDown(n.data, idx + 1, n.numKeys),
       numKeys := n.numKeys - 1)
  }

  /** `keys[idx] = pred.first; data[idx] = pred.second;` (btree.cpp:200-201, 205-206). */
  function Rekey(n: Node, idx: int, p: Pair): (r: Node)
    requires Wired(n) && 0 <= idx < n.numKeys
    ensures Wired(r) && r.children == n.children && r.numKeys == n.numKeys && r.leaf == n.leaf
    ensures LivePairs(r) == LivePairs(n)[idx := p]
  {
    var r := n.(keys := n.keys[idx := p.0], data := n.data[idx := p.1]);
    assert LivePairs(r) == LivePairs(n)[idx := p];
    r
  }

  /** `BTreeNode::remove(&node, key)` (btree.cpp:183-224), in the corrected
      form (`asWritten` false) or as written (`asWritten` true). The two
      differ below a `fill`: as written, its borrow from the left sibling
      drops the moved payload, and after it merged the last child into its
      left sibling the descent reads the deleted sibling. */
  function RemoveFrom(n: Node, key: int, asWritten: bool): (o: Outcome)
    requires Sound(n) && (n.leaf || 1 <= n.numKeys)
    ensures !asWritten ==> o.Done?
    ensures o.Done? ==> var r := o.removal.node;
      Wired(r) && r.leaf == n.leaf && n.numKeys - 1 <= r.numKeys <= n.numKeys
    decreases Depth(n), 3
  {
    var idx := FirstNotBelow(n.keys, n.numKeys, key, 0);
    if n.leaf then Done(LeafRemove(n, key))
    else if idx < n.numKeys && n.keys[idx] == key then RemoveSeparator(n, idx, asWritten)
    else RemoveBelow(n, idx, key, asWritten)
  }

  /** A leaf: erase the key if it is there (btree.cpp:190-196, 214-215). */
  function LeafRemove(n: Node, key: int): (r: Removal)
    requires Wired(n) && n.leaf
    ensures Wired(r.node) && r.node.leaf && n.numKeys - 1 <= r.node.numKeys <= n.numKeys
  {
    var idx := FirstNotBelow(n.keys, n.numKeys, key, 0);
    if idx < n.numKeys && n.keys[idx] == key then Removal(LeafErase(n, idx), true)
    else Removal(n, false)
  }

  /** The key is record `idx` of an internal node (btree.cpp:197-212): replace
      it by its predecessor when the left child can spare a key, else by its
      successor when the right child can, else merge the two children around
      it and remove the key from the merged child. */
  function RemoveSeparator(n: Node, idx: int, asWritten: bool): (o: Outcome)
    requires Sound(n) && !n.leaf && 0 <= idx < n.numKeys
    ensures !asWritten ==> o.Done?
    ensures o.Done? ==> var r := o.removal.node;
      Wired(r) && !r.leaf && n.numKeys - 1 <= r.numKeys <= n.numKeys
    decreases Depth(n), 2
  {
    var h := Depth(n);
    ChildValid(n, idx, h);
    ChildValid(n, idx + 1, h);
    if Child(n, idx).numKeys >= T then
      var p := Rightmost(Child(n, idx));
      RekeySound(n, idx, p);
      DescendRemove(Rekey(n, idx, p), idx, p.0, asWritten)
    else if Child(n, idx + 1).numKeys >= T then
      var p := Leftmost(Child(n, idx + 1));
      RekeySound(n, idx, p);
      DescendRemove(Rekey(n, idx, p), idx + 1, p.0, asWritten)
    else
      ValidSiblings(n, h);
      MergeValid(n, idx, h);
      BalancedDepth(Merge(n, idx), h);
      DescendRemove(Merge(n, idx), idx, n.keys[idx], asWritten)
  }

  /** The key is not in this internal node (btree.cpp:213-223): the child
      `idx` that would hold it is filled up first when it has T - 1 keys,
      then the removal descends. The code as written fills with the fill as
      written, and after that fill merged the last child into its left
      sibling it descends into slot `idx`, which still holds the pointer to
      the deleted sibling; the corrected removal fills with the corrected
      fill and descends into the merged child. */
  function RemoveBelow(n: Node, idx: int, key: int, asWritten: bool): (o: Outcome)
    requires Sound(n) && !n.leaf && 1 <= n.numKeys && 0 <= idx <= n.numKeys
    ensures !asWritten ==> o.Done?
    ensures o.Done? ==> var r := o.removal.node;
      Wired(r) && !r.leaf && n.numKeys - 1 <= r.numKeys <= n.numKeys
    decreases Depth(n), 2
  {
    var h := Depth(n);
    if Child(n, idx).numKeys < T then
      FillValid(n, idx, h);
      FillAsWrittenValid(n, idx, h);
      var n1 := if asWritten then FillAsWritten(n, idx) else Fill(n, idx);
      BalancedDepth(n1, h);
      if asWritten && idx > n1.numKeys then UseAfterFree
      else DescendRemove(n1, Target(n1, idx), key, asWritten)
    else
      DescendRemove(n, idx, key, asWritten)
  }

  /** `BTreeNode::remove(&node->children[c], key)`: the child is rewritten in place. */
  function DescendRemove(n: Node, c: int, key: int, asWritten: bool): (o: Outcome)
    requires Sound(n) && !n.leaf && 0 <= c <= n.numKeys && T <= Child(n, c).numKeys
    ensures !asWritten ==> o.Done?
    ensures o.Done? ==> var r := o.removal.node;
      && Wired(r) && !r.leaf && r.numKeys == n.numKeys && r.keys == n.keys && r.data == n.data
      && (forall m :: 0 <= m <= n.numKeys && m != c ==> r.children[m] == n.children[m])
    decreases Depth(n), 0
  {
    ChildSound(n, c);
    match RemoveFrom(Child(n, c), key, asWritten)
    case UseAfterFree => UseAfterFree
    case Done(sub) =>
      ReplaceChild(n, c, sub.node);
      Done(Removal(n.(children := n.children[c := To(sub.node)]), sub.found))
  }

  /** The corrected removal. */
  function NodeRemove(n: Node, key: int): (r: Removal)
    requires Sound(n) && (n.leaf || 1 <= n.numKeys)
    ensures Wired(r.node) && r.node.leaf == n.leaf && n.numKeys - 1 <= r.node.numKeys <= n.numKeys
  {
    RemoveFrom(n, key, false).removal
  }

  /** The removal as written: the fill as written below, and the descent
      into the slot `fill` may have left pointing at a deleted node. */
  function NodeRemoveAsWritten(n: Node, key: int): (o: Outcome)
    requires Sound(n) && (n.leaf || 1 <= n.numKeys)
    ensures o.Done? ==> Wired(o.removal.node) && o.removal.node.leaf == n.leaf
  {
    RemoveFrom(n, key, true)
  }

  // ---------------------------------------------------------------- soundness of the steps

  /** A child of a sound node is sound, one level lower, and holds at least T - 1 keys. */
  lemma ChildSound(n: Node, c: int)
    requires Sound(n) && !n.leaf && 0 <= c <= n.numKeys
    ensures Sound(Child(n, c)) && Depth(Child(n, c)) == Depth(n) - 1 && T - 1 <= Child(n, c).numKeys
  {
    ChildValid(n, c, Depth(n));
    BalancedDepth(Child(n, c), Depth(n) - 1);
  }

  /** Replacing a record keeps a node sound at the same depth. */
  lemma RekeySound(n: Node, idx: int, p: Pair)
    requires Sound(n) && 0 <= idx < n.numKeys
    ensures Sound(Rekey(n, idx, p)) && Depth(Rekey(n, idx, p)) == Depth(n)
  {
    SameShape(n, Rekey(n, idx, p), Depth(n));
  }

  // ---------------------------------------------------------------- correctness of the corrected removal

  /** `r` is the removal of `key` from a subtree that emitted `s`: it emits
      `s` without the key, reports whether the key was there, and is still
      filled and balanced at height `h`. */
  ghost predicate Removed(s: seq<Pair>, r: Removal, key: int, h: int)
    requires Wired(r.node)
  {
    && Traverse(r.node) == Without(s, key)
    && (r.found <==> key in Keys(s))
    && Filled(r.node) && Balanced(r.node, h)
  }

  /** The corrected removal takes exactly the key out of an ordered subtree
      and keeps it filled and balanced at the same depth. */
  lemma {:induction false} RemoveFromCorrect(n: Node, key: int)
    requires Sound(n) && (n.leaf || 1 <= n.numKeys) && Ordered(n)
    ensures Removed(Traverse(n), RemoveFrom(n, key, false).removal, key, Depth(n))
    decreases Depth(n), 4
  {
    var idx := FirstNotBelow(n.keys, n.numKeys, key, 0);
    if n.leaf {
      assert RemoveFrom(n, key, false).removal == LeafRemove(n, key);
      LeafRemoveCorrect(n, key);
    } else if idx < n.numKeys && n.keys[idx] == key {
      assert RemoveFrom(n, key, false) == RemoveSeparator(n, idx, false);
      SeparatorCorrect(n, idx);
    } else {
      assert RemoveFrom(n, key, false) == RemoveBelow(n, idx, key, false);
      OrderedParts(n);
      BelowCorrect(n, idx, key);
    }
  }

  /** Removal from a leaf. */
  lemma LeafRemoveCorrect(n: Node, key: int)
    requires Wired(n) && n.leaf && Ordered(n)
    ensures Removed(Traverse(n), LeafRemove(n, key), key, 0)
  {
    var idx := FirstNotBelow(n.keys, n.numKeys, key, 0);
    var s := LivePairs(n);
    if idx < n.numKeys && n.keys[idx] == key {
      LeafHit(n, idx);
    } else {
      LeafMiss(n, key);
      WithoutAbsent(s, key);
    }
  }

  /** Erasing slot `idx` of an ordered leaf removes exactly its key. */
  lemma LeafHit(n: Node, idx: int)
    requires Wired(n) && n.leaf && Ordered(n) && 0 <= idx < n.numKeys
    ensures Traverse(LeafErase(n, idx)) == Without(Traverse(n), n.keys[idx])
    ensures n.keys[idx] in Keys(Traverse(n))
  {
    var s := LivePairs(n);
    LivePairsClose(n, LeafErase(n, idx), idx);
    Around(s, idx);
    WithoutMiddle(s[..idx], s[idx], s[idx + 1..]);
    LiveKeysInTraverse(n, idx);
  }

  /** The scan of a leaf that stops short of the key means the key is absent. */
  lemma LeafMiss(n: Node, key: int)
    requires Wired(n) && n.leaf && Ordered(n)
    requires var idx := FirstNotBelow(n.keys, n.numKeys, key, 0);
      !(idx < n.numKeys && n.keys[idx] == key)
    ensures key !in Keys(Traverse(n))
  {
    var idx := FirstNotBelow(n.keys, n.numKeys, key, 0);
    var s := LivePairs(n);
    OrderedParts(n);
    forall j | 0 <= j < |s| ensures s[j].0 != key {
      assert s[j].0 == n.keys[j];
      if idx <= j {
        assert key < n.keys[idx] <= n.keys[j];
      }
    }
    KeysIndex(s, key);
  }

  /** The key is a separator of an internal node. */
  lemma {:induction false} SeparatorCorrect(n: Node, idx: int)
    requires Sound(n) && !n.leaf && Ordered(n) && 0 <= idx < n.numKeys
    ensures Removed(Traverse(n), RemoveSeparator(n, idx, false).removal, n.keys[idx], Depth(n))
    decreases Depth(n), 3
  {
    var h := Depth(n);
    ChildValid(n, idx, h);
    ChildValid(n, idx + 1, h);
    if Child(n, idx).numKeys >= T {
      PredCorrect(n, idx);
    } else if Child(n, idx + 1).numKeys >= T {
      SuccCorrect(n, idx);
    } else {
      MergeCorrect(n, idx);
    }
  }

  /** The separator is replaced by its predecessor, which is then removed from the left child. */
  lemma {:induction false} PredCorrect(n: Node, idx: int)
    requires Sound(n) && !n.leaf && Ordered(n) && 0 <= idx < n.numKeys
    requires T <= Child(n, idx).numKeys
    ensures Removed(Traverse(n), RemoveSeparator(n, idx, false).removal, n.keys[idx], Depth(n))
    decreases Depth(n), 2
  {
    var c := Child(n, idx);
    ChildValid(n, idx, Depth(n));
    var p := Rightmost(c);
    var n' := Rekey(n, idx, p);
    PredUnfold(n, idx);
    RekeySound(n, idx, p);
    OrderedParts(n);
    assert Parts(n')[idx] == Traverse(c) == Parts(n)[idx];
    DescendRemoveCorrect(n', idx, p.0);
    var r := DescendRemove(n', idx, p.0, false).removal;
    PredFinish(n, n', r.node, idx, p);
    assert p.0 in Keys(Traverse(c)) by { assert Traverse(c)[|Traverse(c)| - 1] in Traverse(c); }
    LiveKeysInTraverse(n, idx);
  }

  /** The predecessor branch after the descent: the traversal lost exactly the separator. */
  lemma PredFinish(n: Node, n': Node, r: Node, idx: int, p: Pair)
    requires Wired(n) && !n.leaf && Wired(n') && !n'.leaf && Wired(r) && !r.leaf && Ordered(n) && 0 <= idx < n.numKeys
    requires n'.children == n.children && n'.numKeys == n.numKeys && LivePairs(n') == LivePairs(n)[idx := p]
    requires r.numKeys == n.numKeys && r.keys == n'.keys && r.data == n'.data
    requires forall m :: 0 <= m <= n.numKeys && m != idx ==> r.children[m] == n'.children[m]
    requires Increasing(Parts(n)[idx]) && |Parts(n)[idx]| > 0 && Parts(n)[idx][|Parts(n)[idx]| - 1] == p
    requires Parts(r)[idx] == Without(Parts(n')[idx], p.0)
    ensures Traverse(r) == Without(Traverse(n), n.keys[idx])
  {
    var tc := Parts(n)[idx];
    WithoutLast(tc);
    SameRecords(r, n');
    assert r.children[idx + 1] == n.children[idx + 1];
    SeparatorStep(n, r, idx, tc, Parts(n)[idx + 1], tc[..|tc| - 1], Parts(n)[idx + 1]);
  }

  /** `remove` at a separator whose left child can spare a key takes the predecessor branch. */
  lemma PredUnfold(n: Node, idx: int)
    requires Sound(n) && !n.leaf && 0 <= idx < n.numKeys && T <= Child(n, idx).numKeys
    ensures Filled(Child(n, idx))
    ensures var p := Rightmost(Child(n, idx));
      RemoveSeparator(n, idx, false) == DescendRemove(Rekey(n, idx, p), idx, p.0, false)
  {
    ChildValid(n, idx, Depth(n));
  }

  /** The separator is replaced by its successor, which is then removed from the right child. */
  lemma {:induction false} SuccCorrect(n: Node, idx: int)
    requires Sound(n) && !n.leaf && Ordered(n) && 0 <= idx < n.numKeys
    requires Child(n, idx).numKeys < T && T <= Child(n, idx + 1).numKeys
    ensures Removed(Traverse(n), RemoveSeparator(n, idx, false).removal, n.keys[idx], Depth(n))
    decreases Depth(n), 2
  {
    var c := Child(n, idx + 1);
    ChildValid(n, idx + 1, Depth(n));
    var p := Leftmost(c);
    var n' := Rekey(n, idx, p);
    SuccUnfold(n, idx);
    RekeySound(n, idx, p);
    OrderedParts(n);
    assert Parts(n')[idx + 1] == Traverse(c) == Parts(n)[idx + 1];
    DescendRemoveCorrect(n', idx + 1, p.0);
    var r := DescendRemove(n', idx + 1, p.0, false).removal;
    SuccFinish(n, n', r.node, idx, p);
    assert p.0 in Keys(Traverse(c)) by { assert Traverse(c)[0] in Traverse(c); }
    LiveKeysInTraverse(n, idx);
  }

  /** The successor branch after the descent: the traversal lost exactly the separator. */
  lemma SuccFinish(n: Node, n': Node, r: Node, idx: int, p: Pair)
    requires Wired(n) && !n.leaf && Wired(n') && !n'.leaf && Wired(r) && !r.leaf && Ordered(n) && 0 <= idx < n.numKeys
    requires n'.children == n.children && n'.numKeys == n.numKeys && LivePairs(n') == LivePairs(n)[idx := p]
    requires r.numKeys == n.numKeys && r.keys == n'.keys && r.data == n'.data
    requires forall m :: 0 <= m <= n.numKeys && m != idx + 1 ==> r.children[m] == n'.children[m]
    requires Increasing(Parts(n)[idx + 1]) && |Parts(n)[idx + 1]| > 0 && Parts(n)[idx + 1][0] == p
    requires Parts(r)[idx + 1] == Without(Parts(n')[idx + 1], p.0)
    ensures Traverse(r) == Without(Traverse(n), n.keys[idx])
  {
    var tc := Parts(n)[idx + 1];
    WithoutFirst(tc);
    SameRecords(r, n');
    assert r.children[idx] == n.children[idx];
    Assoc(Parts(n)[idx], [p], tc[1..]);
    SeparatorStep(n, r, idx, Parts(n)[idx], tc, Parts(n)[idx], tc[1..]);
  }

  /** `remove` at a separator whose left child cannot spare a key but whose
      right child can takes the successor branch. */
  lemma SuccUnfold(n: Node, idx: int)
    requires Sound(n) && !n.leaf && 0 <= idx < n.numKeys
    requires Child(n, idx).numKeys < T && T <= Child(n, idx + 1).numKeys
    ensures Filled(Child(n, idx + 1))
    ensures var p := Leftmost(Child(n, idx + 1));
      RemoveSeparator(n, idx, false) == DescendRemove(Rekey(n, idx, p), idx + 1, p.0, false)
  {
    ChildValid(n, idx + 1, Depth(n));
  }

  /** Replacing the separator `idx` by a record moved out of one of its
      children, then removing that record from the child, removes exactly
      the separator from the traversal. `r` has the children of `n` except
      at `idx` and `idx + 1`, and the records of `n` except at `idx`. */
  lemma SeparatorStep(n: Node, r: Node, idx: int, p0: seq<Pair>, p1: seq<Pair>, q0: seq<Pair>, q1: seq<Pair>)
    requires Wired(n) && !n.leaf && Wired(r) && !r.leaf && r.numKeys == n.numKeys && 0 <= idx < n.numKeys
    requires forall m :: 0 <= m <= n.numKeys && m != idx && m != idx + 1 ==> r.children[m] == n.children[m]
    requires LivePairs(r) == LivePairs(n)[idx := LivePairs(r)[idx]]
    requires Ordered(n) && Parts(n)[idx] == p0 && Parts(n)[idx + 1] == p1
    requires Parts(r)[idx] == q0 && Parts(r)[idx + 1] == q1
    requires q0 + [LivePairs(r)[idx]] + q1 == p0 + p1
    ensures Traverse(r) == Without(Traverse(n), n.keys[idx])
  {
    forall m | 0 <= m < n.numKeys && m != idx ensures r.keys[m] == n.keys[m] && r.data[m] == n.data[m] {
      assert LivePairs(r)[m] == LivePairs(n)[m];
    }
    TraverseSeparator(n, idx);
    Local(n, r, idx);
    assert LivePairs(n)[idx].0 == n.keys[idx];
    WithoutSeparator(Before(n, idx), p0, LivePairs(n)[idx], p1, After(n, idx + 1));
  }

  /** Both children around the separator are minimal: merge them around it
      and remove the key from the merged child. */
  lemma {:induction false} MergeCorrect(n: Node, idx: int)
    requires Sound(n) && !n.leaf && Ordered(n) && 0 <= idx < n.numKeys
    requires Child(n, idx).numKeys < T && Child(n, idx + 1).numKeys < T
    ensures Removed(Traverse(n), RemoveSeparator(n, idx, false).removal, n.keys[idx], Depth(n))
    decreases Depth(n), 2
  {
    var h := Depth(n);
    var key := n.keys[idx];
    ChildValid(n, idx, h);
    ChildValid(n, idx + 1, h);
    ValidSiblings(n, h);
    MergeValid(n, idx, h);
    var n1 := Merge(n, idx);
    BalancedDepth(n1, h);
    assert RemoveSeparator(n, idx, false) == DescendRemove(n1, idx, key, false);
    MergeTraverse(n, idx);
    OrderedParts(n1);
    DescendRemoveCorrect(n1, idx, key);
    var p0, x, p1 := Parts(n)[idx], LivePairs(n)[idx], Parts(n)[idx + 1];
    TraverseSeparator(n, idx);
    IncreasingConcat3(Before(n, idx), p0 + [x] + p1, After(n, idx + 1));
    WithoutMiddle(p0, x, p1);
    WithoutSeparator(Before(n, idx), p0, x, p1, After(n, idx + 1));
    assert x.0 in Keys(p0 + [x] + p1) by { assert (p0 + [x] + p1)[|p0|] == x; }
    LiveKeysInTraverse(n, idx);
  }

  /** The key is not in this internal node: descend into the child that brackets it. */
  lemma {:induction false} BelowCorrect(n: Node, idx: int, key: int)
    requires Sound(n) && !n.leaf && 1 <= n.numKeys && Ordered(n) && 0 <= idx <= n.numKeys
    requires idx == 0 || n.keys[idx - 1] < key
    requires idx == n.numKeys || key < n.keys[idx]
    ensures Removed(Traverse(n), RemoveBelow(n, idx, key, false).removal, key, Depth(n))
    decreases Depth(n), 3
  {
    if Child(n, idx).numKeys < T {
      FillDescendCorrect(n, idx, key);
    } else {
      assert RemoveBelow(n, idx, key, false) == DescendRemove(n, idx, key, false);
      DescendBracketCorrect(n, idx, key);
    }
  }

  /** The bracketing child has T - 1 keys: `fill` it first, then descend. */
  lemma {:induction false} FillDescendCorrect(n: Node, idx: int, key: int)
    requires Sound(n) && !n.leaf && 1 <= n.numKeys && Ordered(n) && 0 <= idx <= n.numKeys
    requires idx == 0 || n.keys[idx - 1] < key
    requires idx == n.numKeys || key < n.keys[idx]
    requires Child(n, idx).numKeys < T
    ensures Removed(Traverse(n), RemoveBelow(n, idx, key, false).removal, key, Depth(n))
    decreases Depth(n), 2
  {
    var h := Depth(n);
    FillValid(n, idx, h);
    var n1 := Fill(n, idx);
    BalancedDepth(n1, h);
    var c := Target(n1, idx);
    assert RemoveBelow(n, idx, key, false) == DescendRemove(n1, c, key, false);
    FillTraverse(n, idx, key);
    DescendBracketCorrect(n1, c, key);
  }

  /** Descending into the child whose neighbouring separators bracket the key. */
  lemma {:induction false} DescendBracketCorrect(n: Node, c: int, key: int)
    requires Sound(n) && !n.leaf && Ordered(n) && 0 <= c <= n.numKeys && T <= Child(n, c).numKeys
    requires c == 0 || n.keys[c - 1] < key
    requires c == n.numKeys || key < n.keys[c]
    ensures Removed(Traverse(n), DescendRemove(n, c, key, false).removal, key, Depth(n))
    decreases Depth(n), 1
  {
    OrderedParts(n);
    DescendRemoveCorrect(n, c, key);
    Bracket(n, c, key);
    TraverseAround(n, c);
    AllBelowNotIn(Before(n, c), key);
    AllBelowNotIn(After(n, c), key);
    WithoutInMiddle(Before(n, c), Parts(n)[c], After(n, c), key);
  }

  /** Removal below a child rewrites that child's part of the traversal only. */
  lemma {:induction false} DescendRemoveCorrect(n: Node, c: int, key: int)
    requires Sound(n) && !n.leaf && 0 <= c <= n.numKeys && T <= Child(n, c).numKeys
    requires Ordered(Child(n, c))
    ensures var r := DescendRemove(n, c, key, false).removal;
      && Parts(r.node)[c] == Without(Parts(n)[c], key)
      && Traverse(r.node) == Before(n, c) + Without(Parts(n)[c], key) + After(n, c)
      && (r.found <==> key in Keys(Parts(n)[c]))
      && Filled(r.node) && Balanced(r.node, Depth(n))
    decreases Depth(n), 0
  {
    var ch := Child(n, c);
    ChildSound(n, c);
    RemoveFromCorrect(ch, key);
    var sub := RemoveFrom(ch, key, false).removal;
    assert DescendRemove(n, c, key, false).removal == Removal(n.(children := n.children[c := To(sub.node)]), sub.found);
    ReplaceChild(n, c, sub.node);
    ReplaceChildFilled(n, c, sub.node);
    ReplaceChildBalanced(n, c, sub.node, Depth(n));
  }

  // ---------------------------------------------------------------- the removal as written

  /** A leaf holding the `k` keys `lo`, ..., `lo + k - 1` with empty payloads. */
  function LeafRun(lo: int, k: int): (r: Node)
    requires 0 <= k <= MaxKeys
    ensures Wired(r) && r.leaf && r.numKeys == k
  {
    Node(seq(MaxKeys, i => if i < k then lo + i else 0), seq(MaxKeys, _ => ""),
         seq(MaxKeys + 1, _ => Null), k, true)
  }

  /** A leaf holding the T - 1 keys `lo`, ..., `lo + T - 2`. */
  function MinimalLeaf(lo: int): (r: Node)
    ensures Wired(r) && r.leaf && r.numKeys == T - 1
  {
    LeafRun(lo, T - 1)
  }

  /** A root with the single key 10 over two minimal leaves, 1..9 and 11..19. */
  function TwoLeafRoot(): (r: Node)
    ensures Wired(r) && !r.leaf && r.numKeys == 1
  {
    var a, b := MinimalLeaf(1), MinimalLeaf(11);
    var ch := seq(MaxKeys + 1, i => if i == 0 then To(a) else if i == 1 then To(b) else Null);
    assert forall i :: 0 <= i < |ch| && ch[i].To? ==> ch[i].node == a || ch[i].node == b;
    Node(seq(MaxKeys, i => if i == 0 then 10 else 0), seq(MaxKeys, _ => ""), ch, 1, false)
  }

  /** Removing 15 from a root with one key over two minimal leaves: `fill(1)`
      merges the last child into its left sibling and deletes it, and the
      code as written then descends into `children[1]`, the deleted node.
      The corrected removal takes 15 out of the merged leaf. */
  lemma RemoveAsWrittenUseAfterFree()
    ensures Sound(TwoLeafRoot()) && Ordered(TwoLeafRoot())
    ensures NodeRemoveAsWritten(TwoLeafRoot(), 15) == UseAfterFree
    ensures Traverse(NodeRemove(TwoLeafRoot(), 15).node) == Without(Traverse(TwoLeafRoot()), 15)
  {
    var n := TwoLeafRoot();
    assert Child(n, 0) == MinimalLeaf(1) && Child(n, 1) == MinimalLeaf(11);
    assert Depth(n) == 1;
    assert Filled(n) && Balanced(n, 1);
    var idx := FirstNotBelow(n.keys, n.numKeys, 15, 0);
    assert n.keys[0] == 10;
    assert idx == 1;
    assert RemoveFrom(n, 15, true) == RemoveBelow(n, 1, 15, true);
    ValidSiblings(n, 1);
    FillLast(n);
    TwoLeafRootOrdered();
    RemoveFromCorrect(n, 15);
  }

  /** The records of the two-leaf root are 1, ..., 19 in order. */
  lemma TwoLeafRootOrdered()
    ensures Ordered(TwoLeafRoot())
  {
    var n := TwoLeafRoot();
    var a, b := LivePairs(MinimalLeaf(1)), LivePairs(MinimalLeaf(11));
    assert Parts(n) == [a, b];
    assert LivePairs(n) == [(10, "")];
    assert Traverse(n) == a + [(10, "")] + b;
    var s := a + [(10, "")] + b;
    assert forall i :: 0 <= i < |s| ==> s[i].0 == 1 + i;
    assert Increasing(s);
  }

  /** When the last child and its left sibling both hold fewer than T keys,
      `fill` of the last child merges the two and the node loses a key, so
      the slot the removal as written descends into is past the live ones. */
  lemma FillLast(n: Node)
    requires Wired(n) && !n.leaf && Siblings(n) && 1 <= n.numKeys
    requires Child(n, n.numKeys).numKeys < T && Child(n, n.numKeys - 1).numKeys < T
    ensures FillAsWritten(n, n.numKeys) == Fill(n, n.numKeys)
    ensures Fill(n, n.numKeys).numKeys == n.numKeys - 1
  {
    assert Fill(n, n.numKeys) == Merge(n, n.numKeys - 1);
  }

  /** A root with the single record 10 -> "x" over the leaves 0..9 and 11..19. */
  function LeftHeavyRoot(): (r: Node)
    ensures Wired(r) && !r.leaf && r.numKeys == 1
  {
    var a, b := LeafRun(0, T), MinimalLeaf(11);
    var ch := seq(MaxKeys + 1, i => if i == 0 then To(a) else if i == 1 then To(b) else Null);
    assert forall i :: 0 <= i < |ch| && ch[i].To? ==> ch[i].node == a || ch[i].node == b;
    Node(seq(MaxKeys, i => if i == 0 then 10 else 0), seq(MaxKeys, i => if i == 0 then "x" else ""), ch, 1, false)
  }

  /** The records of the left-heavy root are 0, ..., 19 in order, and the
      record of 10 carries "x". */
  lemma LeftHeavyRootFacts()
    ensures Sound(LeftHeavyRoot()) && Ordered(LeftHeavyRoot()) && Depth(LeftHeavyRoot()) == 1
    ensures (10, "x") in Traverse(LeftHeavyRoot()) && (10, "") !in Traverse(LeftHeavyRoot())
  {
    var n := LeftHeavyRoot();
    assert Child(n, 0) == LeafRun(0, T) && Child(n, 1) == MinimalLeaf(11);
    assert Depth(n) == 1;
    assert Filled(n) && Balanced(n, 1);
    var a, b := LivePairs(LeafRun(0, T)), LivePairs(MinimalLeaf(11));
    assert Parts(n) == [a, b];
    assert LivePairs(n) == [(10, "x")];
    assert Traverse(n) == a + [(10, "x")] + b;
    var s := a + [(10, "x")] + b;
    assert forall i :: 0 <= i < |s| ==> s[i].0 == i;
    assert Increasing(s);
    assert s[10] == (10, "x");
  }

  /** The child a borrow from the left as written leaves in slot 1 of the
      left-heavy root: the keys 10, ..., 19, with 10 carrying "". */
  lemma LeftHeavyBorrowed()
    ensures Siblings(LeftHeavyRoot())
    ensures var c := Child(BorrowFromPrevAsWritten(LeftHeavyRoot(), 1), 1);
      && c.leaf && c.numKeys == T && c.data[0] == ""
      && forall j :: 0 <= j < T ==> c.keys[j] == 10 + j
  {
    var n := LeftHeavyRoot();
    LeftHeavyRootFacts();
    ValidSiblings(n, 1);
    assert Child(n, 0) == LeafRun(0, T) && Child(n, 1) == MinimalLeaf(11);
  }

  /** Removing 15 from the left-heavy root: `fill(1)` borrows from the left
      sibling. As written, the record of 10 moves down with the child's old
      first payload "", so the removal finishes with (10, "") where the tree
      held (10, "x"), and its records are not those of the tree without 15.
      The corrected removal gives exactly the tree's records without 15. */
  lemma RemoveAsWrittenLosesPayload()
    ensures Sound(LeftHeavyRoot()) && Ordered(LeftHeavyRoot())
    ensures (10, "x") in Traverse(LeftHeavyRoot()) && (10, "") !in Traverse(LeftHeavyRoot())
    ensures NodeRemoveAsWritten(LeftHeavyRoot(), 15).Done?
    ensures (10, "") in Traverse(NodeRemoveAsWritten(LeftHeavyRoot(), 15).removal.node)
    ensures Traverse(NodeRemoveAsWritten(LeftHeavyRoot(), 15).removal.node) != Without(Traverse(LeftHeavyRoot()), 15)
    ensures Traverse(NodeRemove(LeftHeavyRoot(), 15).node) == Without(Traverse(LeftHeavyRoot()), 15)
  {
    var n := LeftHeavyRoot();
    LeftHeavyRootFacts();
    var r := LeftHeavyRemoval();
    RemoveFromCorrect(n, 15);
    if Traverse(r) == Without(Traverse(n), 15) {
      WithoutSubset(Traverse(n), 15, (10, ""));
    }
  }

  /** The removal as written of 15 from the left-heavy root, and the record
      (10, "") it leaves in child 1. */
  lemma LeftHeavyRemoval() returns (r: Node)
    ensures Sound(LeftHeavyRoot())
    ensures NodeRemoveAsWritten(LeftHeavyRoot(), 15) == Done(Removal(r, true))
    ensures Wired(r) && (10, "") in Traverse(r)
  {
    var n := LeftHeavyRoot();
    var n1 := LeftHeavyFill();
    var leaf := LeftHeavyLeafRemoval();
    r := n1.(children := n1.children[1 := To(leaf)]);
    assert NodeRemoveAsWritten(n, 15) == Done(Removal(r, true));
    assert Parts(r)[1] == Traverse(leaf);
    WeaveHasPart(Parts(r), LivePairs(r), 1, (10, ""));
  }

  /** Below the left-heavy root, the removal as written fills child 1 by a
      borrow from the left as written and then descends into child 1. */
  lemma LeftHeavyFill() returns (n1: Node)
    ensures Sound(LeftHeavyRoot()) && Siblings(LeftHeavyRoot())
    ensures n1 == BorrowFromPrevAsWritten(LeftHeavyRoot(), 1) && Sound(n1) && 1 <= n1.numKeys
    ensures T <= Child(n1, 1).numKeys
    ensures RemoveFrom(LeftHeavyRoot(), 15, true) == DescendRemove(n1, 1, 15, true)
  {
    var n := LeftHeavyRoot();
    LeftHeavyRootFacts();
    LeftHeavyBorrowed();
    assert Child(n, 0).numKeys == T && Child(n, 1).numKeys == T - 1;
    assert FirstNotBelow(n.keys, n.numKeys, 15, 0) == 1;
    assert RemoveFrom(n, 15, true) == RemoveBelow(n, 1, 15, true);
    n1 := BorrowFromPrevAsWritten(n, 1);
    assert FillAsWritten(n, 1) == n1;
    FillAsWrittenValid(n, 1, 1);
    BalancedDepth(n1, 1);
  }

  /** Removing 15 from the borrowed child erases slot 5 and keeps (10, "") in slot 0. */
  lemma LeftHeavyLeafRemoval() returns (leaf: Node)
    ensures var c := Child(BorrowFromPrevAsWritten(LeftHeavyRoot(), 1), 1);
      && Sound(c) && RemoveFrom(c, 15, true) == Done(Removal(leaf, true))
    ensures Wired(leaf) && leaf.leaf && (10, "") in Traverse(leaf)
  {
    LeftHeavyBorrowed();
    var c := Child(BorrowFromPrevAsWritten(LeftHeavyRoot(), 1), 1);
    assert FirstNotBelow(c.keys, c.numKeys, 15, 0) == 5;
    leaf := LeafErase(c, 5);
    assert RemoveFrom(c, 15, true) == Done(Removal(leaf, true));
    assert leaf.keys[0] == 10 && leaf.data[0] == "";
    assert LivePairs(leaf)[0] == (10, "");
  }
}

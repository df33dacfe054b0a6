/** The tree object `BTree` (Lab_3/Lab_3/btree.h:50-62, btree.cpp:340-405):
    a root pointer that is null for the empty tree, with `insert`, `search`,
    `edit` and `remove`. Its contents are the records the root's traversal
    emits, and every operation is stated against that record sequence and
    the key -> payload map it denotes. */
module BTreeRoot {
  import opened Maybe
  import opened InOrder
  import opened BTreeNodes
  import opened BTreeSearch
  import opened BTreeInsert
  import opened BTreeRebalance
  import opened BTreeDelete

  /** `BTreeNode* root`: `None` is the null root of the empty tree. */
  datatype BTree = BTree(root: Option<Node>)

  /** The empty tree of the constructor (btree.cpp:340-342). */
  function Empty(): (t: BTree)
    ensures Valid(t) && Contents(t) == [] && Stored(t) == map[]
  {
    BTree(None)
  }

  /** A tree the operations keep: a null root, or a root holding at least
      one key over a filled, balanced, ordered subtree. */
  ghost predicate Valid(t: BTree) {
    t.root.Some? ==> var n := t.root.value; Sound(n) && 1 <= n.numKeys && Ordered(n)
  }

  /** The records of the tree in key order: what `save` writes. */
  function Contents(t: BTree): (s: seq<Pair>)
    requires t.root.Some? ==> Wired(t.root.value)
  {
    if t.root.None? then [] else Traverse(t.root.value)
  }

  /** The key -> payload map the tree stores. */
  function Stored(t: BTree): (m: map<int, string>)
    requires t.root.Some? ==> Wired(t.root.value)
  {
    ToMap(Contents(t))
  }

  lemma ValidContents(t: BTree)
    requires Valid(t)
    ensures Increasing(Contents(t))
  {
  }

  // ---------------------------------------------------------------- search

  /** `BTree::search` (btree.cpp:369-372) with the corrected in-node check:
      the payload stored with `key`, if any. */
  function Search(t: BTree, key: int): (r: Option<string>)
    requires Valid(t)
  {
    match t.root
    case None => None
    case Some(n) =>
      FilledSearchable(n);
      match NodeSearch(n, key)
      case None => None
      case Some(f) => Some(f.value)
  }

  /** `BTree::search` as written, whose in-node check may read the stale
      slot one past the live keys of a leaf. */
  function SearchAsWritten(t: BTree, key: int): (r: Option<string>)
    requires Valid(t)
  {
    match t.root
    case None => None
    case Some(n) =>
      FilledSearchable(n);
      match NodeSearchAsWritten(n, key)
      case None => None
      case Some(f) => Some(f.value)
  }

  /** Search finds exactly the keys the tree stores, with their payloads. */
  lemma SearchCorrect(t: BTree, key: int)
    requires Valid(t)
    ensures Search(t, key).Some? <==> key in Stored(t)
    ensures Search(t, key).Some? ==> Search(t, key).value == Stored(t)[key]
  {
    ToMapKeys(Contents(t));
    if t.root.Some? {
      var n := t.root.value;
      FilledSearchable(n);
      NodeSearchCorrect(n, key);
      var s := Traverse(n);
      if NodeSearch(n, key).Some? {
        var i :| 0 <= i < |s| && s[i] == (key, NodeSearch(n, key).value.value);
        ToMapAt(s, i);
      }
    }
  }

  /** Where the corrected search finds a key, the search as written returns the same payload. */
  lemma SearchAsWrittenAgrees(t: BTree, key: int)
    requires Valid(t) && Search(t, key).Some?
    ensures SearchAsWritten(t, key) == Search(t, key)
  {
    var n := t.root.value;
    FilledSearchable(n);
    AsWrittenAgrees(n, key);
  }

  // ---------------------------------------------------------------- insert

  /** `new BTreeNode(true)` holding the single record `(key, val)` (btree.cpp:349-353). */
  function SingleLeaf(key: int, val: string): (n: Node)
    ensures Wired(n) && n.leaf && n.numKeys == 1
  {
    var f := FreshNode(true);
    f.(keys := f.keys[0 := key], data := f.data[0 := val], numKeys := 1)
  }

  /** `s = new BTreeNode(false); s->children[0] = root;` (btree.cpp:356-357):
      a node with no keys over the old root. */
  function GrowRoot(root: Node): (s: Node)
    requires Wired(root)
    ensures Wired(s) && !s.leaf && s.numKeys == 0 && Child(s, 0) == root
  {
    var f := FreshNode(false);
    var ch := f.children[0 := To(root)];
    assert forall i :: 0 <= i < |ch| && ch[i].To? ==> i == 0;
    f.(children := ch)
  }

  /** A full root split under a fresh root (btree.cpp:355-361). */
  function SplitRoot(root: Node): (s: Node)
    requires Wired(root) && root.numKeys == MaxKeys
    ensures Wired(s) && !s.leaf && s.numKeys == 1
    ensures Child(s, 0).numKeys == T - 1 && Child(s, 1).numKeys == T - 1
  {
    SplitChild(GrowRoot(root), 0)
  }

  /** `BTree::insert` (btree.cpp:344-367): refuses a key `search` finds;
      otherwise starts a leaf root, or splits a full root under a new one
      and inserts on the side of the lifted median, or inserts into the
      non-full root. The flag is the returned `bool`. */
  function Insert(t: BTree, key: int, val: string): (r: (BTree, bool))
    requires Valid(t)
    ensures r.0.root.Some? ==> Wired(r.0.root.value)
  {
    if Search(t, key).Some? then (t, false)
    else if t.root.None? then (BTree(Some(SingleLeaf(key, val))), true)
    else
      var root := t.root.value;
      if root.numKeys == MaxKeys then
        var s := SplitRoot(root);
        var i := if s.keys[0] < key then 1 else 0;
        (BTree(Some(Descend(s, i, key, val))), true)
      else (BTree(Some(InsertNonFull(root, key, val))), true)
  }

  /** `BTree::insert` with its guard over the search as written: a key the
      stale slot still answers for is refused. */
  function InsertAsWritten(t: BTree, key: int, val: string): (r: (BTree, bool))
    requires Valid(t)
    ensures r.0.root.Some? ==> Wired(r.0.root.value)
  {
    if SearchAsWritten(t, key).Some? then (t, false) else Insert(t, key, val)
  }

  /** Insert adds the record in key order when the key is new and changes
      nothing otherwise; the tree stays valid. */
  lemma InsertCorrect(t: BTree, key: int, val: string)
    requires Valid(t)
    ensures var r := Insert(t, key, val);
      && Valid(r.0)
      && (r.1 <==> key !in Keys(Contents(t)))
      && Contents(r.0) == (if r.1 then InsertSorted(Contents(t), (key, val)) else Contents(t))
  {
    SearchCorrect(t, key);
    ToMapKeys(Contents(t));
    if Search(t, key).None? && t.root.Some? {
      var root := t.root.value;
      if root.numKeys == MaxKeys {
        InsertSplitRootCorrect(root, key, val);
      } else {
        InsertNonFullCorrect(root, key, val, Depth(root));
        InsertRootValid(root, InsertNonFull(root, key, val), key, val);
      }
    } else if Search(t, key).None? {
      assert Contents(Insert(t, key, val).0) == [(key, val)];
    }
  }

  /** The insert as written refuses exactly the keys the search as written
      finds, among them every stored key; a key it accepts goes in as the
      corrected insert puts it, and a refusal leaves the tree as it was. */
  lemma InsertAsWrittenCorrect(t: BTree, key: int, val: string)
    requires Valid(t)
    ensures var r := InsertAsWritten(t, key, val);
      && Valid(r.0)
      && (r.1 <==> SearchAsWritten(t, key).None?)
      && (key in Keys(Contents(t)) ==> !r.1)
      && (r.1 ==> Contents(r.0) == InsertSorted(Contents(t), (key, val)))
      && (!r.1 ==> r.0 == t)
  {
    InsertCorrect(t, key, val);
    SearchCorrect(t, key);
    ToMapKeys(Contents(t));
    if Search(t, key).Some? {
      SearchAsWrittenAgrees(t, key);
    }
  }

  /** The record `(key, val)` went into `root`, giving `r`: `r` is a valid root. */
  lemma InsertRootValid(root: Node, r: Node, key: int, val: string)
    requires Sound(root) && Ordered(root) && key !in Keys(Traverse(root))
    requires Wired(r) && 1 <= r.numKeys && Inserted(root, r, key, val, Depth(root))
    ensures Valid(BTree(Some(r)))
  {
    InsertSortedIncreasing(Traverse(root), (key, val));
    BalancedDepth(r, Depth(root));
  }

  /** The full-root branch: the split keeps the records and the insert
      below the new root adds the record in order. */
  lemma InsertSplitRootCorrect(root: Node, key: int, val: string)
    requires Sound(root) && Ordered(root) && root.numKeys == MaxKeys && key !in Keys(Traverse(root))
    ensures var s := SplitRoot(root); var i := if s.keys[0] < key then 1 else 0;
      var r := Descend(s, i, key, val);
      Valid(BTree(Some(r))) && Traverse(r) == InsertSorted(Traverse(root), (key, val))
  {
    var s := SplitRoot(root);
    SplitRootValid(root);
    LiveKeysInTraverse(s, 0);
    assert s.keys[0] != key;
    var i := if s.keys[0] < key then 1 else 0;
    DescendCorrect(s, i, key, val, Depth(s));
    InsertRootValid(s, Descend(s, i, key, val), key, val);
  }

  /** Splitting a full root under a fresh one keeps its records and gives a
      sound root one level deeper. */
  lemma SplitRootValid(root: Node)
    requires Sound(root) && Ordered(root) && root.numKeys == MaxKeys
    ensures var s := SplitRoot(root);
      Sound(s) && Ordered(s) && Traverse(s) == Traverse(root) && Depth(s) == Depth(root) + 1
  {
    var g := GrowRoot(root);
    var h := Depth(root) + 1;
    GrowRootValid(root);
    SplitChildTraverse(g, 0);
    SplitChildValid(g, 0, h);
    BalancedDepth(SplitRoot(root), h);
  }

  /** The fresh root over the old one emits the old root's records and is one level deeper. */
  lemma GrowRootValid(root: Node)
    requires Sound(root) && T - 1 <= root.numKeys
    ensures var g := GrowRoot(root);
      Traverse(g) == Traverse(root) && Filled(g) && Balanced(g, Depth(root) + 1) && Depth(g) == Depth(root) + 1
  {
    var g := GrowRoot(root);
    assert Parts(g) == [Traverse(root)];
    assert LivePairs(g) == [];
  }

  // ---------------------------------------------------------------- edit

  /** `for (i = 0; i < numKeys; i++) if (keys[i] == key) ... break;` from
      slot `i`: the first live slot holding `key`, or `num`. */
  function FirstEqual(keys: seq<int>, num: int, key: int, i: int): (j: int)
    requires 0 <= i <= num <= |keys|
    ensures i <= j <= num
    ensures forall m :: i <= m < j ==> keys[m] != key
    ensures j < num ==> keys[j] == key
    decreases num - i
  {
    if i < num && keys[i] != key then FirstEqual(keys, num, key, i + 1) else i
  }

  /** The payload write of `edit` (btree.cpp:380-385) in the node at `path`:
      the first live slot holding `key` takes `val`; a node without such a
      slot is left alone. */
  function SetPayload(n: Node, path: seq<int>, key: int, val: string): (r: Node)
    requires Wired(n) && NodeAt(n, path).Some?
    ensures Wired(r) && r.leaf == n.leaf && r.numKeys == n.numKeys && r.keys == n.keys
    decreases |path|
  {
    if |path| == 0 then
      var j := FirstEqual(n.keys, n.numKeys, key, 0);
      if j < n.numKeys then n.(data := n.data[j := val]) else n
    else
      var c := path[0];
      var sub := SetPayload(Child(n, c), path[1..], key, val);
      ReplaceChild(n, c, sub);
      n.(children := n.children[c := To(sub)])
  }

  /** Write the payload where a search result points, if it points anywhere. */
  function EditAt(n: Node, f: Option<Found>, key: int, val: string): (r: (BTree, bool))
    requires Wired(n) && (f.Some? ==> NodeAt(n, f.value.path).Some?)
    ensures r.1 == f.Some?
    ensures r.0.root.Some? && Wired(r.0.root.value)
  {
    match f
    case None => (BTree(Some(n)), false)
    case Some(x) => (BTree(Some(SetPayload(n, x.path, key, val))), true)
  }

  /** `BTree::edit` (btree.cpp:374-389) over the corrected search. */
  function Edit(t: BTree, key: int, val: string): (r: (BTree, bool))
    requires Valid(t)
    ensures r.0.root.Some? ==> Wired(r.0.root.value)
  {
    match t.root
    case None => (t, false)
    case Some(n) =>
      FilledSearchable(n);
      EditAt(n, NodeSearch(n, key), key, val)
  }

  /** `BTree::edit` as written, over the search as written: a hit on the
      stale slot reports success although the scan of the live keys finds
      nothing to overwrite. */
  function EditAsWritten(t: BTree, key: int, val: string): (r: (BTree, bool))
    requires Valid(t)
    ensures r.0.root.Some? ==> Wired(r.0.root.value)
  {
    match t.root
    case None => (t, false)
    case Some(n) =>
      FilledSearchable(n);
      EditAt(n, NodeSearchAsWritten(n, key), key, val)
  }

  /** Writing the payload of a live key along a path changes that one
      record of the traversal and nothing else. */
  lemma {:induction false} SetPayloadSplit(n: Node, path: seq<int>, key: int, val: string, v: string)
    returns (pre: seq<Pair>, v0: string, post: seq<Pair>)
    requires Wired(n) && NodeAt(n, path).Some? && LiveAt(NodeAt(n, path).value, key, v)
    ensures Traverse(n) == pre + [(key, v0)] + post
    ensures Traverse(SetPayload(n, path, key, val)) == pre + [(key, val)] + post
    decreases |path|
  {
    if |path| == 0 {
      pre, v0, post := SetPayloadHere(n, key, val, v);
    } else {
      var c := path[0];
      var sub := SetPayload(Child(n, c), path[1..], key, val);
      assert SetPayload(n, path, key, val) == n.(children := n.children[c := To(sub)]);
      var a, b;
      a, v0, b := SetPayloadSplit(Child(n, c), path[1..], key, val, v);
      TraverseAround(n, c);
      ReplaceChild(n, c, sub);
      Nest(Before(n, c), a, (key, v0), b, After(n, c));
      Nest(Before(n, c), a, (key, val), b, After(n, c));
      pre, post := Before(n, c) + a, b + After(n, c);
    }
  }

  /** The node the search stopped at: its first slot holding `key` takes the payload. */
  lemma SetPayloadHere(n: Node, key: int, val: string, v: string)
    returns (pre: seq<Pair>, v0: string, post: seq<Pair>)
    requires Wired(n) && LiveAt(n, key, v)
    ensures Traverse(n) == pre + [(key, v0)] + post
    ensures Traverse(SetPayload(n, [], key, val)) == pre + [(key, val)] + post
  {
    var r := SetPayload(n, [], key, val);
    var j := FirstEqual(n.keys, n.numKeys, key, 0);
    assert j < n.numKeys;
    assert r == n.(data := n.data[j := val]);
    v0 := n.data[j];
    SameShapeRecord(n, r, j);
    if n.leaf {
      var s := LivePairs(n);
      Around(s, j);
      UpdateAround(s, j, (key, val));
      pre, post := s[..j], s[j + 1..];
    } else {
      TraverseSeparator(n, j);
      Local(n, r, j);
      Nest(Before(n, j), Parts(n)[j], (key, v0), Parts(n)[j + 1], After(n, j + 1));
      Nest(Before(n, j), Parts(n)[j], (key, val), Parts(n)[j + 1], After(n, j + 1));
      pre, post := Before(n, j) + Parts(n)[j], Parts(n)[j + 1] + After(n, j + 1);
    }
  }

  /** Writing payload slot `j` of a node: the same shape, children and keys,
      with record `j` carrying the new payload. */
  lemma SameShapeRecord(n: Node, r: Node, j: int)
    requires Wired(n) && Wired(r) && 0 <= j < n.numKeys
    requires r.keys == n.keys && r.numKeys == n.numKeys && r.leaf == n.leaf && r.children == n.children
    requires r.data == n.data[j := r.data[j]]
    ensures LivePairs(r) == LivePairs(n)[j := (n.keys[j], r.data[j])]
    ensures !n.leaf ==> Parts(r) == Parts(n)
  {
    if !n.leaf {
      assert forall i :: 0 <= i <= n.numKeys ==> r.children[i].node == n.children[i].node;
    }
  }

  /** Writing a payload keeps every node filled and balanced. */
  lemma {:induction false} SetPayloadShape(n: Node, path: seq<int>, key: int, val: string, h: int)
    requires Wired(n) && NodeAt(n, path).Some? && Filled(n) && Balanced(n, h)
    ensures Filled(SetPayload(n, path, key, val)) && Balanced(SetPayload(n, path, key, val), h)
    decreases |path|
  {
    if |path| == 0 {
      SameShape(n, SetPayload(n, path, key, val), h);
    } else {
      var c := path[0];
      ChildValid(n, c, h);
      SetPayloadShape(Child(n, c), path[1..], key, val, h - 1);
      var sub := SetPayload(Child(n, c), path[1..], key, val);
      ReplaceChildFilled(n, c, sub);
      ReplaceChildBalanced(n, c, sub, h);
    }
  }

  /** Edit overwrites the payload of a stored key and nothing else, reports
      whether the key was stored, and leaves a valid tree. */
  lemma EditCorrect(t: BTree, key: int, val: string)
    requires Valid(t)
    ensures var r := Edit(t, key, val);
      && Valid(r.0)
      && (r.1 <==> key in Stored(t))
      && Stored(r.0) == (if r.1 then Stored(t)[key := val] else Stored(t))
  {
    SearchCorrect(t, key);
    if t.root.Some? {
      var n := t.root.value;
      FilledSearchable(n);
      var f := NodeSearch(n, key);
      if f.Some? {
        var path := f.value.path;
        var r := SetPayload(n, path, key, val);
        var pre, v0, post := SetPayloadSplit(n, path, key, val, f.value.value);
        ReplaceMiddle(pre, (key, v0), post, val);
        SetPayloadShape(n, path, key, val, Depth(n));
        BalancedDepth(r, Depth(n));
        assert Edit(t, key, val).0 == BTree(Some(r));
      }
    }
  }

  // ---------------------------------------------------------------- remove

  /** The root after `BTreeNode::remove(&root, key)`: a root left with no
      keys gives way to its only child, or to null when it is a leaf
      (btree.cpp:396-403). */
  function Collapse(n: Node): (t: BTree)
    requires Wired(n)
    ensures t.root.Some? ==> Wired(t.root.value)
  {
    if n.numKeys != 0 then BTree(Some(n))
    else if n.leaf then BTree(None)
    else BTree(Some(Child(n, 0)))
  }

  /** `BTree::remove` (btree.cpp:391-405), with the corrected descent below
      the root; the flag is the returned `bool`. */
  function Remove(t: BTree, key: int): (r: (BTree, bool))
    requires Valid(t)
    ensures r.0.root.Some? ==> Wired(r.0.root.value)
  {
    if t.root.None? then (t, false)
    else
      var rem := NodeRemove(t.root.value, key);
      (Collapse(rem.node), rem.found)
  }

  /** Remove takes exactly the key out of the tree, reports whether it was
      there, and leaves a valid tree; an absent key leaves the records as they were. */
  lemma RemoveCorrect(t: BTree, key: int)
    requires Valid(t)
    ensures var r := Remove(t, key);
      && Valid(r.0)
      && (r.1 <==> key in Keys(Contents(t)))
      && Contents(r.0) == Without(Contents(t), key)
  {
    if t.root.Some? {
      var n := t.root.value;
      RemoveFromCorrect(n, key);
      var m := NodeRemove(n, key).node;
      WithoutIncreasing(Traverse(n), key);
      BalancedDepth(m, Depth(n));
      CollapseValid(m);
    }
  }

  /** Collapsing a sound, ordered root keeps its records and gives a valid tree. */
  lemma CollapseValid(n: Node)
    requires Sound(n) && Ordered(n)
    ensures Valid(Collapse(n)) && Contents(Collapse(n)) == Traverse(n)
  {
    if n.numKeys == 0 && !n.leaf {
      var c := Child(n, 0);
      assert Parts(n) == [Traverse(c)];
      assert Traverse(n) == Traverse(c);
      ChildSound(n, 0);
    } else if n.numKeys == 0 {
      assert Traverse(n) == [];
    }
  }
  // ---------------------------------------------------------------- stale slot

  /** A root leaf holding 1 -> "a", 2 -> "b", 3 -> "c". */
  function ThreeLeaf(): (r: Node)
    ensures Wired(r) && r.leaf && r.numKeys == 3
  {
    Node(seq(MaxKeys, i => if i < 3 then 1 + i else 0),
         seq(MaxKeys, i => if i == 0 then "a" else if i == 1 then "b" else if i == 2 then "c" else ""),
         seq(MaxKeys + 1, _ => Null), 3, true)
  }

  /** The same leaf after `remove(3)`: two live records, and slot 2 still
      holding the removed one. */
  function StaleLeaf(): (r: Node)
    ensures Wired(r) && r.leaf && r.numKeys == 2
  {
    ThreeLeaf().(numKeys := 2)
  }

  lemma ThreeLeafValid()
    ensures Valid(BTree(Some(ThreeLeaf())))
    ensures Contents(BTree(Some(ThreeLeaf()))) == [(1, "a"), (2, "b"), (3, "c")]
  {
    var n := ThreeLeaf();
    assert LivePairs(n) == [(1, "a"), (2, "b"), (3, "c")];
    assert Traverse(n) == LivePairs(n);
  }

  /** Removing 3 from the three-key leaf leaves exactly the stale leaf. */
  lemma RemoveLeavesStale()
    ensures Valid(BTree(Some(ThreeLeaf())))
    ensures Remove(BTree(Some(ThreeLeaf())), 3) == (BTree(Some(StaleLeaf())), true)
  {
    var n := ThreeLeaf();
    ThreeLeafValid();
    assert FirstNotBelow(n.keys, 3, 3, 0) == 2;
    var m := LeafErase(n, 2);
    assert m.keys == n.keys && m.data == n.data;
    assert NodeRemove(n, 3) == Removal(StaleLeaf(), true);
  }

  /** After removing 3 from the three-key leaf, slot 2 still holds the
      removed record. The search as written probes that slot and returns
      "c" for a key the tree no longer stores, and the edit as written then
      reports success without writing anything, and the insert as written
      refuses to put the key back; the corrected search and edit report the
      key absent, and the corrected insert adds it. */
  lemma StaleSlotAfterRemove()
    ensures Valid(BTree(Some(ThreeLeaf())))
    ensures var t := Remove(BTree(Some(ThreeLeaf())), 3).0;
      && Valid(t) && 3 !in Stored(t)
      && SearchAsWritten(t, 3) == Some("c") && Search(t, 3) == None
      && EditAsWritten(t, 3, "z") == (t, true) && Edit(t, 3, "z") == (t, false)
      && InsertAsWritten(t, 3, "z") == (t, false) && Insert(t, 3, "z").1
  {
    RemoveLeavesStale();
    RemoveCorrect(BTree(Some(ThreeLeaf())), 3);
    StaleLeafSearch();
  }

  /** Search, edit and insert, as written and corrected, on the stale leaf. */
  lemma StaleLeafSearch()
    ensures Valid(BTree(Some(StaleLeaf())))
    ensures var t := BTree(Some(StaleLeaf()));
      && 3 !in Stored(t)
      && SearchAsWritten(t, 3) == Some("c") && Search(t, 3) == None
      && EditAsWritten(t, 3, "z") == (t, true) && Edit(t, 3, "z") == (t, false)
      && InsertAsWritten(t, 3, "z") == (t, false) && Insert(t, 3, "z").1
  {
    var m := StaleLeaf();
    var t := BTree(Some(m));
    assert LivePairs(m) == [(1, "a"), (2, "b")];
    assert Traverse(m) == LivePairs(m);
    assert Increasing(Traverse(m));
    SearchCorrect(t, 3);
    assert Scan(m, 3) == Miss(3);
    assert FirstEqual(m.keys, 2, 3, 0) == 2;
  }

  // ---------------------------------------------------------------- never-written slot

  /** The leaf that inserting -5 -> "a" and then -3 -> "b" into an empty tree
      builds: slot 2 was never written; it holds 0, the model's choice for
      the indeterminate slots of a fresh node (see "Left out" in README.md). */
  function TwoKeyLeaf(): (r: Node)
    ensures Wired(r) && r.leaf && r.numKeys == 2
  {
    Node(seq(MaxKeys, i => if i == 0 then -5 else if i == 1 then -3 else 0),
         seq(MaxKeys, i => if i == 0 then "a" else if i == 1 then "b" else ""),
         seq(MaxKeys + 1, _ => Null), 2, true)
  }

  /** The two inserts, as written and corrected alike, build the two-key leaf. */
  lemma TwoInsertsBuild()
    ensures Valid(Insert(Empty(), -5, "a").0)
    ensures InsertAsWritten(Empty(), -5, "a") == Insert(Empty(), -5, "a")
    ensures InsertAsWritten(Insert(Empty(), -5, "a").0, -3, "b") == Insert(Insert(Empty(), -5, "a").0, -3, "b")
    ensures Insert(Insert(Empty(), -5, "a").0, -3, "b").0 == BTree(Some(TwoKeyLeaf()))
  {
    var one := SingleLeaf(-5, "a");
    var t1 := BTree(Some(one));
    assert Insert(Empty(), -5, "a").0 == t1;
    InsertCorrect(Empty(), -5, "a");
    assert LivePairs(one) == [(-5, "a")];
    assert Contents(t1) == [(-5, "a")];
    SearchCorrect(t1, -3);
    ToMapKeys(Contents(t1));
    assert Search(t1, -3).None?;
    assert Scan(one, -3) == Miss(1);
    assert SearchAsWritten(t1, -3).None?;
    assert LastNotAbove(one.keys, 0, -3) == 0;
    var m := LeafInsert(one, -3, "b");
    assert m.keys == TwoKeyLeaf().keys;
    assert m.data == TwoKeyLeaf().data;
  }

  /** The slot past the live keys need not be stale from a removal: on the
      two-key leaf, slot 2 was never written, and the search as written finds
      0 there with an empty payload, so the insert as written refuses the new
      key 0; the corrected search misses it and the corrected insert adds it. */
  lemma NeverWrittenSlot()
    ensures Valid(BTree(Some(TwoKeyLeaf())))
    ensures var t := BTree(Some(TwoKeyLeaf()));
      && Contents(t) == [(-5, "a"), (-3, "b")]
      && SearchAsWritten(t, 0) == Some("") && Search(t, 0) == None
      && InsertAsWritten(t, 0, "c") == (t, false) && Insert(t, 0, "c").1
  {
    var m := TwoKeyLeaf();
    var t := BTree(Some(m));
    assert LivePairs(m) == [(-5, "a"), (-3, "b")];
    assert Traverse(m) == LivePairs(m);
    assert Increasing(Traverse(m));
    SearchCorrect(t, 0);
    ToMapKeys(Contents(t));
    assert Scan(m, 0) == Miss(3);
  }
}

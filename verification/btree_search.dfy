/** `BTreeNode::search` (Lab_3/Lab_3/btree.cpp:139-181): a range pre-check
    on internal nodes, a delta-halving probe over the live keys, a final
    equality check and a descent into the child the probe points at. */
module BTreeSearch {
  import opened Maybe
  import opened InOrder
  import opened BTreeNodes

  /** Where the in-node probe ends: a key match at a slot, the probe index
      `i` left by the halving loop, or a child chosen by the range pre-check. */
  datatype Probe = Hit(at: int) | Miss(i: int) | Edge(child: int)

  /** A successful search: the payload and the child slots followed from the
      node searched to the node holding the key (the C++ returns that node). */
  datatype Found = Found(value: string, path: seq<int>)

  ghost predicate Sorted(keys: seq<int>, n: int)
    requires 0 <= n <= |keys|
  {
    forall a, b :: 0 <= a < b < n ==> keys[a] < keys[b]
  }

  /** The probe's loop invariant: with c the probed slot and d the step,
      live keys left of c - d are below `key`, live keys right of c + d above it. */
  ghost predicate Window(keys: seq<int>, n: int, key: int, c: int, d: int)
    requires 0 <= n <= |keys|
  {
    && (forall j :: 0 <= j < n && j < c - d ==> keys[j] < key)
    && (forall j :: 0 <= j < n && c + d < j ==> key < keys[j])
  }

  /** The halving loop (btree.cpp:154-167); `i` is one past the probed slot. */
  function Halve(keys: seq<int>, n: int, key: int, i: int, delta: int): (r: Probe)
    requires 0 <= n <= |keys| && 0 <= delta && -delta <= i <= n + delta + 1
    ensures r.Hit? ==> 0 <= r.at < n && keys[r.at] == key
    ensures r.Miss? ==> 0 <= r.i <= n + 1
    ensures !r.Edge?
    decreases delta
  {
    if delta == 0 then Miss(i)
    else if i <= n && i > 0 && key == keys[i - 1] then Hit(i - 1)
    else if i > n || (i > 0 && key < keys[i - 1]) then Halve(keys, n, key, i - (delta / 2 + 1), delta / 2)
    else Halve(keys, n, key, i + (delta / 2 + 1), delta / 2)
  }

  /** The window's two frontier keys: the live key just left of `c - d` is
      below `key` and the live key just right of `c + d` is above it. */
  ghost predicate Frontier(keys: seq<int>, n: int, key: int, c: int, d: int)
    requires 0 <= n <= |keys|
  {
    var lo := if c - d < n then c - d else n;
    var hi := if c + d + 1 > 0 then c + d + 1 else 0;
    && (0 < lo ==> keys[lo - 1] < key)
    && (hi < n ==> key < keys[hi])
  }

  /** Over sorted keys the frontier pins down the whole window. */
  lemma FrontierWindow(keys: seq<int>, n: int, key: int, c: int, d: int)
    requires 0 <= n <= |keys| && Sorted(keys, n) && Frontier(keys, n, key, c, d)
    ensures Window(keys, n, key, c, d)
  {
    var lo := if c - d < n then c - d else n;
    var hi := if c + d + 1 > 0 then c + d + 1 else 0;
    forall j | 0 <= j < n && j < c - d ensures keys[j] < key {
      assert keys[j] <= keys[lo - 1];
    }
    forall j | 0 <= j < n && c + d < j ensures key < keys[j] {
      assert keys[hi] <= keys[j];
    }
  }

  /** The probe keeps its frontier: when it misses, the live keys left of the
      final slot are below `key` and those right of it above. */
  lemma {:induction false} HalveFrontier(keys: seq<int>, n: int, key: int, i: int, delta: int)
    requires 0 <= n <= |keys| && Sorted(keys, n) && 0 <= delta
    requires Frontier(keys, n, key, i - 1, delta) && -delta <= i <= n + delta + 1
    ensures Halve(keys, n, key, i, delta).Miss? ==> Frontier(keys, n, key, Halve(keys, n, key, i, delta).i - 1, 0)
    decreases delta, 1
  {
    if delta > 0 && !(i <= n && i > 0 && key == keys[i - 1]) {
      if i > n || (i > 0 && key < keys[i - 1]) {
        HalveFrontierLeft(keys, n, key, i, delta);
      } else {
        HalveFrontierRight(keys, n, key, i, delta);
      }
    }
  }

  /** The frontier survives a step to the left half. */
  lemma {:induction false} HalveFrontierLeft(keys: seq<int>, n: int, key: int, i: int, delta: int)
    requires 0 <= n <= |keys| && Sorted(keys, n) && 0 < delta
    requires Frontier(keys, n, key, i - 1, delta) && -delta <= i <= n + delta + 1
    requires !(i <= n && i > 0 && key == keys[i - 1]) && (i > n || (i > 0 && key < keys[i - 1]))
    ensures Halve(keys, n, key, i, delta).Miss? ==> Frontier(keys, n, key, Halve(keys, n, key, i, delta).i - 1, 0)
    decreases delta, 0
  {
    var i' := i - (delta / 2 + 1);
    assert Halve(keys, n, key, i, delta) == Halve(keys, n, key, i', delta / 2);
    FrontierLeft(keys, n, key, i - 1, delta);
    HalveFrontier(keys, n, key, i', delta / 2);
  }

  /** The frontier survives a step to the right half. */
  lemma {:induction false} HalveFrontierRight(keys: seq<int>, n: int, key: int, i: int, delta: int)
    requires 0 <= n <= |keys| && Sorted(keys, n) && 0 < delta
    requires Frontier(keys, n, key, i - 1, delta) && -delta <= i <= n + delta + 1
    requires !(i <= n && i > 0 && key == keys[i - 1]) && !(i > n || (i > 0 && key < keys[i - 1]))
    ensures Halve(keys, n, key, i, delta).Miss? ==> Frontier(keys, n, key, Halve(keys, n, key, i, delta).i - 1, 0)
    decreases delta, 0
  {
    var i' := i + (delta / 2 + 1);
    assert Halve(keys, n, key, i, delta) == Halve(keys, n, key, i', delta / 2);
    FrontierRight(keys, n, key, i - 1, delta);
    HalveFrontier(keys, n, key, i', delta / 2);
  }

  /** A missing probe leaves every live key left of its slot below `key` and every one right of it above. */
  lemma HalveWindow(keys: seq<int>, n: int, key: int, i: int, delta: int)
    requires 0 <= n <= |keys| && Sorted(keys, n) && 0 <= delta
    requires Frontier(keys, n, key, i - 1, delta) && -delta <= i <= n + delta + 1
    ensures Halve(keys, n, key, i, delta).Miss? ==> Window(keys, n, key, Halve(keys, n, key, i, delta).i - 1, 0)
  {
    var r := Halve(keys, n, key, i, delta);
    HalveFrontier(keys, n, key, i, delta);
    if r.Miss? {
      FrontierWindow(keys, n, key, r.i - 1, 0);
    }
  }

  /** Stepping left from a slot whose key is above `key` (or past the live ones) keeps the frontier. */
  lemma FrontierLeft(keys: seq<int>, n: int, key: int, c: int, d: int)
    requires 0 <= n <= |keys| && Sorted(keys, n) && 0 < d && Frontier(keys, n, key, c, d)
    requires c >= n || (c >= 0 && key < keys[c])
    ensures Frontier(keys, n, key, c - (d / 2 + 1), d / 2)
  {
    var lo := if c - d < n then c - d else n;
    var lo' := if c - (d / 2 + 1) - d / 2 < n then c - (d / 2 + 1) - d / 2 else n;
    if 0 < lo' < lo {
      assert keys[lo' - 1] <= keys[lo - 1];
    }
  }

  /** Stepping right from a slot whose key is below `key` (or before the first) keeps the frontier. */
  lemma FrontierRight(keys: seq<int>, n: int, key: int, c: int, d: int)
    requires 0 <= n <= |keys| && Sorted(keys, n) && 0 < d && Frontier(keys, n, key, c, d)
    requires c < n && (c < 0 || key > keys[c])
    ensures Frontier(keys, n, key, c + (d / 2 + 1), d / 2)
  {
    var hi := if c + d + 1 > 0 then c + d + 1 else 0;
    var hi' := if c + (d / 2 + 1) + d / 2 + 1 > 0 then c + (d / 2 + 1) + d / 2 + 1 else 0;
    if hi < hi' < n {
      assert keys[hi] <= keys[hi'];
    }
  }

  /** The probe states reachable from the start of a full node (n = 19). */
  ghost predicate ReachFull(c: int, d: int) {
    || (d == 9 && c == 9)
    || (d == 4 && (c == 4 || c == 14))
    || (d == 2 && (c == 1 || c == 7 || c == 11 || c == 17))
    || (d == 1 && (c == -1 || c == 3 || c == 5 || c == 9 || c == 13 || c == 15 || c == 19))
    || (d == 0 && c < MaxKeys)
  }

  /** On a full node the probe never ends past the last slot, so the final
      check `keys[i - 1]` stays inside the array. */
  lemma {:induction false} HalveFullNode(keys: seq<int>, key: int, i: int, delta: int)
    requires |keys| == MaxKeys && 0 <= delta && -delta <= i <= MaxKeys + delta + 1
    requires ReachFull(i - 1, delta)
    ensures Halve(keys, MaxKeys, key, i, delta).Miss? ==> Halve(keys, MaxKeys, key, i, delta).i <= MaxKeys
    decreases delta
  {
    if delta > 0 && !(i <= MaxKeys && i > 0 && key == keys[i - 1]) {
      if i > MaxKeys || (i > 0 && key < keys[i - 1]) {
        HalveFullNode(keys, key, i - (delta / 2 + 1), delta / 2);
      } else {
        HalveFullNode(keys, key, i + (delta / 2 + 1), delta / 2);
      }
    }
  }

  /** The in-node part of the search (btree.cpp:141-167). */
  function Scan(n: Node, key: int): (p: Probe)
    requires Wired(n) && Searchable(n)
    ensures p.Edge? ==> !n.leaf && ((p.child == 0 && key < n.keys[0]) ||
                                    (p.child == n.numKeys && n.keys[n.numKeys - 1] < key))
    ensures p.Hit? ==> 0 <= p.at < n.numKeys && n.keys[p.at] == key
    ensures p.Miss? ==> 0 <= p.i <= n.numKeys + 1 && p.i <= MaxKeys && Window(n.keys, n.numKeys, key, p.i - 1, 0)
    ensures p.Miss? && !n.leaf ==> 1 <= p.i <= n.numKeys
  {
    if !n.leaf && key < n.keys[0] then Edge(0)
    else if !n.leaf && key > n.keys[n.numKeys - 1] then Edge(n.numKeys)
    else
      var r := Halve(n.keys, n.numKeys, key, n.numKeys / 2 + 1, n.numKeys / 2);
      HalveWindow(n.keys, n.numKeys, key, n.numKeys / 2 + 1, n.numKeys / 2);
      if n.numKeys == MaxKeys then
        HalveFullNode(n.keys, key, T, T - 1);
        r
      else r
  }

  /** Prefix the path of a result found in child `c`. */
  function Via(c: int, r: Option<Found>): (r': Option<Found>)
    ensures r'.Some? <==> r.Some?
    ensures r'.Some? ==> r'.value.value == r.value.value && r'.value.path == [c] + r.value.path
  {
    match r
    case None => None
    case Some(f) => Some(Found(f.value, [c] + f.path))
  }

  /** The node reached from `n` by following live child slots along `path`. */
  function NodeAt(n: Node, path: seq<int>): (r: Option<Node>)
    requires Wired(n)
    ensures r.Some? ==> Wired(r.value)
    decreases |path|
  {
    if |path| == 0 then Some(n)
    else if !n.leaf && 0 <= path[0] <= n.numKeys then NodeAt(Child(n, path[0]), path[1..])
    else None
  }

  /** `key` with payload `value` sits in a live slot of `n`. */
  ghost predicate LiveAt(n: Node, key: int, value: string)
    requires Wired(n)
  {
    exists j :: 0 <= j < n.numKeys && n.keys[j] == key && n.data[j] == value
  }

  /** `key` with payload `value` sits in the first slot past the live ones of leaf `n`. */
  ghost predicate StaleAt(n: Node, key: int, value: string)
    requires Wired(n)
  {
    n.leaf && n.numKeys < MaxKeys && n.keys[n.numKeys] == key && n.data[n.numKeys] == value
  }

  /** The search with the final check confined to live slots (`0 < i <= numKeys`). */
  function NodeSearch(n: Node, key: int): (r: Option<Found>)
    requires Wired(n) && Searchable(n)
    ensures r.Some? ==> NodeAt(n, r.value.path).Some? && LiveAt(NodeAt(n, r.value.path).value, key, r.value.value)
    decreases n
  {
    match Scan(n, key)
    case Edge(c) => Via(c, NodeSearch(Child(n, c), key))
    case Hit(j) => Some(Found(n.data[j], []))
    case Miss(i) =>
      if 0 < i <= n.numKeys && key == n.keys[i - 1] then Some(Found(n.data[i - 1], []))
      else if n.leaf then None
      else
        var c := if key > n.keys[i - 1] then i else i - 1;
        Via(c, NodeSearch(Child(n, c), key))
  }

  /** The search as written: the final check (btree.cpp:170) tests `i > 0`
      only, so a probe that ends one past the live keys of a leaf reads the
      stale slot `keys[numKeys]`. */
  function NodeSearchAsWritten(n: Node, key: int): (r: Option<Found>)
    requires Wired(n) && Searchable(n)
    ensures r.Some? ==> (NodeAt(n, r.value.path).Some? &&
      (LiveAt(NodeAt(n, r.value.path).value, key, r.value.value) ||
       StaleAt(NodeAt(n, r.value.path).value, key, r.value.value)))
    decreases n
  {
    match Scan(n, key)
    case Edge(c) => Via(c, NodeSearchAsWritten(Child(n, c), key))
    case Hit(j) => Some(Found(n.data[j], []))
    case Miss(i) =>
      if 0 < i && key == n.keys[i - 1] then Some(Found(n.data[i - 1], []))
      else if n.leaf then None
      else
        var c := if key > n.keys[i - 1] then i else i - 1;
        Via(c, NodeSearchAsWritten(Child(n, c), key))
  }

  // ---------------------------------------------------------------- correctness

  /** Every live record of a node on a path appears in the traversal. */
  lemma {:induction false} LiveInTraverse(n: Node, path: seq<int>, key: int, value: string)
    requires Wired(n) && NodeAt(n, path).Some? && LiveAt(NodeAt(n, path).value, key, value)
    ensures (key, value) in Traverse(n)
    decreases |path|
  {
    if |path| == 0 {
      var j :| 0 <= j < n.numKeys && n.keys[j] == key && n.data[j] == value;
      assert LivePairs(n)[j] == (key, value);
      if !n.leaf {
        WeaveHasRecord(Parts(n), LivePairs(n), j);
      }
    } else {
      var c := path[0];
      LiveInTraverse(Child(n, c), path[1..], key, value);
      WeaveHasPart(Parts(n), LivePairs(n), c, (key, value));
    }
  }

  /** Search finds a key exactly when the traversal holds it, with its payload. */
  lemma NodeSearchCorrect(n: Node, key: int)
    requires Wired(n) && Searchable(n) && Ordered(n)
    ensures NodeSearch(n, key).Some? <==> key in Keys(Traverse(n))
    ensures NodeSearch(n, key).Some? ==> (key, NodeSearch(n, key).value.value) in Traverse(n)
  {
    var r := NodeSearch(n, key);
    if r.Some? {
      LiveInTraverse(n, r.value.path, key, r.value.value);
      assert (key, r.value.value).0 == key;
    }
    if key in Keys(Traverse(n)) {
      NodeSearchComplete(n, key);
    }
  }

  lemma {:induction false} NodeSearchComplete(n: Node, key: int)
    requires Wired(n) && Searchable(n) && Ordered(n) && key in Keys(Traverse(n))
    ensures NodeSearch(n, key).Some?
    decreases n
  {
    if n.leaf {
      LeafSearchAbsent(n, key);
    } else {
      match Scan(n, key)
      case Edge(c) =>
        DescendComplete(n, key, c);
        NodeSearchComplete(Child(n, c), key);
      case Hit(j) =>
      case Miss(i) =>
        if !(0 < i <= n.numKeys && key == n.keys[i - 1]) {
          var c := if key > n.keys[i - 1] then i else i - 1;
          DescendComplete(n, key, c);
          NodeSearchComplete(Child(n, c), key);
        }
    }
  }

  /** The child between the keys around `key` holds `key` whenever the node does. */
  lemma DescendComplete(n: Node, key: int, c: int)
    requires Wired(n) && Searchable(n) && Ordered(n) && !n.leaf && 0 <= c <= n.numKeys
    requires c == 0 || n.keys[c - 1] < key
    requires c == n.numKeys || key < n.keys[c]
    requires key in Keys(Traverse(n))
    ensures Searchable(Child(n, c)) && Ordered(Child(n, c)) && key in Keys(Traverse(Child(n, c)))
  {
    OrderedParts(n);
    Bracket(n, c, key);
  }

  /** A leaf search that comes back empty leaves no live key equal to `key`. */
  lemma LeafSearchAbsent(n: Node, key: int)
    requires Wired(n) && Searchable(n) && n.leaf
    ensures NodeSearch(n, key).None? ==> key !in Keys(Traverse(n))
  {
    if NodeSearch(n, key).None? {
      var i := Scan(n, key).i;
      var s := Traverse(n);
      assert s == LivePairs(n);
      forall j | 0 <= j < |s| ensures s[j].0 != key {
        assert s[j].0 == n.keys[j];
        if j != i - 1 {
          assert j < i - 1 || i - 1 < j;
        }
      }
      KeysIndex(s, key);
    }
  }

  /** Where the corrected search succeeds the as-written one returns the same. */
  lemma {:induction false} AsWrittenAgrees(n: Node, key: int)
    requires Wired(n) && Searchable(n) && NodeSearch(n, key).Some?
    ensures NodeSearchAsWritten(n, key) == NodeSearch(n, key)
    decreases n
  {
    match Scan(n, key)
    case Edge(c) =>
      AsWrittenAgrees(Child(n, c), key);
    case Hit(j) =>
    case Miss(i) =>
      if !(0 < i <= n.numKeys && key == n.keys[i - 1]) && !n.leaf {
        var c := if key > n.keys[i - 1] then i else i - 1;
        AsWrittenAgrees(Child(n, c), key);
      }
  }
}

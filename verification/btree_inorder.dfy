/** The in-order view of a B-tree: the sequence of (key, payload) records that
    `BTreeNode::traverse(out)` emits (Lab_3/Lab_3/btree.cpp:12-20), and the
    sorted-association-list algebra every B-tree operation is proved against. */
module InOrder {

  /** One record: a key and its payload (`keys[i]`, `data[i]`). */
  type Pair = (int, string)

  /** The in-order interleaving of child traversals and node records:
      parts[0], kv[0], parts[1], kv[1], ..., parts[|kv|]. */
  function Weave(parts: seq<seq<Pair>>, kv: seq<Pair>): seq<Pair>
    requires |parts| == |kv| + 1
    decreases |kv|
  {
    if |kv| == 0 then parts[0] else parts[0] + [kv[0]] + Weave(parts[1..], kv[1..])
  }

  /** Keys of a record sequence strictly increase (sorted, no duplicates). */
  ghost predicate Increasing(s: seq<Pair>) {
    forall i, j :: 0 <= i < j < |s| ==> s[i].0 < s[j].0
  }

  /** Every key of `s` is below `k`. */
  ghost predicate AllBelow(s: seq<Pair>, k: int) {
    forall i :: 0 <= i < |s| ==> s[i].0 < k
  }

  /** Every key of `s` is above `k`. */
  ghost predicate AllAbove(s: seq<Pair>, k: int) {
    forall i :: 0 <= i < |s| ==> s[i].0 > k
  }

  /** The set of keys of a record sequence. */
  function Keys(s: seq<Pair>): set<int> {
    set p | p in s :: p.0
  }

  /** `s` with every record of key `k` dropped. */
  function Without(s: seq<Pair>, k: int): seq<Pair>
    decreases |s|
  {
    if |s| == 0 then []
    else (if s[0].0 == k then [] else [s[0]]) + Without(s[1..], k)
  }

  /** `s` with `p` placed before the first record whose key is not below `p`'s. */
  function InsertSorted(s: seq<Pair>, p: Pair): seq<Pair>
    decreases |s|
  {
    if |s| == 0 then [p]
    else if s[0].0 < p.0 then [s[0]] + InsertSorted(s[1..], p)
    else [p] + s
  }

  /** The key -> payload map of a record sequence; the first record of a key wins. */
  function ToMap(s: seq<Pair>): map<int, string>
    decreases |s|
  {
    if |s| == 0 then map[] else ToMap(s[1..])[s[0].0 := s[0].1]
  }

  // ---------------------------------------------------------------- Weave

  /** Splitting the interleaving around one part. */
  lemma {:induction false} WeaveMiddle(q: seq<seq<Pair>>, m: seq<Pair>, r: seq<seq<Pair>>, k0: seq<Pair>, k2: seq<Pair>)
    requires |q| == |k0| && |r| == |k2|
    ensures Weave(q + [m] + r, k0 + k2) == Weave(q + [[]], k0) + m + Weave([[]] + r, k2)
    decreases |q|
  {
    if |q| == 0 {
      assert q + [m] + r == [m] + r;
      assert k0 + k2 == k2;
      if |k2| > 0 {
        assert ([m] + r)[1..] == r;
        assert ([[]] + r)[1..] == r;
      }
    } else {
      assert (q + [m] + r)[1..] == q[1..] + [m] + r;
      assert (k0 + k2)[1..] == k0[1..] + k2;
      assert (q + [[]])[1..] == q[1..] + [[]];
      WeaveMiddle(q[1..], m, r, k0[1..], k2);
    }
  }

  /** The interleaving ends with its last part. */
  lemma WeaveSnoc(q: seq<seq<Pair>>, m: seq<Pair>, k0: seq<Pair>)
    requires |q| == |k0|
    ensures Weave(q + [m], k0) == Weave(q + [[]], k0) + m
  {
    WeaveMiddle(q, m, [], k0, []);
    assert q + [m] + [] == q + [m];
    assert k0 + [] == k0;
  }

  /** The interleaving starts with its first part. */
  lemma WeaveCons(m: seq<Pair>, r: seq<seq<Pair>>, k2: seq<Pair>)
    requires |r| == |k2|
    ensures Weave([m] + r, k2) == m + Weave([[]] + r, k2)
  {
    if |k2| > 0 {
      assert ([m] + r)[1..] == r;
      assert ([[]] + r)[1..] == r;
    }
  }

  /** Splitting the interleaving at record `j`. */
  lemma {:induction false} WeaveAt(parts: seq<seq<Pair>>, kv: seq<Pair>, j: int)
    requires |parts| == |kv| + 1 && 0 <= j < |kv|
    ensures Weave(parts, kv) == Weave(parts[..j + 1], kv[..j]) + [kv[j]] + Weave(parts[j + 1..], kv[j + 1..])
    decreases j
  {
    if j == 0 {
      assert parts[..1] == [parts[0]];
    } else {
      WeaveAt(parts[1..], kv[1..], j - 1);
      assert parts[1..][..j] == parts[..j + 1][1..];
      assert kv[1..][..j - 1] == kv[..j][1..];
      assert parts[1..][j..] == parts[j + 1..];
      assert kv[1..][j..] == kv[j + 1..];
      assert kv[1..][j - 1] == kv[j];
      assert parts[..j + 1][0] == parts[0];
      assert kv[..j][0] == kv[0];
    }
  }

  /** Splitting part `a ++ [m] ++ b` at record `m` into parts `a` and `b`
      leaves the weave unchanged. */
  lemma WeaveSplitPart(q: seq<seq<Pair>>, a: seq<Pair>, m: Pair, b: seq<Pair>, r: seq<seq<Pair>>,
                       k0: seq<Pair>, k2: seq<Pair>)
    requires |q| == |k0| && |r| == |k2|
    ensures Weave(q + [a] + ([b] + r), k0 + ([m] + k2)) == Weave(q + [a + [m] + b] + r, k0 + k2)
  {
    SplitLeft(q, a, m, b, r, k0, k2);
    WeaveEmptyHead(b, r, m, k2);
    WeaveCons(b, r, k2);
    SplitRight(q, a, m, b, r, k0, k2);
    Regroup(Weave(q + [[]], k0), a, m, b, Weave([[]] + r, k2));
  }

  lemma WeaveEmptyHead(b: seq<Pair>, r: seq<seq<Pair>>, m: Pair, k2: seq<Pair>)
    requires |r| == |k2|
    ensures Weave([[]] + ([b] + r), [m] + k2) == [m] + Weave([b] + r, k2)
  {
    var e: seq<Pair> := [];
    var br := [b] + r;
    var mk := [m] + k2;
    assert ([e] + br)[1..] == br;
    assert ([e] + br)[0] == e;
    assert mk[1..] == k2;
    assert mk[0] == m;
  }

  lemma SplitLeft(q: seq<seq<Pair>>, a: seq<Pair>, m: Pair, b: seq<Pair>, r: seq<seq<Pair>>,
                  k0: seq<Pair>, k2: seq<Pair>)
    requires |q| == |k0| && |r| == |k2|
    ensures Weave(q + [a] + ([b] + r), k0 + ([m] + k2)) ==
            Weave(q + [[]], k0) + a + Weave([[]] + ([b] + r), [m] + k2)
  {
    WeaveMiddle(q, a, [b] + r, k0, [m] + k2);
  }

  lemma SplitRight(q: seq<seq<Pair>>, a: seq<Pair>, m: Pair, b: seq<Pair>, r: seq<seq<Pair>>,
                   k0: seq<Pair>, k2: seq<Pair>)
    requires |q| == |k0| && |r| == |k2|
    ensures Weave(q + [a + [m] + b] + r, k0 + k2) == Weave(q + [[]], k0) + (a + [m] + b) + Weave([[]] + r, k2)
  {
    WeaveMiddle(q, a + [m] + b, r, k0, k2);
  }

  lemma Regroup(pre: seq<Pair>, a: seq<Pair>, m: Pair, b: seq<Pair>, post: seq<Pair>)
    ensures pre + a + ([m] + (b + post)) == pre + (a + [m] + b) + post
  {
  }

  lemma Around<A>(s: seq<A>, i: int)
    requires 0 <= i < |s|
    ensures s == s[..i] + [s[i]] + s[i + 1..]
  {
  }

  lemma Assoc<A>(a: seq<A>, b: seq<A>, c: seq<A>)
    ensures a + b + c == a + (b + c)
  {
  }

  lemma Nest<A>(pre: seq<A>, a: seq<A>, x: A, b: seq<A>, post: seq<A>)
    ensures pre + (a + [x] + b) + post == (pre + a) + [x] + (b + post)
  {
  }

  lemma UpdateAround<A>(s: seq<A>, i: int, y: A)
    requires 0 <= i < |s|
    ensures s[i := y] == s[..i] + [y] + s[i + 1..]
  {
  }

  lemma Halves<A>(s: seq<A>, i: int)
    requires 0 <= i <= |s|
    ensures s == s[..i] + s[i..]
  {
  }

  /** Two sequences that agree at every index are equal. */
  lemma SeqExt<A>(a: seq<A>, b: seq<A>)
    requires |a| == |b| && forall i :: 0 <= i < |a| ==> a[i] == b[i]
    ensures a == b
  {
  }

  /** Joining two interleavings with a record between them: the last part of
      the first and the first part of the second stay separate parts. */
  lemma {:induction false} WeaveJoin(pc: seq<seq<Pair>>, lc: seq<Pair>, m: Pair, ps: seq<seq<Pair>>, ls: seq<Pair>)
    requires |pc| == |lc| + 1 && |ps| == |ls| + 1
    ensures Weave(pc + ps, lc + ([m] + ls)) == Weave(pc, lc) + [m] + Weave(ps, ls)
    decreases |lc|
  {
    var parts := pc + ps;
    var kv := lc + ([m] + ls);
    if |lc| == 0 {
      assert parts[0] == pc[0] && parts[1..] == ps;
      assert kv[0] == m && kv[1..] == ls;
    } else {
      assert parts[0] == pc[0] && parts[1..] == pc[1..] + ps;
      assert kv[0] == lc[0] && kv[1..] == lc[1..] + ([m] + ls);
      WeaveJoin(pc[1..], lc[1..], m, ps, ls);
    }
  }

  // ---------------------------------------------------------------- membership and order

  lemma KeysConcat(a: seq<Pair>, b: seq<Pair>)
    ensures Keys(a + b) == Keys(a) + Keys(b)
  {
    forall k | k in Keys(a + b) ensures k in Keys(a) + Keys(b) {
      var p :| p in a + b && p.0 == k;
    }
    forall k | k in Keys(a) + Keys(b) ensures k in Keys(a + b) {
      if k in Keys(a) {
        var p :| p in a && p.0 == k;
        assert p in a + b;
      } else {
        var p :| p in b && p.0 == k;
        assert p in a + b;
      }
    }
  }

  lemma KeysIndex(s: seq<Pair>, k: int)
    ensures k in Keys(s) <==> exists i :: 0 <= i < |s| && s[i].0 == k
  {
    if k in Keys(s) {
      var p :| p in s && p.0 == k;
      var i :| 0 <= i < |s| && s[i] == p;
    }
    if exists i :: 0 <= i < |s| && s[i].0 == k {
      var i :| 0 <= i < |s| && s[i].0 == k;
      assert s[i] in s;
    }
  }

  lemma IncreasingSub(s: seq<Pair>, lo: int, hi: int)
    requires Increasing(s) && 0 <= lo <= hi <= |s|
    ensures Increasing(s[lo..hi])
  {
  }

  lemma IncreasingConcat3(a: seq<Pair>, b: seq<Pair>, c: seq<Pair>)
    requires Increasing(a + b + c)
    ensures Increasing(a) && Increasing(b) && Increasing(c)
  {
    var s := a + b + c;
    assert a == s[..|a|];
    assert b == s[|a|..|a| + |b|];
    assert c == s[|a| + |b|..];
    IncreasingSub(s, 0, |a|);
    IncreasingSub(s, |a|, |a| + |b|);
    IncreasingSub(s, |a| + |b|, |s|);
  }

  /** In a strictly increasing sequence a key found in the middle segment occurs nowhere else. */
  lemma UniqueInMiddle(a: seq<Pair>, b: seq<Pair>, c: seq<Pair>, k: int)
    requires Increasing(a + b + c) && k in Keys(b)
    ensures k !in Keys(a) && k !in Keys(c)
  {
    var s := a + b + c;
    KeysIndex(b, k);
    var j :| 0 <= j < |b| && b[j].0 == k;
    assert s[|a| + j] == b[j];
    forall i | 0 <= i < |a| ensures a[i].0 < k {
      assert s[i] == a[i];
    }
    forall i | 0 <= i < |c| ensures c[i].0 > k {
      assert s[|a| + |b| + i] == c[i];
    }
    AllBelowNotIn(a, k);
    AllBelowNotIn(c, k);
  }

  lemma AllBelowNotIn(s: seq<Pair>, k: int)
    requires AllBelow(s, k) || AllAbove(s, k)
    ensures k !in Keys(s)
  {
    KeysIndex(s, k);
  }

  /** In a strictly increasing sequence, a record before `x` has a smaller
      key and a record after it a larger one. */
  lemma SepOrder(pre: seq<Pair>, a: seq<Pair>, x: Pair, b: seq<Pair>, post: seq<Pair>, p: Pair)
    requires Increasing(pre + (a + [x] + b) + post)
    ensures p in a ==> p.0 < x.0
    ensures p in b ==> x.0 < p.0
  {
    var s := pre + (a + [x] + b) + post;
    assert s[|pre| + |a|] == x;
    if p in a {
      var i :| 0 <= i < |a| && a[i] == p;
      assert s[|pre| + i] == p;
    }
    if p in b {
      var i :| 0 <= i < |b| && b[i] == p;
      assert s[|pre| + |a| + 1 + i] == p;
    }
  }

  // ---------------------------------------------------------------- Without

  lemma {:induction false} WithoutConcat(a: seq<Pair>, b: seq<Pair>, k: int)
    ensures Without(a + b, k) == Without(a, k) + Without(b, k)
    decreases |a|
  {
    if |a| == 0 {
      assert a + b == b;
    } else {
      assert (a + b)[1..] == a[1..] + b;
      WithoutConcat(a[1..], b, k);
    }
  }

  lemma {:induction false} WithoutAbsent(s: seq<Pair>, k: int)
    requires k !in Keys(s)
    ensures Without(s, k) == s
    decreases |s|
  {
    if |s| > 0 {
      assert s[0] in s;
      assert Keys(s[1..]) <= Keys(s) by {
        forall x | x in Keys(s[1..]) ensures x in Keys(s) {
          var p :| p in s[1..] && p.0 == x;
          assert p in s;
        }
      }
      WithoutAbsent(s[1..], k);
      assert s == [s[0]] + s[1..];
    }
  }

  lemma WithoutSingle(p: Pair, k: int)
    ensures Without([p], k) == if p.0 == k then [] else [p]
  {
    assert [p][1..] == [];
  }

  /** Removing the key of the middle record of a strictly increasing sequence. */
  lemma WithoutMiddle(a: seq<Pair>, x: Pair, b: seq<Pair>)
    requires Increasing(a + [x] + b)
    ensures Without(a + [x] + b, x.0) == a + b
  {
    assert x.0 in Keys([x]) by { assert x in [x]; }
    UniqueInMiddle(a, [x], b, x.0);
    WithoutAbsent(a, x.0);
    WithoutAbsent(b, x.0);
    WithoutSingle(x, x.0);
    WithoutConcat(a, [x], x.0);
    assert Without(a + [x], x.0) == a;
    WithoutConcat(a + [x], b, x.0);
  }

  /** Removing a separator from a strictly increasing traversal joins the parts on either side of it. */
  lemma WithoutSeparator(b: seq<Pair>, p0: seq<Pair>, x: Pair, p1: seq<Pair>, a: seq<Pair>)
    requires Increasing(b + (p0 + [x] + p1) + a)
    ensures Without(b + (p0 + [x] + p1) + a, x.0) == b + (p0 + p1) + a
  {
    assert b + (p0 + [x] + p1) + a == (b + p0) + [x] + (p1 + a);
    WithoutMiddle(b + p0, x, p1 + a);
    assert (b + p0) + (p1 + a) == b + (p0 + p1) + a;
  }

  /** Removing the first key of a strictly increasing sequence drops its first record. */
  lemma WithoutFirst(s: seq<Pair>)
    requires Increasing(s) && |s| > 0
    ensures Without(s, s[0].0) == s[1..] && s == [s[0]] + s[1..]
  {
    assert s == [] + [s[0]] + s[1..];
    WithoutMiddle([], s[0], s[1..]);
  }

  /** Removing the last key of a strictly increasing sequence drops its last record. */
  lemma WithoutLast(s: seq<Pair>)
    requires Increasing(s) && |s| > 0
    ensures Without(s, s[|s| - 1].0) == s[..|s| - 1] && s == s[..|s| - 1] + [s[|s| - 1]]
  {
    assert s == s[..|s| - 1] + [s[|s| - 1]] + [];
    WithoutMiddle(s[..|s| - 1], s[|s| - 1], []);
  }

  /** Removing a key that lies in the middle segment only. */
  lemma WithoutInMiddle(a: seq<Pair>, b: seq<Pair>, c: seq<Pair>, k: int)
    requires k !in Keys(a) && k !in Keys(c)
    ensures Without(a + b + c, k) == a + Without(b, k) + c
  {
    WithoutConcat(a + b, c, k);
    WithoutConcat(a, b, k);
    WithoutAbsent(a, k);
    WithoutAbsent(c, k);
  }

  lemma {:induction false} WithoutKeys(s: seq<Pair>, k: int)
    ensures Keys(Without(s, k)) == Keys(s) - {k}
    decreases |s|
  {
    if |s| > 0 {
      WithoutKeys(s[1..], k);
      assert s == [s[0]] + s[1..];
      KeysConcat([s[0]], s[1..]);
      var head := if s[0].0 == k then [] else [s[0]];
      KeysConcat(head, Without(s[1..], k));
      assert Keys([s[0]]) == {s[0].0} by { assert s[0] in [s[0]]; }
      assert Keys([]) == {};
    } else {
      assert Keys([]) == {};
    }
  }

  lemma {:induction false} WithoutIncreasing(s: seq<Pair>, k: int)
    requires Increasing(s)
    ensures Increasing(Without(s, k))
    ensures |Without(s, k)| <= |s|
    decreases |s|
  {
    if |s| > 0 {
      IncreasingSub(s, 1, |s|);
      WithoutIncreasing(s[1..], k);
      var w := Without(s[1..], k);
      if s[0].0 != k {
        // every record of w comes from s[1..], whose keys exceed s[0].0
        forall j | 0 <= j < |w| ensures s[0].0 < w[j].0 {
          WithoutSubset(s[1..], k, w[j]);
          var i :| 0 <= i < |s[1..]| && s[1..][i] == w[j];
          assert s[1 + i] == w[j];
        }
      }
    }
  }

  lemma {:induction false} WithoutSubset(s: seq<Pair>, k: int, p: Pair)
    requires p in Without(s, k)
    ensures p in s && p.0 != k
    decreases |s|
  {
    if |s| > 0 {
      var head := if s[0].0 == k then [] else [s[0]];
      if p in head {
      } else {
        assert p in Without(s[1..], k);
        WithoutSubset(s[1..], k, p);
      }
    }
  }

  // ---------------------------------------------------------------- InsertSorted

  lemma {:induction false} InsertSortedAfter(a: seq<Pair>, b: seq<Pair>, p: Pair)
    requires AllBelow(a, p.0)
    ensures InsertSorted(a + b, p) == a + InsertSorted(b, p)
    decreases |a|
  {
    if |a| == 0 {
      assert a + b == b;
    } else {
      assert (a + b)[0] == a[0];
      assert (a + b)[1..] == a[1..] + b;
      InsertSortedAfter(a[1..], b, p);
    }
  }

  lemma {:induction false} InsertSortedBefore(b: seq<Pair>, c: seq<Pair>, p: Pair)
    requires AllAbove(c, p.0)
    ensures InsertSorted(b + c, p) == InsertSorted(b, p) + c
    decreases |b|
  {
    if |b| == 0 {
      assert b + c == c;
      if |c| > 0 {
        assert c[0].0 > p.0;
      }
    } else {
      assert (b + c)[0] == b[0];
      assert (b + c)[1..] == b[1..] + c;
      InsertSortedBefore(b[1..], c, p);
    }
  }

  /** Inserting into the middle segment of a sequence split around the new key. */
  lemma InsertSortedMiddle(a: seq<Pair>, b: seq<Pair>, c: seq<Pair>, p: Pair)
    requires AllBelow(a, p.0) && AllAbove(c, p.0)
    ensures InsertSorted(a + b + c, p) == a + InsertSorted(b, p) + c
  {
    assert a + b + c == a + (b + c);
    InsertSortedAfter(a, b + c, p);
    InsertSortedBefore(b, c, p);
  }

  lemma {:induction false} InsertSortedKeys(s: seq<Pair>, p: Pair)
    ensures Keys(InsertSorted(s, p)) == Keys(s) + {p.0}
    ensures |InsertSorted(s, p)| == |s| + 1
    decreases |s|
  {
    assert Keys([p]) == {p.0} by { assert p in [p]; }
    if |s| == 0 {
      assert Keys(s) == {};
    } else if s[0].0 < p.0 {
      InsertSortedKeys(s[1..], p);
      KeysConcat([s[0]], InsertSorted(s[1..], p));
      KeysConcat([s[0]], s[1..]);
      assert s == [s[0]] + s[1..];
    } else {
      KeysConcat([p], s);
    }
  }

  lemma {:induction false} InsertSortedIncreasing(s: seq<Pair>, p: Pair)
    requires Increasing(s) && p.0 !in Keys(s)
    ensures Increasing(InsertSorted(s, p))
    decreases |s|
  {
    if |s| > 0 {
      assert s[0] in s;
      if s[0].0 < p.0 {
        IncreasingSub(s, 1, |s|);
        assert Keys(s[1..]) <= Keys(s) by {
          forall x | x in Keys(s[1..]) ensures x in Keys(s) {
            var q :| q in s[1..] && q.0 == x;
            assert q in s;
          }
        }
        InsertSortedIncreasing(s[1..], p);
        var w := InsertSorted(s[1..], p);
        InsertSortedMembers(s[1..], p);
        forall j | 0 <= j < |w| ensures s[0].0 < w[j].0 {
          assert w[j] in w;
          if w[j] != p {
            var i :| 0 <= i < |s[1..]| && s[1..][i] == w[j];
            assert s[1 + i] == w[j];
          }
        }
      } else {
        assert s[0].0 != p.0;
      }
    }
  }

  lemma {:induction false} InsertSortedMembers(s: seq<Pair>, p: Pair)
    ensures forall q :: q in InsertSorted(s, p) ==> q == p || q in s
    decreases |s|
  {
    if |s| > 0 && s[0].0 < p.0 {
      InsertSortedMembers(s[1..], p);
      forall q | q in InsertSorted(s, p) ensures q == p || q in s {
        if q != s[0] {
          assert q in InsertSorted(s[1..], p);
          if q != p {
            assert q in s[1..];
          }
        }
      }
    }
  }

  // ---------------------------------------------------------------- ToMap

  lemma {:induction false} ToMapKeys(s: seq<Pair>)
    ensures ToMap(s).Keys == Keys(s)
    decreases |s|
  {
    if |s| == 0 {
      assert Keys(s) == {};
    } else {
      ToMapKeys(s[1..]);
      assert s == [s[0]] + s[1..];
      KeysConcat([s[0]], s[1..]);
      assert Keys([s[0]]) == {s[0].0} by { assert s[0] in [s[0]]; }
    }
  }

  lemma {:induction false} ToMapConcat(a: seq<Pair>, b: seq<Pair>)
    requires Keys(a) !! Keys(b)
    ensures ToMap(a + b) == ToMap(b) + ToMap(a)
    decreases |a|
  {
    if |a| == 0 {
      assert a + b == b;
    } else {
      assert (a + b)[1..] == a[1..] + b;
      assert Keys(a[1..]) <= Keys(a) by {
        forall x | x in Keys(a[1..]) ensures x in Keys(a) {
          var q :| q in a[1..] && q.0 == x;
          assert q in a;
        }
      }
      ToMapConcat(a[1..], b);
    }
  }

  lemma ToMapSingle(p: Pair)
    ensures ToMap([p]) == map[p.0 := p.1]
  {
    assert [p][1..] == [];
  }

  /** Inserting a fresh key adds exactly that entry to the map. */
  lemma {:induction false} ToMapInsertSorted(s: seq<Pair>, p: Pair)
    requires p.0 !in Keys(s)
    ensures ToMap(InsertSorted(s, p)) == ToMap(s)[p.0 := p.1]
    decreases |s|
  {
    if |s| > 0 {
      assert s[0] in s;
      if s[0].0 < p.0 {
        assert Keys(s[1..]) <= Keys(s) by {
          forall x | x in Keys(s[1..]) ensures x in Keys(s) {
            var q :| q in s[1..] && q.0 == x;
            assert q in s;
          }
        }
        ToMapInsertSorted(s[1..], p);
        assert InsertSorted(s, p)[1..] == InsertSorted(s[1..], p);
      } else {
        assert ([p] + s)[1..] == s;
      }
    }
  }

  /** Dropping a key drops exactly that entry from the map. */
  lemma {:induction false} ToMapWithout(s: seq<Pair>, k: int)
    ensures ToMap(Without(s, k)) == ToMap(s) - {k}
    decreases |s|
  {
    if |s| > 0 {
      ToMapWithout(s[1..], k);
      if s[0].0 == k {
        assert Without(s, k) == Without(s[1..], k);
      } else {
        assert Without(s, k) == [s[0]] + Without(s[1..], k);
        assert ([s[0]] + Without(s[1..], k))[1..] == Without(s[1..], k);
      }
    }
  }

  /** In a strictly increasing sequence the map returns the payload stored with the key. */
  lemma {:induction false} ToMapAt(s: seq<Pair>, i: int)
    requires Increasing(s) && 0 <= i < |s|
    ensures s[i].0 in ToMap(s) && ToMap(s)[s[i].0] == s[i].1
    decreases |s|
  {
    if i > 0 {
      IncreasingSub(s, 1, |s|);
      assert s[1..][i - 1] == s[i];
      ToMapAt(s[1..], i - 1);
      assert s[0].0 < s[i].0;
    }
  }

  /** Replacing the payload of a present key replaces that map entry only. */
  lemma {:induction false} ToMapReplace(s: seq<Pair>, i: int, v: string)
    requires Increasing(s) && 0 <= i < |s|
    ensures ToMap(s[i := (s[i].0, v)]) == ToMap(s)[s[i].0 := v]
    decreases |s|
  {
    if i == 0 {
      assert s[i := (s[i].0, v)][1..] == s[1..];
    } else {
      IncreasingSub(s, 1, |s|);
      assert s[i := (s[i].0, v)][1..] == s[1..][i - 1 := (s[i].0, v)];
      assert s[1..][i - 1] == s[i];
      ToMapReplace(s[1..], i - 1, v);
      assert s[0].0 < s[i].0;
    }
  }

  /** Changing the payload of one record of a strictly increasing sequence
      keeps it increasing and changes the map at that key only. */
  lemma ReplaceMiddle(pre: seq<Pair>, x: Pair, post: seq<Pair>, v: string)
    requires Increasing(pre + [x] + post)
    ensures Increasing(pre + [(x.0, v)] + post)
    ensures ToMap(pre + [(x.0, v)] + post) == ToMap(pre + [x] + post)[x.0 := v]
  {
    var s := pre + [x] + post;
    var s' := pre + [(x.0, v)] + post;
    assert s[|pre|] == x;
    assert s[|pre| := (x.0, v)] == s';
    assert forall k :: 0 <= k < |s| ==> s'[k].0 == s[k].0;
    ToMapReplace(s, |pre|, v);
  }
}

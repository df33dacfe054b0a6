/** Block moves on the fixed-capacity arrays of a B-tree node (`keys`, `data`,
    `children` in Lab_3/Lab_3/btree.h:27-29), written step by step as the loops
    of btree.cpp perform them, each with its effect stated slot by slot. */
module Arrays {

  /** `for (i = lo; i < hi; ++i) a[i - 1] = a[i];` — moves a[lo..hi) one slot down. */
  function ShiftDown<A>(a: seq<A>, lo: int, hi: int): (r: seq<A>)
    requires 1 <= lo && hi <= |a|
    ensures |r| == |a|
    ensures forall j {:trigger r[j]} :: 0 <= j < |a| ==> r[j] == (if lo - 1 <= j < hi - 1 then a[j + 1] else a[j])
    decreases |a| + hi - lo
  {
    if lo >= hi then a else ShiftDown(a[lo - 1 := a[lo]], lo + 1, hi)
  }

  /** `for (i = top; i >= bottom; --i) a[i + 1] = a[i];` — moves a[bottom..top] one slot up. */
  function ShiftUp<A>(a: seq<A>, top: int, bottom: int): (r: seq<A>)
    requires 0 <= bottom && top + 1 < |a|
    ensures |r| == |a|
    ensures forall j {:trigger r[j]} :: 0 <= j < |a| ==> r[j] == (if bottom + 1 <= j <= top + 1 then a[j - 1] else a[j])
    decreases |a| + top - bottom
  {
    if top < bottom then a else ShiftUp(a[top + 1 := a[top]], top - 1, bottom)
  }

  /** `for (j = start; j < count; ++j) dst[dOff + j] = src[sOff + j];` */
  function Copy<A>(dst: seq<A>, dOff: int, src: seq<A>, sOff: int, start: int, count: int): (r: seq<A>)
    requires 0 <= dOff && 0 <= sOff && 0 <= start && dOff + count <= |dst| && sOff + count <= |src|
    ensures |r| == |dst|
    ensures forall j {:trigger r[j]} :: dOff + start <= j < dOff + count ==> r[j] == src[j - dOff + sOff]
    ensures forall j {:trigger r[j]} :: 0 <= j < |dst| && !(dOff + start <= j < dOff + count) ==> r[j] == dst[j]
    decreases |dst| + count - start
  {
    if start >= count then dst
    else Copy(dst[dOff + start := src[sOff + start]], dOff, src, sOff, start + 1, count)
  }

  /** Opens slot `i` of the first `n` entries by moving a[i..n) one slot up,
      then stores `v` there (`for (j = n - 1; j >= i; --j) a[j + 1] = a[j]; a[i] = v;`). */
  function OpenSlot<A>(a: seq<A>, n: int, i: int, v: A): (r: seq<A>)
    requires 0 <= i <= n < |a|
    ensures |r| == |a|
    ensures forall j {:trigger r[j]} :: 0 <= j < |a| ==>
      r[j] == (if j < i then a[j] else if j == i then v else if j <= n then a[j - 1] else a[j])
  {
    ShiftUp(a, n - 1, i)[i := v]
  }
}

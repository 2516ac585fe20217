/** Grids: the two-dimensional arrays both scripts work on, as sequences of rows.
    Row y, column x of a grid g is g[y][x] (NumPy's (row, column) axis order). */
module Grids {

  datatype Option<T> = None | Some(value: T)

  /** An unsigned 8-bit channel value (NumPy uint8). */
  newtype byte = x: int | 0 <= x < 256

  function Max(a: int, b: int): int { if a >= b then a else b }
  function Min(a: int, b: int): int { if a <= b then a else b }

  /** A grid cell as (row, column). */
  type Cell = (int, int)

  /** A boolean mask; `True` cells are "set". */
  type Mask = seq<seq<bool>>

  /** The number of columns (0 for a grid without rows). */
  function Width<T>(g: seq<seq<T>>): nat {
    if |g| == 0 then 0 else |g[0]|
  }

  /** Every row has the same length, as for a NumPy array. */
  predicate Rectangular<T>(g: seq<seq<T>>) {
    forall y :: 0 <= y < |g| ==> |g[y]| == Width(g)
  }

  /** The cell (y, x) lies inside the grid and is set: cells outside read as unset. */
  predicate At(m: Mask, y: int, x: int) {
    0 <= y < |m| && 0 <= x < |m[y]| && m[y][x]
  }

  /** Some cell of the mask is set. */
  predicate AnySet(m: Mask) {
    exists y, x | 0 <= y < |m| && 0 <= x < |m[y]| :: At(m, y, x)
  }

  /** The set cells of a mask. */
  ghost function CellsOf(m: Mask): set<Cell> {
    set y, x | 0 <= y < |m| && 0 <= x < |m[y]| && m[y][x] :: (y, x)
  }

  /** Row-major order on cells: the order in which a row-by-row scan meets them. */
  predicate Before(a: Cell, b: Cell) {
    a.0 < b.0 || (a.0 == b.0 && a.1 < b.1)
  }

  /** `np.where(row)[0]`: the indices of the true entries, in increasing order. */
  function Where(s: seq<bool>): (r: seq<nat>)
    ensures forall i :: 0 <= i < |r| ==> r[i] < |s| && s[r[i]]
    ensures forall x :: 0 <= x < |s| && s[x] ==> x in r
  {
    if |s| == 0 then []
    else
      var rest := Where(s[..|s| - 1]);
      if s[|s| - 1] then rest + [|s| - 1] else rest
  }

  /** The indices `Where` lists are strictly increasing. */
  lemma {:induction false} WhereIncreasing(s: seq<bool>)
    ensures forall i, j :: 0 <= i < j < |Where(s)| ==> Where(s)[i] < Where(s)[j]
  {
    if |s| > 0 {
      WhereIncreasing(s[..|s| - 1]);
    }
  }

  /** `xs[0]` and `xs[-1]` of `np.where`: the first and the last true index. */
  lemma WhereEnds(s: seq<bool>)
    requires true in s
    ensures |Where(s)| > 0
    ensures Where(s)[0] == First(s) && Where(s)[|Where(s)| - 1] == Last(s)
  {
    var w := Where(s);
    WhereIncreasing(s);
    assert First(s) in w && Last(s) in w;
    var i :| 0 <= i < |w| && w[i] == First(s);
    var j :| 0 <= j < |w| && w[j] == Last(s);
    assert w[0] <= w[i] && w[j] <= w[|w| - 1];
  }

  /** The number of true entries (`xs.size` after `np.where`). */
  function Count(s: seq<bool>): nat {
    if |s| == 0 then 0 else Count(s[..|s| - 1]) + (if s[|s| - 1] then 1 else 0)
  }

  /** The first true index (`xs[0]`, `xs.min()`). */
  function First(s: seq<bool>): (i: nat)
    requires true in s
    ensures i < |s| && s[i]
    ensures forall j :: 0 <= j < i ==> !s[j]
  {
    if s[0] then 0 else 1 + First(s[1..])
  }

  /** The last true index (`xs[-1]`, `xs.max()`). */
  function Last(s: seq<bool>): (i: nat)
    requires true in s
    ensures i < |s| && s[i]
    ensures forall j :: i < j < |s| ==> !s[j]
  {
    if s[|s| - 1] then |s| - 1 else Last(s[..|s| - 1])
  }

  /** `Count` equals the length of `Where`. */
  lemma {:induction false} CountWhere(s: seq<bool>)
    ensures Count(s) == |Where(s)|
  {
    if |s| > 0 {
      CountWhere(s[..|s| - 1]);
    }
  }

  /** Every true entry lies between the first and the last one, so there are at most
      Last - First + 1 of them. */
  lemma {:induction false} CountSpan(s: seq<bool>)
    requires true in s
    ensures Count(s) <= Last(s) - First(s) + 1
  {
    var w := Where(s);
    CountWhere(s);
    WhereIncreasing(s);
    var f, l := First(s), Last(s);
    // every entry of Where(s) lies in [f, l]; they are strictly increasing
    assert forall i :: 0 <= i < |w| ==> f <= w[i] <= l;
    StrictlyIncreasingSpan(w, f, l);
  }

  lemma {:induction false} StrictlyIncreasingSpan(w: seq<nat>, lo: int, hi: int)
    requires forall i, j :: 0 <= i < j < |w| ==> w[i] < w[j]
    requires forall i :: 0 <= i < |w| ==> lo <= w[i] <= hi
    requires lo <= hi + 1
    ensures |w| <= hi - lo + 1
  {
    if |w| > 0 {
      assert lo <= w[0] <= hi;
      StrictlyIncreasingSpan(w[1..], w[0] + 1, hi);
    }
  }

  /** No entry is set before `i`, and `i` is set: then `i` is First. */
  lemma FirstUnique(s: seq<bool>, i: nat)
    requires i < |s| && s[i] && forall j :: 0 <= j < i ==> !s[j]
    ensures First(s) == i
  {
  }

  lemma LastUnique(s: seq<bool>, i: nat)
    requires i < |s| && s[i] && forall j :: i < j < |s| ==> !s[j]
    ensures Last(s) == i
  {
  }

  /** Row y of the mask has a set cell. */
  function RowsHit(m: Mask): (r: seq<bool>)
    ensures |r| == |m|
    ensures forall y :: 0 <= y < |m| ==> (r[y] <==> exists x :: At(m, y, x))
  {
    seq(|m|, y requires 0 <= y < |m| => exists x | 0 <= x < |m[y]| :: At(m, y, x))
  }

  /** Column x of the mask has a set cell. */
  function ColsHit(m: Mask): (r: seq<bool>)
    requires Rectangular(m)
    ensures |r| == Width(m)
    ensures forall x :: 0 <= x < Width(m) ==> (r[x] <==> exists y :: At(m, y, x))
  {
    seq(Width(m), x requires 0 <= x < Width(m) => exists y | 0 <= y < |m| :: At(m, y, x))
  }

  /** The inclusive bounds of the set cells (`ys.min()`, `ys.max()`, `xs.min()`, `xs.max()`). */
  datatype Bounds = Bounds(minY: int, maxY: int, minX: int, maxX: int)

  function BoundsOf(m: Mask): (b: Bounds)
    requires Rectangular(m) && AnySet(m)
    ensures 0 <= b.minY <= b.maxY < |m| && 0 <= b.minX <= b.maxX < Width(m)
    ensures forall y, x :: At(m, y, x) ==> b.minY <= y <= b.maxY && b.minX <= x <= b.maxX
    ensures (exists x :: At(m, b.minY, x)) && (exists x :: At(m, b.maxY, x))
    ensures (exists y :: At(m, y, b.minX)) && (exists y :: At(m, y, b.maxX))
  {
    HitsOfAnySet(m);
    assert forall y, x | At(m, y, x) :: RowsHit(m)[y] && ColsHit(m)[x];
    Bounds(First(RowsHit(m)), Last(RowsHit(m)), First(ColsHit(m)), Last(ColsHit(m)))
  }

  lemma HitsOfAnySet(m: Mask)
    requires Rectangular(m) && AnySet(m)
    ensures true in RowsHit(m) && true in ColsHit(m)
  {
    var y, x :| 0 <= y < |m| && 0 <= x < |m[y]| && At(m, y, x);
    assert RowsHit(m)[y];
    assert ColsHit(m)[x];
  }
}

/** 8-connected components of a mask: the breadth-first `flood_fill` over a shared
    `visited` array and the row-major scan of `largest_component_mask`. */
module Components {
  import opened Grids

  /** 8-adjacency; a cell counts as adjacent to itself, as in the 3x3 neighbour scan. */
  predicate Adjacent(a: Cell, b: Cell) {
    -1 <= a.0 - b.0 <= 1 && -1 <= a.1 - b.1 <= 1
  }

  predicate InGrid(c: Cell, h: int, w: int) {
    0 <= c.0 < h && 0 <= c.1 < w
  }

  predicate Distinct(s: seq<Cell>) {
    forall i, j :: 0 <= i < j < |s| ==> s[i] != s[j]
  }

  ghost function Elems<T>(s: seq<T>): set<T> {
    set x | x in s
  }

  ghost predicate MaskCell(m: Mask, c: Cell) {
    At(m, c.0, c.1)
  }

  /** No set cell of the mask is 8-adjacent to a cell of s without being in s. */
  ghost predicate Closed(m: Mask, s: set<Cell>) {
    forall a, b {:trigger Adjacent(a, b), a in s} :: a in s && Adjacent(a, b) && MaskCell(m, b) ==> b in s
  }

  /** An 8-connected component of the set cells: nonempty, closed under adjacency, and
      without a smaller nonempty closed part. */
  ghost predicate IsComponent(m: Mask, s: set<Cell>) {
    && s != {}
    && (forall c :: c in s ==> MaskCell(m, c))
    && Closed(m, s)
    && forall t {:trigger Closed(m, t)} :: t <= s && t != {} && Closed(m, t) ==> t == s
  }

  /** Each entry after the first is 8-adjacent to an earlier one. */
  ghost predicate Chain(q: seq<Cell>) {
    forall k :: 1 <= k < |q| ==> Linked(q, k)
  }

  /** Entry k is 8-adjacent to an earlier entry. */
  ghost predicate Linked(q: seq<Cell>, k: int)
    requires 0 <= k < |q|
  {
    exists j :: 0 <= j < k && Adjacent(q[j], q[k])
  }

  lemma {:induction false} DistinctCard(s: seq<Cell>)
    requires Distinct(s)
    ensures |Elems(s)| == |s|
  {
    if |s| > 0 {
      var t := s[..|s| - 1];
      DistinctCard(t);
      assert Elems(s) == Elems(t) + {s[|s| - 1]};
      assert s[|s| - 1] !in Elems(t);
    }
  }

  /** Appending a cell adjacent to entry j keeps a chain a chain. */
  lemma ChainAppend(q: seq<Cell>, c: Cell, j: int)
    requires Chain(q) && 0 <= j < |q| && Adjacent(q[j], c)
    ensures Chain(q + [c])
  {
    var q' := q + [c];
    forall k | 1 <= k < |q'| ensures Linked(q', k) {
      if k < |q| {
        assert Linked(q, k);
        var i :| 0 <= i < k && Adjacent(q[i], q[k]);
        assert q'[i] == q[i] && q'[k] == q[k];
      } else {
        assert q'[j] == q[j];
      }
    }
  }

  lemma {:induction false} ChainBack(m: Mask, q: seq<Cell>, t: set<Cell>, k: nat)
    requires k < |q| && Chain(q) && Closed(m, t)
    requires forall i :: 0 <= i < |q| ==> MaskCell(m, q[i])
    requires q[k] in t
    ensures q[0] in t
    decreases k
  {
    if k > 0 {
      assert Linked(q, k);
      var j :| 0 <= j < k && Adjacent(q[j], q[k]);
      assert Adjacent(q[k], q[j]) && MaskCell(m, q[j]);
      ChainBack(m, q, t, j);
    }
  }

  lemma {:induction false} ChainForward(m: Mask, q: seq<Cell>, t: set<Cell>, k: nat)
    requires k < |q| && Chain(q) && Closed(m, t)
    requires forall i :: 0 <= i < |q| ==> MaskCell(m, q[i])
    requires q[0] in t
    ensures forall i :: 0 <= i <= k ==> q[i] in t
    decreases k
  {
    if k > 0 {
      ChainForward(m, q, t, k - 1);
      assert Linked(q, k);
      var j :| 0 <= j < k && Adjacent(q[j], q[k]);
      assert MaskCell(m, q[k]);
    }
  }

  /** A chain of set cells whose cells form a closed set is a component. */
  lemma ChainClosedIsComponent(m: Mask, q: seq<Cell>)
    requires |q| >= 1 && Chain(q) && Closed(m, Elems(q))
    requires forall i :: 0 <= i < |q| ==> MaskCell(m, q[i])
    ensures IsComponent(m, Elems(q))
  {
    assert q[0] in Elems(q);
    forall t | t <= Elems(q) && t != {} && Closed(m, t) ensures t == Elems(q) {
      var c :| c in t;
      var k :| 0 <= k < |q| && q[k] == c;
      ChainBack(m, q, t, k);
      ChainForward(m, q, t, |q| - 1);
    }
  }

  /** Two components that share a cell are equal. */
  lemma ComponentsMeet(m: Mask, s: set<Cell>, t: set<Cell>, c: Cell)
    requires IsComponent(m, s) && IsComponent(m, t) && c in s && c in t
    ensures s == t
  {
    var both := s * t;
    assert Closed(m, both);
    assert both <= s && both <= t && c in both;
  }

  ghost function Snapshot(v: array2<bool>): (s: seq<seq<bool>>)
    reads v
    ensures |s| == v.Length0 && forall y :: 0 <= y < |s| ==> |s[y]| == v.Length1
    ensures forall y, x :: 0 <= y < v.Length0 && 0 <= x < v.Length1 ==> s[y][x] == v[y, x]
  {
    seq(v.Length0, y requires 0 <= y < v.Length0 reads v =>
      seq(v.Length1, x requires 0 <= x < v.Length1 reads v => v[y, x]))
  }

  /** What the breadth-first queue of `flood_fill` keeps true: `order` lists the start and
      then every cell appended to the queue, in order; v0 is `visited` on entry. */
  ghost predicate FillOrder(m: Mask, visited: array2<bool>, v0: seq<seq<bool>>, order: seq<Cell>, start: Cell)
    reads visited
  {
    && |v0| == visited.Length0 && (forall y :: 0 <= y < |v0| ==> |v0[y]| == visited.Length1)
    && |order| >= 1 && order[0] == start
    && (forall k :: 0 <= k < |order| ==> InGrid(order[k], visited.Length0, visited.Length1))
    && Distinct(order)
    && (forall k :: 1 <= k < |order| ==> MaskCell(m, order[k]) && !v0[order[k].0][order[k].1])
    && Chain(order)
    && (forall c :: InGrid(c, visited.Length0, visited.Length1) ==>
          (visited[c.0, c.1] <==> v0[c.0][c.1] || c in order))
  }

  /** Every set neighbour of the first n cells of `order` is visited. */
  ghost predicate ClosedUpTo(m: Mask, visited: array2<bool>, order: seq<Cell>, n: int)
    reads visited
    requires n <= |order|
  {
    forall k, c {:trigger Adjacent(order[k], c)} ::
      0 <= k < n && Adjacent(order[k], c) && MaskCell(m, c) && InGrid(c, visited.Length0, visited.Length1) ==>
        visited[c.0, c.1]
  }

  /** Every unvisited cell is still in `unseen`. */
  ghost predicate Unseen(visited: array2<bool>, unseen: set<Cell>)
    reads visited
  {
    forall c :: InGrid(c, visited.Length0, visited.Length1) && !visited[c.0, c.1] ==> c in unseen
  }

  /** One neighbour (ny, nx) of the cell (y, x) just taken from the queue: mark it and
      append it to the queue when it is set and not yet visited. */
  method Visit(mask: Mask, visited: array2<bool>, ghost v0: seq<seq<bool>>, order: seq<Cell>, ghost unseen: set<Cell>,
               ghost start: Cell, ghost head: int, y: int, x: int, ny: int, nx: int)
    returns (order': seq<Cell>, ghost unseen': set<Cell>)
    requires Rectangular(mask) && |mask| == visited.Length0 && Width(mask) == visited.Length1
    requires FillOrder(mask, visited, v0, order, start) && Unseen(visited, unseen)
    requires 1 <= head <= |order| && order[head - 1] == (y, x)
    requires InGrid((ny, nx), visited.Length0, visited.Length1) && Adjacent((y, x), (ny, nx))
    modifies visited
    ensures FillOrder(mask, visited, v0, order', start) && Unseen(visited, unseen')
    ensures |unseen'| + |order'| == |unseen| + |order|
    ensures order' == order || order' == order + [(ny, nx)]
    ensures forall c :: InGrid(c, visited.Length0, visited.Length1) && old(visited[c.0, c.1]) ==> visited[c.0, c.1]
    ensures MaskCell(mask, (ny, nx)) ==> visited[ny, nx]
  {
    order', unseen' := order, unseen;
    if !visited[ny, nx] && mask[ny][nx] {
      assert (ny, nx) in unseen;
      assert (ny, nx) !in order;
      visited[ny, nx] := true;
      order' := order + [(ny, nx)];
      unseen' := unseen - {(ny, nx)};
      ChainAppend(order, (ny, nx), head - 1);
    }
  }

  /** The inner loop of `flood_fill`: the neighbours (ny, x-1), (ny, x), (ny, x+1) of the
      cell (y, x) just taken from the queue, for a row ny inside the grid. */
  method ScanRow(mask: Mask, visited: array2<bool>, ghost v0: seq<seq<bool>>, order: seq<Cell>, ghost unseen: set<Cell>,
                 ghost start: Cell, ghost head: int, y: int, x: int, ny: int)
    returns (order': seq<Cell>, ghost unseen': set<Cell>)
    requires Rectangular(mask) && |mask| == visited.Length0 && Width(mask) == visited.Length1
    requires FillOrder(mask, visited, v0, order, start) && Unseen(visited, unseen)
    requires 1 <= head <= |order| && order[head - 1] == (y, x)
    requires 0 <= ny < visited.Length0 && y - 1 <= ny <= y + 1
    modifies visited
    ensures FillOrder(mask, visited, v0, order', start) && Unseen(visited, unseen')
    ensures |unseen'| + |order'| == |unseen| + |order|
    ensures |order'| >= |order| && forall k :: 0 <= k < |order| ==> order'[k] == order[k]
    ensures forall c :: InGrid(c, visited.Length0, visited.Length1) && old(visited[c.0, c.1]) ==> visited[c.0, c.1]
    ensures forall c: Cell :: c.0 == ny && x - 1 <= c.1 <= x + 1 && MaskCell(mask, c) ==> visited[c.0, c.1]
  {
    order', unseen' := order, unseen;
    for nx := x - 1 to x + 2
      invariant FillOrder(mask, visited, v0, order', start) && Unseen(visited, unseen')
      invariant |unseen'| + |order'| == |unseen| + |order|
      invariant |order'| >= |order| && forall k :: 0 <= k < |order| ==> order'[k] == order[k]
      invariant forall c :: InGrid(c, visited.Length0, visited.Length1) && old(visited[c.0, c.1]) ==> visited[c.0, c.1]
      invariant forall c: Cell :: c.0 == ny && x - 1 <= c.1 < nx && MaskCell(mask, c) ==> visited[c.0, c.1]
    {
      if 0 <= nx < visited.Length1 {
        order', unseen' := Visit(mask, visited, v0, order', unseen', start, head, y, x, ny, nx);
      }
    }
  }

  /** The two nested loops of `flood_fill` over the 3x3 neighbourhood of (y, x). */
  method ScanNeighbours(mask: Mask, visited: array2<bool>, ghost v0: seq<seq<bool>>, order: seq<Cell>, ghost unseen: set<Cell>,
                        ghost start: Cell, ghost head: int, y: int, x: int)
    returns (order': seq<Cell>, ghost unseen': set<Cell>)
    requires Rectangular(mask) && |mask| == visited.Length0 && Width(mask) == visited.Length1
    requires FillOrder(mask, visited, v0, order, start) && Unseen(visited, unseen)
    requires 1 <= head <= |order| && order[head - 1] == (y, x)
    modifies visited
    ensures FillOrder(mask, visited, v0, order', start) && Unseen(visited, unseen')
    ensures |unseen'| + |order'| == |unseen| + |order|
    ensures |order'| >= |order| && forall k :: 0 <= k < |order| ==> order'[k] == order[k]
    ensures forall c :: InGrid(c, visited.Length0, visited.Length1) && old(visited[c.0, c.1]) ==> visited[c.0, c.1]
    ensures forall c {:trigger Adjacent((y, x), c)} :: Adjacent((y, x), c) && MaskCell(mask, c) ==> visited[c.0, c.1]
  {
    order', unseen' := order, unseen;
    for ny := y - 1 to y + 2
      invariant FillOrder(mask, visited, v0, order', start) && Unseen(visited, unseen')
      invariant |unseen'| + |order'| == |unseen| + |order|
      invariant |order'| >= |order| && forall k :: 0 <= k < |order| ==> order'[k] == order[k]
      invariant forall c :: InGrid(c, visited.Length0, visited.Length1) && old(visited[c.0, c.1]) ==> visited[c.0, c.1]
      invariant forall c: Cell :: y - 1 <= c.0 < ny && x - 1 <= c.1 <= x + 1 && MaskCell(mask, c) ==> visited[c.0, c.1]
    {
      if 0 <= ny < visited.Length0 {
        order', unseen' := ScanRow(mask, visited, v0, order', unseen', start, head, y, x, ny);
      }
    }
  }

  /** `flood_fill`: breadth-first search from (startY, startX) over set 8-neighbours,
      marking `visited` and listing the cells in the order they leave the queue. */
  method FloodFill(mask: Mask, visited: array2<bool>, startY: int, startX: int) returns (coords: seq<Cell>)
    requires Rectangular(mask) && |mask| == visited.Length0 && Width(mask) == visited.Length1
    requires 0 <= startY < visited.Length0 && 0 <= startX < visited.Length1
    modifies visited
    ensures |coords| >= 1 && coords[0] == (startY, startX)
    ensures Distinct(coords)
    ensures forall k :: 0 <= k < |coords| ==> InGrid(coords[k], visited.Length0, visited.Length1)
    ensures forall k :: 1 <= k < |coords| ==>
      MaskCell(mask, coords[k]) && !old(visited[coords[k].0, coords[k].1])
    ensures Chain(coords)
    ensures forall c :: InGrid(c, visited.Length0, visited.Length1) ==>
      (visited[c.0, c.1] <==> old(visited[c.0, c.1]) || c in coords)
    ensures forall k, c {:trigger Adjacent(coords[k], c)} ::
      0 <= k < |coords| && Adjacent(coords[k], c) && MaskCell(mask, c) ==> visited[c.0, c.1]
  {
    var h, w := visited.Length0, visited.Length1;
    ghost var v0 := Snapshot(visited);
    assert forall y, x :: 0 <= y < h && 0 <= x < w ==> v0[y][x] == old(visited[y, x]);
    ghost var unseen := set y, x | 0 <= y < h && 0 <= x < w && !visited[y, x] :: (y, x);
    forall c | InGrid(c, h, w) && !visited[c.0, c.1] ensures c in unseen {
      assert c == (c.0, c.1);
    }

    visited[startY, startX] := true;
    var order := [(startY, startX)];
    var head := 0;
    while head < |order|
      invariant 0 <= head <= |order|
      invariant FillOrder(mask, visited, v0, order, (startY, startX))
      invariant Unseen(visited, unseen)
      invariant ClosedUpTo(mask, visited, order, head)
      decreases |unseen|, |order| - head
    {
      order, unseen, head := FillStep(mask, visited, v0, order, unseen, (startY, startX), head);
    }
    coords := order;
  }

  /** One turn of the queue loop of `flood_fill`: take the next cell and visit its
      neighbours; the queue only grows, by as many cells as leave `unseen`. */
  method FillStep(mask: Mask, visited: array2<bool>, ghost v0: seq<seq<bool>>, order: seq<Cell>, ghost unseen: set<Cell>,
                  ghost start: Cell, head: int)
    returns (order': seq<Cell>, ghost unseen': set<Cell>, head': int)
    requires Rectangular(mask) && |mask| == visited.Length0 && Width(mask) == visited.Length1
    requires 0 <= head < |order|
    requires FillOrder(mask, visited, v0, order, start) && Unseen(visited, unseen) && ClosedUpTo(mask, visited, order, head)
    modifies visited
    ensures head' == head + 1 && head' <= |order'| && |order'| >= |order|
    ensures FillOrder(mask, visited, v0, order', start) && Unseen(visited, unseen')
    ensures ClosedUpTo(mask, visited, order', head')
    ensures |unseen'| + |order'| == |unseen| + |order|
  {
    var (y, x) := order[head];
    head' := head + 1;
    order', unseen' := ScanNeighbours(mask, visited, v0, order, unseen, start, head', y, x);
  }

  /** Every visited cell is in `covered`, and the other way round. */
  ghost predicate Tracks(visited: array2<bool>, covered: set<Cell>)
    reads visited
  {
    forall c :: InGrid(c, visited.Length0, visited.Length1) ==> (visited[c.0, c.1] <==> c in covered)
  }

  /** The components found so far, with the cell each fill started from; they make up
      `covered`, each start is the row-major least cell of its component, and the starts
      are met in row-major order. */
  ghost predicate Inventory(m: Mask, comps: seq<set<Cell>>, starts: seq<Cell>, covered: set<Cell>) {
    Found(m, comps, starts) && covered == Union(comps)
  }

  /** The facts about each component and its start, stated for the last one and, through
      the recursion, for every earlier one (`FoundAt`). The recursion keeps the verifier
      from unfolding them for every index where no proof asks for one. */
  ghost predicate Found(m: Mask, comps: seq<set<Cell>>, starts: seq<Cell>) {
    && |comps| == |starts|
    && (|comps| > 0 ==>
          var n := |comps| - 1;
          && Found(m, comps[..n], starts[..n])
          && IsComponent(m, comps[n])
          && starts[n] in comps[n]
          && (forall c :: c in comps[n] ==> !Before(c, starts[n]))
          && (forall j :: 0 <= j < n ==> Before(starts[j], starts[n])))
  }

  lemma {:induction false} FoundAt(m: Mask, comps: seq<set<Cell>>, starts: seq<Cell>, i: int)
    requires Found(m, comps, starts) && 0 <= i < |comps|
    ensures IsComponent(m, comps[i]) && starts[i] in comps[i]
    ensures forall c :: c in comps[i] ==> !Before(c, starts[i])
    ensures forall j :: 0 <= j < i ==> Before(starts[j], starts[i])
  {
    var n := |comps| - 1;
    if i < n {
      FoundAt(m, comps[..n], starts[..n], i);
    }
  }

  lemma FoundAppend(m: Mask, comps: seq<set<Cell>>, starts: seq<Cell>, s: set<Cell>, start: Cell)
    requires Found(m, comps, starts) && IsComponent(m, s) && start in s
    requires forall c :: c in s ==> !Before(c, start)
    requires forall j :: 0 <= j < |starts| ==> Before(starts[j], start)
    ensures Found(m, comps + [s], starts + [start])
  {
    assert (comps + [s])[..|comps|] == comps;
    assert (starts + [start])[..|starts|] == starts;
  }

  /** The starts are met in row-major order: a start before another has a smaller index. */
  lemma StartsOrdered(m: Mask, comps: seq<set<Cell>>, starts: seq<Cell>, i: int, j: int)
    requires Found(m, comps, starts) && 0 <= i < |starts| && 0 <= j < |starts|
    requires Before(starts[i], starts[j])
    ensures i < j
  {
    if j < i {
      FoundAt(m, comps, starts, i);
    }
  }

  /** The cells of all the components found so far. */
  ghost function Union(comps: seq<set<Cell>>): set<Cell> {
    if |comps| == 0 then {} else Union(comps[..|comps| - 1]) + comps[|comps| - 1]
  }

  lemma {:induction false} InUnion(comps: seq<set<Cell>>, i: nat)
    requires i < |comps|
    ensures comps[i] <= Union(comps)
  {
    if i < |comps| - 1 {
      InUnion(comps[..|comps| - 1], i);
    }
  }

  lemma {:induction false} Owner(comps: seq<set<Cell>>, c: Cell) returns (i: nat)
    requires c in Union(comps)
    ensures i < |comps| && c in comps[i]
  {
    if c in comps[|comps| - 1] {
      i := |comps| - 1;
    } else {
      i := Owner(comps[..|comps| - 1], c);
    }
  }

  lemma UnionAppend(comps: seq<set<Cell>>, s: set<Cell>)
    ensures Union(comps + [s]) == Union(comps) + s
  {
    assert (comps + [s])[..|comps|] == comps;
  }

  /** `best` lists the first of the largest components found so far (ties keep the
      earlier one, because the source compares with a strict `>`). */
  ghost predicate BestOf(comps: seq<set<Cell>>, best: seq<Cell>, bi: int) {
    && (|comps| == 0 ==> best == [])
    && (|comps| > 0 ==>
          && 0 <= bi < |comps| && Elems(best) == comps[bi] && |best| == |comps[bi]|
          && (forall i :: 0 <= i < |comps| ==> |comps[i]| <= |best|)
          && (forall i :: 0 <= i < bi ==> |comps[i]| < |best|))
  }

  /** A fill from an unvisited set cell returns a new component, disjoint from those found
      before, whose row-major least cell is the start. */
  lemma NewComponent(m: Mask, comps: seq<set<Cell>>, starts: seq<Cell>, covered: set<Cell>,
                     coords: seq<Cell>, start: Cell)
    requires Inventory(m, comps, starts, covered)
    requires |coords| >= 1 && coords[0] == start && Distinct(coords) && Chain(coords)
    requires MaskCell(m, start) && start !in covered
    requires forall k :: 1 <= k < |coords| ==> MaskCell(m, coords[k]) && coords[k] !in covered
    requires forall k, c {:trigger Adjacent(coords[k], c)} ::
      0 <= k < |coords| && Adjacent(coords[k], c) && MaskCell(m, c) ==> c in covered || c in coords
    requires forall c :: MaskCell(m, c) && Before(c, start) ==> c in covered
    requires forall i :: 0 <= i < |starts| ==> Before(starts[i], start)
    ensures Inventory(m, comps + [Elems(coords)], starts + [start], covered + Elems(coords))
    ensures |Elems(coords)| == |coords|
  {
    DistinctCard(coords);
    var s := Elems(coords);
    forall a, b | a in s && Adjacent(a, b) && MaskCell(m, b) ensures b in s {
      var k :| 0 <= k < |coords| && coords[k] == a;
      if b in covered {
        assert Adjacent(b, a) && MaskCell(m, a);
        var i := Owner(comps, b);
        FoundAt(m, comps, starts, i);
        InUnion(comps, i);
      }
    }
    ChainClosedIsComponent(m, coords);
    forall c | c in s ensures !Before(c, start) {
      var k :| 0 <= k < |coords| && coords[k] == c;
    }
    FoundAppend(m, comps, starts, s, start);
    UnionAppend(comps, s);
  }

  /** A fill from an already-visited cell returns just that cell: its whole component was
      filled before. */
  lemma RefillSingle(m: Mask, comps: seq<set<Cell>>, starts: seq<Cell>, covered: set<Cell>,
                     coords: seq<Cell>, start: Cell)
    requires Inventory(m, comps, starts, covered)
    requires |coords| >= 1 && coords[0] == start && Chain(coords) && start in covered
    requires forall k :: 1 <= k < |coords| ==> MaskCell(m, coords[k]) && coords[k] !in covered
    ensures |coords| == 1
  {
    var i := Owner(comps, start);
    FoundAt(m, comps, starts, i);
    if |coords| > 1 {
      assert Linked(coords, 1);
      assert Adjacent(coords[0], coords[1]);
      InUnion(comps, i);
    }
  }

  /** The mask whose set cells are exactly the listed cells (`component[ys, xs] = True`). */
  function Indicator(h: nat, w: nat, cells: seq<Cell>): (g: Mask)
    ensures |g| == h && forall y :: 0 <= y < h ==> |g[y]| == w
    ensures forall y, x :: 0 <= y < h && 0 <= x < w ==> (g[y][x] <==> (y, x) in cells)
  {
    seq(h, y requires 0 <= y < h => seq(w, x requires 0 <= x < w => (y, x) in cells))
  }

  lemma CellsOfIndicator(h: nat, w: nat, cells: seq<Cell>)
    requires forall k :: 0 <= k < |cells| ==> InGrid(cells[k], h, w)
    ensures CellsOf(Indicator(h, w, cells)) == Elems(cells)
  {
    var g := Indicator(h, w, cells);
    forall c | c in Elems(cells) ensures c in CellsOf(g) {
      var k :| 0 <= k < |cells| && cells[k] == c;
      assert InGrid(c, h, w);
      assert g[c.0][c.1];
    }
  }

  /** The end of the scan: every set cell has been covered, so every component is one of
      those found, the best is a largest one, and a component met earlier in row-major
      order is strictly smaller. */
  lemma Conclude(m: Mask, comps: seq<set<Cell>>, starts: seq<Cell>, covered: set<Cell>, best: seq<Cell>, bi: int)
    requires Inventory(m, comps, starts, covered) && BestOf(comps, best, bi) && |comps| > 0
    requires forall c :: MaskCell(m, c) ==> c in covered
    ensures IsComponent(m, Elems(best))
    ensures forall s {:trigger IsComponent(m, s)} :: IsComponent(m, s) ==> |s| <= |Elems(best)|
    ensures forall s, c {:trigger IsComponent(m, s), c in s} :: IsComponent(m, s) && c in s && (forall d :: d in Elems(best) ==> Before(c, d)) ==>
      |s| < |Elems(best)|
  {
    forall s | IsComponent(m, s) ensures exists i :: 0 <= i < |comps| && s == comps[i] {
      var c :| c in s;
      assert MaskCell(m, c);
      var i := Owner(comps, c);
      FoundAt(m, comps, starts, i);
      ComponentsMeet(m, s, comps[i], c);
    }
    FoundAt(m, comps, starts, bi);
    forall s, c | IsComponent(m, s) && c in s && (forall d :: d in Elems(best) ==> Before(c, d))
      ensures |s| < |Elems(best)|
    {
      var i :| 0 <= i < |comps| && s == comps[i];
      FoundAt(m, comps, starts, i);
      assert !Before(c, starts[i]);
      assert Before(c, starts[bi]);
      StartsOrdered(m, comps, starts, i, bi);
    }
  }

  /** The scan keeps no cells exactly when no cell of the mask is set. */
  lemma KeptNothing(m: Mask, comps: seq<set<Cell>>, starts: seq<Cell>, covered: set<Cell>, best: seq<Cell>, bi: int)
    requires Rectangular(m) && Inventory(m, comps, starts, covered) && BestOf(comps, best, bi)
    requires forall c :: MaskCell(m, c) ==> c in covered
    ensures |best| == 0 <==> !AnySet(m)
    ensures |best| > 0 ==> forall k :: 0 <= k < |best| ==> InGrid(best[k], |m|, Width(m))
  {
    if AnySet(m) {
      var y, x :| 0 <= y < |m| && 0 <= x < |m[y]| && At(m, y, x);
      assert MaskCell(m, (y, x));
      var i := Owner(comps, (y, x));
      FoundAt(m, comps, starts, bi);
      assert comps[bi] != {};
    }
    if |best| > 0 {
      FoundAt(m, comps, starts, bi);
      forall k | 0 <= k < |best| ensures InGrid(best[k], |m|, Width(m)) {
        assert best[k] in Elems(best);
        assert MaskCell(m, best[k]);
      }
      assert best[0] in Elems(best);
      assert MaskCell(m, best[0]);
      assert At(m, best[0].0, best[0].1);
    }
  }

  function Cur(candidates: seq<nat>, ci: int, w: int): int {
    if 0 <= ci < |candidates| then candidates[ci] else w
  }

  /** The bookkeeping after a fill from `start`: a fill from an unvisited cell adds a new
      component; a fill from a visited cell returned just that cell and adds nothing. */
  lemma Absorb(m: Mask, comps: seq<set<Cell>>, starts: seq<Cell>, covered: set<Cell>, coords: seq<Cell>, start: Cell)
    returns (comps': seq<set<Cell>>, starts': seq<Cell>)
    requires Inventory(m, comps, starts, covered)
    requires |coords| >= 1 && coords[0] == start && Distinct(coords) && Chain(coords)
    requires MaskCell(m, start)
    requires forall k :: 1 <= k < |coords| ==> MaskCell(m, coords[k]) && coords[k] !in covered
    requires forall k, c {:trigger Adjacent(coords[k], c)} ::
      0 <= k < |coords| && Adjacent(coords[k], c) && MaskCell(m, c) ==> c in covered || c in coords
    requires forall c :: MaskCell(m, c) && Before(c, start) ==> c in covered
    requires forall i :: 0 <= i < |starts| ==> Before(starts[i], start)
    ensures Inventory(m, comps', starts', covered + Elems(coords))
    ensures start !in covered ==> comps' == comps + [Elems(coords)] && starts' == starts + [start] && |Elems(coords)| == |coords|
    ensures start in covered ==> comps' == comps && starts' == starts && |coords| == 1 && |comps| > 0
    ensures forall i :: 0 <= i < |starts'| ==> Before(starts'[i], start) || starts'[i] == start
  {
    if start !in covered {
      NewComponent(m, comps, starts, covered, coords, start);
      comps', starts' := comps + [Elems(coords)], starts + [start];
    } else {
      RefillSingle(m, comps, starts, covered, coords, start);
      var owner := Owner(comps, start);
      assert Elems(coords) == {start};
      comps', starts' := comps, starts;
    }
  }

  /** The next candidate (or the end of the row) lies after the current one. */
  lemma WhereStep(s: seq<bool>, ci: int)
    requires 0 <= ci < |Where(s)|
    ensures Where(s)[ci] < Cur(Where(s), ci + 1, |s|)
  {
    WhereIncreasing(s);
  }

  /** No entry strictly between two consecutive indices of `Where(s)` is true. */
  lemma WhereGap(s: seq<bool>, ci: int, x: int)
    requires 0 <= ci <= |Where(s)| && 0 <= x < |s|
    requires ci == 0 || Where(s)[ci - 1] < x
    requires x < Cur(Where(s), ci, |s|)
    ensures !s[x]
  {
    WhereIncreasing(s);
  }

  /** Row y is covered up to the next candidate once it is covered up to and including the
      previous one. */
  lemma Gap(mask: Mask, y: int, open: seq<bool>, candidates: seq<nat>, ci: int, from: int, covered: set<Cell>)
    requires Rectangular(mask) && 0 <= y < |mask| && |open| == Width(mask)
    requires candidates == Where(open) && 0 <= ci <= |candidates|
    requires from == (if ci == 0 then 0 else candidates[ci - 1] + 1)
    requires forall x :: 0 <= x < |open| && mask[y][x] && !open[x] ==> (y, x) in covered
    requires forall c: Cell :: MaskCell(mask, c) && Before(c, (y, from)) ==> c in covered
    ensures forall c: Cell :: MaskCell(mask, c) && Before(c, (y, Cur(candidates, ci, |open|))) ==> c in covered
  {
    forall c: Cell | MaskCell(mask, c) && Before(c, (y, Cur(candidates, ci, |open|))) ensures c in covered {
      if c.0 == y && from <= c.1 {
        WhereGap(open, ci, c.1);
      }
    }
  }

  /** The best fill after one more fill: the new one replaces it only when strictly larger. */
  lemma KeepBest(m: Mask, comps: seq<set<Cell>>, starts: seq<Cell>, covered: set<Cell>, best: seq<Cell>, bi: int,
                 coords: seq<Cell>, comps': seq<set<Cell>>)
    requires Inventory(m, comps, starts, covered) && BestOf(comps, best, bi) && |coords| >= 1
    requires || (comps' == comps + [Elems(coords)] && |Elems(coords)| == |coords|)
             || (comps' == comps && |coords| == 1 && |comps| > 0)
    ensures BestOf(comps', if |coords| > |best| then coords else best, if |coords| > |best| then |comps'| - 1 else bi)
  {
    if comps' == comps && |coords| == 1 && |comps| > 0 {
      FoundAt(m, comps, starts, bi);
      assert comps[bi] != {};
    }
  }

  /** Covering (y, x) extends coverage up to (y, x) to coverage up to and including it. */
  lemma CoverNext(mask: Mask, y: int, x: int, covered: set<Cell>, covered': set<Cell>)
    requires forall c :: MaskCell(mask, c) && Before(c, (y, x)) ==> c in covered
    requires covered <= covered' && (y, x) in covered'
    ensures forall c: Cell :: MaskCell(mask, c) && Before(c, (y, x + 1)) ==> c in covered'
  {
  }

  /** One candidate (y, x) of `largest_component_mask`: fill from it and keep the fill when
      it is strictly larger than the best so far. A fill from a cell visited earlier in the
      same row (the candidates are computed when the row starts) returns just that cell. */
  method FillCandidate(mask: Mask, visited: array2<bool>, y: int, x: int, best: seq<Cell>,
                       ghost comps: seq<set<Cell>>, ghost starts: seq<Cell>, ghost covered: set<Cell>, ghost bi: int)
    returns (best': seq<Cell>, ghost comps': seq<set<Cell>>, ghost starts': seq<Cell>, ghost covered': set<Cell>, ghost bi': int)
    requires Rectangular(mask) && |mask| == visited.Length0 && Width(mask) == visited.Length1
    requires MaskCell(mask, (y, x))
    requires Tracks(visited, covered) && Inventory(mask, comps, starts, covered) && BestOf(comps, best, bi)
    requires forall c :: MaskCell(mask, c) && Before(c, (y, x)) ==> c in covered
    requires forall i :: 0 <= i < |starts| ==> Before(starts[i], (y, x))
    modifies visited
    ensures Tracks(visited, covered') && Inventory(mask, comps', starts', covered') && BestOf(comps', best', bi')
    ensures covered <= covered' && (y, x) in covered'
    ensures forall c: Cell :: MaskCell(mask, c) && Before(c, (y, x + 1)) ==> c in covered'
    ensures forall i :: 0 <= i < |starts'| ==> Before(starts'[i], (y, x)) || starts'[i] == (y, x)
  {
    var h, w := visited.Length0, visited.Length1;
    ghost var pre := Snapshot(visited);
    assert forall c :: InGrid(c, h, w) ==> (pre[c.0][c.1] <==> c in covered);
    var coords := FloodFill(mask, visited, y, x);
    comps', starts' := Absorb(mask, comps, starts, covered, coords, (y, x));
    covered' := covered + Elems(coords);
    bi' := bi;
    best' := best;
    if |coords| > |best| {
      best' := coords;
      bi' := |comps'| - 1;
    }
    KeepBest(mask, comps, starts, covered, best, bi, coords, comps');
    CoverNext(mask, y, x, covered, covered');
  }

  /** Every start found so far precedes (y, x) or is (y, x): then all precede (y, z) for z > x. */
  lemma StartsNext(starts: seq<Cell>, y: int, x: int, z: int)
    requires forall i :: 0 <= i < |starts| ==> Before(starts[i], (y, x)) || starts[i] == (y, x)
    requires x < z
    ensures forall i :: 0 <= i < |starts| ==> Before(starts[i], (y, z))
  {
  }

  /** Coverage and starts up to the end (y, w) of row y cover the whole row. */
  lemma RowDone(mask: Mask, y: int, w: int, starts: seq<Cell>, covered: set<Cell>)
    requires Rectangular(mask) && w == Width(mask)
    requires forall c: Cell :: MaskCell(mask, c) && Before(c, (y, w)) ==> c in covered
    requires forall i :: 0 <= i < |starts| ==> Before(starts[i], (y, w))
    ensures forall c: Cell :: MaskCell(mask, c) && c.0 <= y ==> c in covered
    ensures forall i :: 0 <= i < |starts| ==> starts[i].0 <= y
  {
    forall c: Cell | MaskCell(mask, c) && c.0 <= y ensures c in covered {
      if c.0 == y {
        assert c.1 < w;
      }
    }
  }

  /** `row & ~visited[y]`: the cells of row y set in the mask and not visited. */
  method OpenCells(mask: Mask, visited: array2<bool>, y: int) returns (open: seq<bool>)
    requires Rectangular(mask) && |mask| == visited.Length0 && Width(mask) == visited.Length1
    requires 0 <= y < |mask|
    ensures |open| == Width(mask)
    ensures forall x :: 0 <= x < |open| ==> (open[x] <==> mask[y][x] && !visited[y, x])
  {
    open := [];
    for x := 0 to visited.Length1
      invariant |open| == x
      invariant forall x' :: 0 <= x' < x ==> (open[x'] <==> mask[y][x'] && !visited[y, x'])
    {
      open := open + [mask[y][x] && !visited[y, x]];
    }
  }

  /** The scan of row y before its candidate `ci`: the cells of the row that were not open
      when the row started, and every set cell before the candidate, are covered; every
      start found so far precedes the candidate. */
  ghost predicate RowProgress(mask: Mask, visited: array2<bool>, y: int, open: seq<bool>, candidates: seq<nat>, ci: int,
                              best: seq<Cell>, comps: seq<set<Cell>>, starts: seq<Cell>, covered: set<Cell>, bi: int)
    reads visited
  {
    && Rectangular(mask) && |mask| == visited.Length0 && Width(mask) == visited.Length1
    && 0 <= y < |mask| && |open| == Width(mask) && candidates == Where(open) && 0 <= ci <= |candidates|
    && Tracks(visited, covered) && Inventory(mask, comps, starts, covered) && BestOf(comps, best, bi)
    && (forall x :: 0 <= x < |open| && open[x] ==> mask[y][x])
    && (forall x :: 0 <= x < |open| && mask[y][x] && !open[x] ==> (y, x) in covered)
    && (forall c: Cell :: MaskCell(mask, c) && Before(c, (y, Cur(candidates, ci, |open|))) ==> c in covered)
    && (forall i :: 0 <= i < |starts| ==> Before(starts[i], (y, Cur(candidates, ci, |open|))))
  }

  /** The scan of row y starts with the cells of the earlier rows covered. */
  lemma RowStart(mask: Mask, visited: array2<bool>, y: int, open: seq<bool>,
                 best: seq<Cell>, comps: seq<set<Cell>>, starts: seq<Cell>, covered: set<Cell>, bi: int)
    requires Rectangular(mask) && |mask| == visited.Length0 && Width(mask) == visited.Length1
    requires 0 <= y < |mask|
    requires Tracks(visited, covered) && Inventory(mask, comps, starts, covered) && BestOf(comps, best, bi)
    requires forall c: Cell :: MaskCell(mask, c) && c.0 < y ==> c in covered
    requires forall i :: 0 <= i < |starts| ==> starts[i].0 < y
    requires |open| == Width(mask)
    requires forall x :: 0 <= x < |open| ==> (open[x] <==> mask[y][x] && !visited[y, x])
    ensures RowProgress(mask, visited, y, open, Where(open), 0, best, comps, starts, covered, bi)
  {
    forall x | 0 <= x < |open| && mask[y][x] && !open[x] ensures (y, x) in covered {
      assert InGrid((y, x), visited.Length0, visited.Length1);
    }
    Gap(mask, y, open, Where(open), 0, 0, covered);
    forall i | 0 <= i < |starts| ensures Before(starts[i], (y, Cur(Where(open), 0, |open|))) {
    }
    forall x | 0 <= x < |open| && open[x] ensures mask[y][x] {
    }
  }

  /** The body of the loop over the candidates of row y. */
  method FillNext(mask: Mask, visited: array2<bool>, y: int, open: seq<bool>, candidates: seq<nat>, ci: int, best: seq<Cell>,
                  ghost comps: seq<set<Cell>>, ghost starts: seq<Cell>, ghost covered: set<Cell>, ghost bi: int)
    returns (best': seq<Cell>, ghost comps': seq<set<Cell>>, ghost starts': seq<Cell>, ghost covered': set<Cell>, ghost bi': int)
    requires RowProgress(mask, visited, y, open, candidates, ci, best, comps, starts, covered, bi) && ci < |candidates|
    modifies visited
    ensures RowProgress(mask, visited, y, open, candidates, ci + 1, best', comps', starts', covered', bi')
  {
    var x := candidates[ci];
    assert Cur(candidates, ci, |open|) == x;
    WhereStep(open, ci);
    best', comps', starts', covered', bi' := FillCandidate(mask, visited, y, x, best, comps, starts, covered, bi);
    Gap(mask, y, open, candidates, ci + 1, x + 1, covered');
    StartsNext(starts', y, x, Cur(candidates, ci + 1, |open|));
  }

  /** The candidates of row y: the cells set in the mask and not yet visited when the row
      starts, in increasing column order. */
  method ScanRowCandidates(mask: Mask, visited: array2<bool>, y: int, best: seq<Cell>,
                           ghost comps: seq<set<Cell>>, ghost starts: seq<Cell>, ghost covered: set<Cell>, ghost bi: int)
    returns (best': seq<Cell>, ghost comps': seq<set<Cell>>, ghost starts': seq<Cell>, ghost covered': set<Cell>, ghost bi': int)
    requires Rectangular(mask) && |mask| == visited.Length0 && Width(mask) == visited.Length1
    requires 0 <= y < |mask|
    requires Tracks(visited, covered) && Inventory(mask, comps, starts, covered) && BestOf(comps, best, bi)
    requires forall c: Cell :: MaskCell(mask, c) && c.0 < y ==> c in covered
    requires forall i :: 0 <= i < |starts| ==> starts[i].0 < y
    modifies visited
    ensures Tracks(visited, covered') && Inventory(mask, comps', starts', covered') && BestOf(comps', best', bi')
    ensures forall c: Cell :: MaskCell(mask, c) && c.0 <= y ==> c in covered'
    ensures forall i :: 0 <= i < |starts'| ==> starts'[i].0 <= y
  {
    var w := visited.Length1;
    var open := OpenCells(mask, visited, y);
    var candidates := Where(open);
    best', comps', starts', covered', bi' := best, comps, starts, covered, bi;
    RowStart(mask, visited, y, open, best, comps, starts, covered, bi);
    for ci := 0 to |candidates|
      invariant RowProgress(mask, visited, y, open, candidates, ci, best', comps', starts', covered', bi')
    {
      best', comps', starts', covered', bi' := FillNext(mask, visited, y, open, candidates, ci, best', comps', starts', covered', bi');
    }
    RowDone(mask, y, w, starts', covered');
  }

  /** The loop of `largest_component_mask`: scan the rows, in each row fill from every
      candidate, and keep the first fill of the largest size. */
  method ScanRows(mask: Mask) returns (best: seq<Cell>)
    requires Rectangular(mask)
    ensures |best| == 0 <==> !AnySet(mask)
    ensures forall k :: 0 <= k < |best| ==> InGrid(best[k], |mask|, Width(mask))
    ensures |best| > 0 ==> IsComponent(mask, Elems(best))
    ensures |best| > 0 ==> forall s {:trigger IsComponent(mask, s)} :: IsComponent(mask, s) ==> |s| <= |Elems(best)|
    ensures |best| > 0 ==> forall s, c {:trigger IsComponent(mask, s), c in s} ::
      (IsComponent(mask, s) && c in s && forall d :: d in Elems(best) ==> Before(c, d)) ==>
        |s| < |Elems(best)|
  {
    var h, w := |mask|, Width(mask);
    var visited := new bool[h, w]((_, _) => false);
    best := [];
    ghost var comps: seq<set<Cell>> := [];
    ghost var starts: seq<Cell> := [];
    ghost var covered: set<Cell> := {};
    ghost var bi := 0;

    for y := 0 to h
      invariant Tracks(visited, covered) && Inventory(mask, comps, starts, covered) && BestOf(comps, best, bi)
      invariant forall c: Cell :: MaskCell(mask, c) && c.0 < y ==> c in covered
      invariant forall i :: 0 <= i < |starts| ==> starts[i].0 < y
    {
      best, comps, starts, covered, bi := ScanRowCandidates(mask, visited, y, best, comps, starts, covered, bi);
    }
    KeptNothing(mask, comps, starts, covered, best, bi);
    if |best| > 0 {
      Conclude(mask, comps, starts, covered, best, bi);
    }
  }

  /** `largest_component_mask`: None when no cell is set; otherwise the mask of a largest
      component, the one met first in row-major order among those of that size. */
  method LargestComponentMask(mask: Mask) returns (r: Option<Mask>)
    requires Rectangular(mask)
    ensures r.None? <==> !AnySet(mask)
    ensures r.Some? ==> |r.value| == |mask| && forall y :: 0 <= y < |mask| ==> |r.value[y]| == Width(mask)
    ensures r.Some? ==> IsComponent(mask, CellsOf(r.value))
    ensures r.Some? ==> forall s {:trigger IsComponent(mask, s)} :: IsComponent(mask, s) ==> |s| <= |CellsOf(r.value)|
    ensures r.Some? ==> forall s, c {:trigger IsComponent(mask, s), c in s} ::
      (IsComponent(mask, s) && c in s && forall d :: d in CellsOf(r.value) ==> Before(c, d)) ==>
        |s| < |CellsOf(r.value)|
  {
    var best := ScanRows(mask);
    if |best| == 0 {
      return None;
    }
    CellsOfIndicator(|mask|, Width(mask), best);
    r := Some(Indicator(|mask|, Width(mask), best));
  }
}

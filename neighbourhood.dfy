/** Coordinates on the square board and the clipped 3×3 window that
    `Cell.getSurroundingCells` enumerates. */
module Neighbourhood {

  /** A board position: `x` is the column index into `columns`, `y` the index within it. */
  datatype Coord = Coord(x: int, y: int)

  predicate InGrid(n: int, c: Coord) {
    0 <= c.x < n && 0 <= c.y < n
  }

  function Max(a: int, b: int): int { if a >= b then a else b }

  function Min(a: int, b: int): int { if a <= b then a else b }

  /** The integers lo, lo + 1, ..., hi (empty when lo > hi): one loop of
      `getSurroundingCells`. */
  function Span(lo: int, hi: int): seq<int>
    decreases hi + 1 - lo
  {
    if lo > hi then [] else [lo] + Span(lo + 1, hi)
  }

  /** The coordinates (i, j) for j in ys, in order: one pass of the inner loop. */
  function Row(i: int, ys: seq<int>): seq<Coord> {
    if ys == [] then [] else [Coord(i, ys[0])] + Row(i, ys[1 ..])
  }

  /** Row after row: the two nested loops. */
  function Block(xs: seq<int>, ys: seq<int>): seq<Coord> {
    if xs == [] then [] else Row(xs[0], ys) + Block(xs[1 ..], ys)
  }

  /** `getSurroundingCells` of the cell at (x, y) on an n×n board: rows
      max(x-1, 0) .. min(x+1, n-1), and within each row the columns
      max(y-1, 0) .. min(y+1, n-1). The cell itself is part of its window. */
  function SurroundingCells(n: int, x: int, y: int): seq<Coord> {
    Block(Span(Max(x - 1, 0), Min(x + 1, n - 1)), Span(Max(y - 1, 0), Min(y + 1, n - 1)))
  }

  /** c lies on the board and at most one step from (x, y) in each direction. */
  predicate Near(n: int, x: int, y: int, c: Coord) {
    InGrid(n, c) && x - 1 <= c.x <= x + 1 && y - 1 <= c.y <= y + 1
  }

  /** Row-major order on coordinates. */
  predicate Before(a: Coord, b: Coord) {
    a.x < b.x || (a.x == b.x && a.y < b.y)
  }

  predicate RowMajor(s: seq<Coord>) {
    forall i, j :: 0 <= i < j < |s| ==> Before(s[i], s[j])
  }

  predicate NoDuplicates(s: seq<Coord>) {
    forall i, j :: 0 <= i < j < |s| ==> s[i] != s[j]
  }

  predicate Increasing(s: seq<int>) {
    forall i, j :: 0 <= i < j < |s| ==> s[i] < s[j]
  }

  /** Number of rows (or columns) of the window around index x: 2 on a border, 3 inside. */
  function Extent(n: int, x: int): int {
    Min(x + 1, n - 1) - Max(x - 1, 0) + 1
  }

  lemma {:induction false} SpanFacts(lo: int, hi: int)
    ensures |Span(lo, hi)| == if lo > hi then 0 else hi - lo + 1
    ensures forall k :: k in Span(lo, hi) <==> lo <= k <= hi
    ensures Increasing(Span(lo, hi))
    decreases hi + 1 - lo
  {
    if lo <= hi {
      var s, t := Span(lo, hi), Span(lo + 1, hi);
      SpanFacts(lo + 1, hi);
      assert s == [lo] + t;
      forall i, j | 0 <= i < j < |s|
        ensures s[i] < s[j]
      {
        assert s[j] == t[j - 1] && s[j] in t;
        if i > 0 {
          assert s[i] == t[i - 1];
        }
      }
    }
  }

  lemma {:induction false} RowFacts(i: int, ys: seq<int>)
    ensures |Row(i, ys)| == |ys|
    ensures forall k :: 0 <= k < |ys| ==> Row(i, ys)[k] == Coord(i, ys[k])
  {
    if ys != [] {
      RowFacts(i, ys[1 ..]);
    }
  }

  lemma {:induction false} BlockLength(xs: seq<int>, ys: seq<int>)
    ensures |Block(xs, ys)| == |xs| * |ys|
  {
    if xs != [] {
      BlockLength(xs[1 ..], ys);
      RowFacts(xs[0], ys);
      assert |xs| * |ys| == |ys| + (|xs| - 1) * |ys|;
    }
  }

  lemma {:induction false} BlockMembers(xs: seq<int>, ys: seq<int>)
    ensures forall c :: c in Block(xs, ys) <==> c.x in xs && c.y in ys
  {
    if xs != [] {
      var r := Row(xs[0], ys);
      BlockMembers(xs[1 ..], ys);
      RowFacts(xs[0], ys);
      assert Block(xs, ys) == r + Block(xs[1 ..], ys);
      forall c
        ensures c in Block(xs, ys) <==> c.x in xs && c.y in ys
      {
        if c in r {
          var k :| 0 <= k < |r| && r[k] == c;
        }
        if c.x == xs[0] && c.y in ys {
          var k :| 0 <= k < |ys| && ys[k] == c.y;
          assert r[k] == c;
        }
      }
    }
  }

  lemma {:induction false} BlockRowMajor(xs: seq<int>, ys: seq<int>)
    requires Increasing(xs) && Increasing(ys)
    ensures RowMajor(Block(xs, ys))
  {
    if xs != [] {
      var b, r, rest := Block(xs, ys), Row(xs[0], ys), Block(xs[1 ..], ys);
      BlockRowMajor(xs[1 ..], ys);
      BlockMembers(xs[1 ..], ys);
      RowFacts(xs[0], ys);
      assert b == r + rest;
      forall i, j | 0 <= i < j < |b|
        ensures Before(b[i], b[j])
      {
        if j < |r| {
          assert b[i] == r[i] && b[j] == r[j];
        } else if i >= |r| {
          assert b[i] == rest[i - |r|] && b[j] == rest[j - |r|];
        } else {
          assert b[i] == r[i];
          assert b[j] == rest[j - |r|] && b[j] in rest;
          var k :| 0 <= k < |xs[1 ..]| && xs[1 ..][k] == b[j].x;
          assert xs[k + 1] == b[j].x;
        }
      }
    }
  }

  lemma RowMajorNoDuplicates(s: seq<Coord>)
    requires RowMajor(s)
    ensures NoDuplicates(s)
  {
  }

  /** `getSurroundingCells` returns exactly the on-board cells of the 3×3 window
      centred on (x, y), the centre included, in row-major order without repetition. */
  lemma SurroundingCellsSpec(n: int, x: int, y: int)
    requires 0 <= x < n && 0 <= y < n
    ensures forall c :: c in SurroundingCells(n, x, y) <==> Near(n, x, y, c)
    ensures RowMajor(SurroundingCells(n, x, y))
    ensures NoDuplicates(SurroundingCells(n, x, y))
    ensures |SurroundingCells(n, x, y)| == Extent(n, x) * Extent(n, y)
  {
    var xlo, xhi, ylo, yhi := Max(x - 1, 0), Min(x + 1, n - 1), Max(y - 1, 0), Min(y + 1, n - 1);
    var xs, ys := Span(xlo, xhi), Span(ylo, yhi);
    SpanFacts(xlo, xhi);
    SpanFacts(ylo, yhi);
    assert |xs| == Extent(n, x) && |ys| == Extent(n, y);
    BlockLength(xs, ys);
    BlockMembers(xs, ys);
    BlockRowMajor(xs, ys);
    RowMajorNoDuplicates(Block(xs, ys));
  }

  predicate OnBorder(n: int, x: int) {
    x == 0 || x == n - 1
  }

  /** The window of a corner cell has 4 cells, of another border cell 6, of an inner cell 9. */
  lemma WindowSize(n: int, x: int, y: int)
    requires 2 <= n && 0 <= x < n && 0 <= y < n
    ensures |SurroundingCells(n, x, y)| ==
      if OnBorder(n, x) && OnBorder(n, y) then 4
      else if OnBorder(n, x) || OnBorder(n, y) then 6
      else 9
  {
    SurroundingCellsSpec(n, x, y);
  }

  /** Being in each other's window is symmetric. */
  lemma SurroundingSymmetric(n: int, a: Coord, b: Coord)
    requires InGrid(n, a) && InGrid(n, b)
    ensures a in SurroundingCells(n, b.x, b.y) <==> b in SurroundingCells(n, a.x, a.y)
  {
    SurroundingCellsSpec(n, a.x, a.y);
    SurroundingCellsSpec(n, b.x, b.y);
  }

  /** Every cell belongs to its own window. */
  lemma SelfInWindow(n: int, c: Coord)
    requires InGrid(n, c)
    ensures c in SurroundingCells(n, c.x, c.y)
  {
    SurroundingCellsSpec(n, c.x, c.y);
  }

  /** d lies in the 3×3 square centred on c, which near a border reaches
      off the board. */
  predicate Adjacent(c: Coord, d: Coord) {
    c.x - 1 <= d.x <= c.x + 1 && c.y - 1 <= d.y <= c.y + 1
  }

  /** On the board, the window of a cell is its square: d lies in c's square
      exactly when d lies in c's window, and exactly when c lies in d's. */
  lemma AdjacentIsWindow(n: int, c: Coord, d: Coord)
    requires InGrid(n, c) && InGrid(n, d)
    ensures Adjacent(c, d) <==> d in SurroundingCells(n, c.x, c.y)
    ensures Adjacent(c, d) <==> c in SurroundingCells(n, d.x, d.y)
  {
    SurroundingCellsSpec(n, c.x, c.y);
    SurroundingCellsSpec(n, d.x, d.y);
  }

  /** The window with the centre cell taken out: the eight-neighbourhood of a cell. */
  function Without(s: seq<Coord>, c: Coord): (r: seq<Coord>)
    ensures forall d :: d in r <==> d in s && d != c
  {
    if s == [] then [] else (if s[0] == c then [] else [s[0]]) + Without(s[1 ..], c)
  }

  function Neighbours(n: int, x: int, y: int): seq<Coord> {
    Without(SurroundingCells(n, x, y), Coord(x, y))
  }

  lemma {:induction false} WithoutLength(s: seq<Coord>, c: Coord)
    requires NoDuplicates(s)
    ensures |Without(s, c)| == if c in s then |s| - 1 else |s|
  {
    if s != [] {
      assert NoDuplicates(s[1 ..]);
      WithoutLength(s[1 ..], c);
      if s[0] == c {
        assert c !in s[1 ..];
      }
    }
  }

  /** The eight-neighbourhood: 3 cells at a corner, 5 on another border cell, 8 inside. */
  lemma NeighboursSpec(n: int, x: int, y: int)
    requires 2 <= n && 0 <= x < n && 0 <= y < n
    ensures forall c :: c in Neighbours(n, x, y) <==> Near(n, x, y, c) && c != Coord(x, y)
    ensures |Neighbours(n, x, y)| ==
      if OnBorder(n, x) && OnBorder(n, y) then 3
      else if OnBorder(n, x) || OnBorder(n, y) then 5
      else 8
  {
    SurroundingCellsSpec(n, x, y);
    WindowSize(n, x, y);
    SelfInWindow(n, Coord(x, y));
    WithoutLength(SurroundingCells(n, x, y), Coord(x, y));
  }

  /** All coordinates of an n×n board. */
  ghost function Grid(n: nat): set<Coord> {
    Rect(n, n)
  }

  ghost function Rect(r: nat, m: nat): set<Coord> {
    set i, j | 0 <= i < r && 0 <= j < m :: Coord(i, j)
  }

  ghost function RowSet(i: int, m: nat): set<Coord> {
    set j | 0 <= j < m :: Coord(i, j)
  }

  lemma {:induction false} RowSetSize(i: int, m: nat)
    ensures |RowSet(i, m)| == m
  {
    if m == 0 {
      assert RowSet(i, m) == {};
    } else {
      RowSetSize(i, m - 1);
      assert RowSet(i, m) == RowSet(i, m - 1) + {Coord(i, m - 1)};
    }
  }

  lemma RectSplit(r: nat, m: nat)
    requires r > 0
    ensures Rect(r, m) == Rect(r - 1, m) + RowSet(r - 1, m)
    ensures Rect(r - 1, m) !! RowSet(r - 1, m)
  {
    forall c | c in Rect(r, m)
      ensures c in Rect(r - 1, m) + RowSet(r - 1, m)
    {
      if c.x < r - 1 {
        assert c in Rect(r - 1, m);
      }
    }
  }

  lemma {:induction false} RectSize(r: nat, m: nat)
    ensures |Rect(r, m)| == r * m
  {
    if r == 0 {
      assert Rect(r, m) == {};
    } else {
      RectSize(r - 1, m);
      RowSetSize(r - 1, m);
      RectSplit(r, m);
      assert (r - 1) * m + m == r * m;
    }
  }

  /** The coordinates of an n×n board number n * n: exactly the on-board ones. */
  lemma GridSize(n: nat)
    ensures |Grid(n)| == n * n
    ensures forall c :: c in Grid(n) <==> InGrid(n, c)
  {
    RectSize(n, n);
  }

  lemma OnGrid(n: nat, c: Coord)
    requires InGrid(n, c)
    ensures c in Grid(n)
  {
    assert c == Coord(c.x, c.y);
  }
}

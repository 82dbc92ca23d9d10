/** Mine counting over windows, the rejection-sampling placement of
    `createBombs` as a function of its random draws, and the facts about the
    reveal cascade and the win test that are independent of the heap. */
module Mines {
  import opened Neighbourhood

  /** How many of the coordinates in ws are mines. */
  function CountIn(ws: seq<Coord>, m: set<Coord>): (r: nat)
    ensures r <= |ws|
  {
    if ws == [] then 0 else (if ws[0] in m then 1 else 0) + CountIn(ws[1 ..], m)
  }

  /** The number of mines in the 3×3 square centred on c. As every mine lies
      on the board, this is the `bombCount` the cell holds once placement is
      done: the mines of its window, itself included (`WindowCountSpec`). */
  function WindowCount(m: set<Coord>, c: Coord): nat {
    |set d | d in m && Adjacent(c, d)|
  }

  /** A cell whose `bombCount` is 0: `click` cascades from it. */
  predicate Empty(m: set<Coord>, c: Coord) {
    WindowCount(m, c) == 0
  }

  predicate OnBoard(n: int, m: set<Coord>) {
    forall d :: d in m ==> InGrid(n, d)
  }

  /** A count is zero exactly when none of the coordinates is a mine. */
  lemma {:induction false} CountZero(ws: seq<Coord>, m: set<Coord>)
    ensures CountIn(ws, m) == 0 <==> forall w :: w in ws ==> w !in m
  {
    if ws != [] {
      CountZero(ws[1 ..], m);
      assert forall w :: w in ws <==> w == ws[0] || w in ws[1 ..];
    }
  }

  /** Over a repetition-free sequence, the count is the number of mines the
      sequence holds. */
  lemma {:induction false} CountInSet(ws: seq<Coord>, m: set<Coord>)
    requires NoDuplicates(ws)
    ensures CountIn(ws, m) == |set d | d in m && d in ws|
  {
    if ws == [] {
      assert (set d | d in m && d in ws) == {};
    } else {
      var rest := ws[1 ..];
      assert NoDuplicates(rest);
      CountInSet(rest, m);
      var inRest, inAll := set d | d in m && d in rest, set d | d in m && d in ws;
      assert ws[0] !in rest;
      assert forall d :: d in ws <==> d == ws[0] || d in rest;
      if ws[0] in m {
        assert inAll == inRest + {ws[0]};
      } else {
        assert inAll == inRest;
      }
    }
  }

  /** Taking one coordinate c out of a repetition-free sequence lowers the
      count by one exactly when c is a mine of the sequence. */
  lemma {:induction false} CountWithout(ws: seq<Coord>, m: set<Coord>, c: Coord)
    requires NoDuplicates(ws)
    ensures CountIn(ws, m) == CountIn(Without(ws, c), m) + (if c in ws && c in m then 1 else 0)
  {
    if ws != [] {
      assert NoDuplicates(ws[1 ..]);
      CountWithout(ws[1 ..], m, c);
      var rest := Without(ws[1 ..], c);
      assert c in ws <==> c == ws[0] || c in ws[1 ..];
      if ws[0] == c {
        assert c !in ws[1 ..];
        assert Without(ws, c) == rest;
      } else {
        assert Without(ws, c) == [ws[0]] + rest;
        assert (Without(ws, c))[1 ..] == rest;
      }
    }
  }

  /** With every mine on the board, the count of a cell is the number of mines
      among the cells `getSurroundingCells` returns for it. */
  lemma WindowCountSpec(n: int, m: set<Coord>, c: Coord)
    requires InGrid(n, c) && OnBoard(n, m)
    ensures WindowCount(m, c) == CountIn(SurroundingCells(n, c.x, c.y), m)
  {
    var ws := SurroundingCells(n, c.x, c.y);
    SurroundingCellsSpec(n, c.x, c.y);
    CountInSet(ws, m);
    assert (set d | d in m && Adjacent(c, d)) == (set d | d in m && d in ws);
  }

  /** The count is the number of mines among the eight neighbours, plus one
      when the cell is a mine itself. */
  lemma SelfInclusiveCount(n: int, m: set<Coord>, c: Coord)
    requires InGrid(n, c) && OnBoard(n, m)
    ensures WindowCount(m, c) == CountIn(Neighbours(n, c.x, c.y), m) + (if c in m then 1 else 0)
  {
    WindowCountSpec(n, m, c);
    SurroundingCellsSpec(n, c.x, c.y);
    CountWithout(SurroundingCells(n, c.x, c.y), m, c);
  }

  /** A zero count means no mine in the window; so a mine never has a zero count. */
  lemma EmptyHasNoMineAround(n: int, m: set<Coord>, c: Coord)
    requires InGrid(n, c) && OnBoard(n, m)
    ensures Empty(m, c) <==> forall d :: d in SurroundingCells(n, c.x, c.y) ==> d !in m
    ensures Empty(m, c) ==> c !in m
  {
    WindowCountSpec(n, m, c);
    CountZero(SurroundingCells(n, c.x, c.y), m);
    SelfInWindow(n, c);
  }

  /** A new mine at c raises the count of d by one exactly when d lies in
      c's window. */
  lemma CountAddMine(n: int, m: set<Coord>, c: Coord, d: Coord)
    requires InGrid(n, c) && InGrid(n, d) && c !in m
    ensures WindowCount(m + {c}, d) == WindowCount(m, d) + (if d in SurroundingCells(n, c.x, c.y) then 1 else 0)
  {
    var before, after := set e | e in m && Adjacent(d, e), set e | e in m + {c} && Adjacent(d, e);
    AdjacentIsWindow(n, d, c);
    if Adjacent(d, c) {
      assert after == before + {c};
    } else {
      assert after == before;
    }
  }

  /** The coordinates among the draws that are not mines yet. */
  ghost function Fresh(draws: seq<Coord>, m: set<Coord>): set<Coord> {
    (set d | d in draws) - m
  }

  /** The mine set `createBombs` leaves when it consumes the draws in order
      with k mines still to place: a draw on a mine is rejected, a draw on a
      free cell becomes a mine, and the loop stops when k reaches 0. */
  function Place(draws: seq<Coord>, m: set<Coord>, k: nat): set<Coord> {
    if k == 0 || draws == [] then m
    else if draws[0] in m then Place(draws[1 ..], m, k)
    else Place(draws[1 ..], m + {draws[0]}, k - 1)
  }

  /** The draws suffice for `createBombs` to place k more mines, so its loop
      ends: the draws that are not rejected number at least k. */
  predicate CanPlace(draws: seq<Coord>, m: set<Coord>, k: nat) {
    k == 0 || (draws != [] &&
      if draws[0] in m then CanPlace(draws[1 ..], m, k)
      else CanPlace(draws[1 ..], m + {draws[0]}, k - 1))
  }

  /** The loop of `createBombs` after consuming the draw at index i, with k
      mines still to place: a rejected draw leaves the mines and k alone, an
      accepted one adds a mine and lowers k. */
  lemma PlaceNext(draws: seq<Coord>, i: nat, m: set<Coord>, k: nat)
    requires i <= |draws| && CanPlace(draws[i ..], m, k) && k > 0
    ensures i < |draws|
    ensures draws[i] in m ==>
      Place(draws[i + 1 ..], m, k) == Place(draws[i ..], m, k) && CanPlace(draws[i + 1 ..], m, k)
    ensures draws[i] !in m ==>
      Place(draws[i + 1 ..], m + {draws[i]}, k - 1) == Place(draws[i ..], m, k)
      && CanPlace(draws[i + 1 ..], m + {draws[i]}, k - 1)
  {
    assert draws[i ..][1 ..] == draws[i + 1 ..];
  }

  /** Placement adds exactly k mines, all of them drawn, and removes none. */
  lemma {:induction false} PlaceAddsExactly(draws: seq<Coord>, m: set<Coord>, k: nat)
    requires CanPlace(draws, m, k)
    ensures m <= Place(draws, m, k)
    ensures |Place(draws, m, k)| == |m| + k
    ensures forall c :: c in Place(draws, m, k) ==> c in m || c in draws
  {
    if k > 0 {
      var d := draws[0];
      if d in m {
        PlaceAddsExactly(draws[1 ..], m, k);
      } else {
        PlaceAddsExactly(draws[1 ..], m + {d}, k - 1);
      }
      assert forall c :: c in draws[1 ..] ==> c in draws;
    }
  }

  lemma FreshStep(draws: seq<Coord>, m: set<Coord>)
    requires draws != []
    ensures draws[0] in m ==> Fresh(draws[1 ..], m) == Fresh(draws, m)
    ensures draws[0] !in m ==>
      draws[0] in Fresh(draws, m) && Fresh(draws[1 ..], m + {draws[0]}) == Fresh(draws, m) - {draws[0]}
  {
    assert forall d :: d in draws <==> d == draws[0] || d in draws[1 ..];
  }

  lemma FreshNonEmpty(draws: seq<Coord>, m: set<Coord>)
    requires |Fresh(draws, m)| > 0
    ensures draws != []
  {
  }

  /** At least k distinct draws that are not mines yet always suffice. */
  lemma {:induction false} FreshSuffices(draws: seq<Coord>, m: set<Coord>, k: nat)
    requires |Fresh(draws, m)| >= k
    ensures CanPlace(draws, m, k)
  {
    if k > 0 {
      FreshNonEmpty(draws, m);
      FreshStep(draws, m);
      var d := draws[0];
      if d in m {
        FreshSuffices(draws[1 ..], m, k);
      } else {
        var f := Fresh(draws, m);
        assert |f - {d}| == |f| - 1;
        FreshSuffices(draws[1 ..], m + {d}, k - 1);
      }
    }
  }

  /** Conversely, the draws must hold k distinct coordinates that are not mines. */
  lemma {:induction false} CanPlaceNeedsFresh(draws: seq<Coord>, m: set<Coord>, k: nat)
    requires CanPlace(draws, m, k)
    ensures |Fresh(draws, m)| >= k
  {
    PlaceAddsExactly(draws, m, k);
    var p := Place(draws, m, k);
    assert p - m <= Fresh(draws, m);
    assert p == m + (p - m) && m !! (p - m);
    SubsetSize(p - m, Fresh(draws, m));
  }

  lemma SubsetSize<T>(a: set<T>, b: set<T>)
    requires a <= b
    ensures |a| <= |b|
    ensures |a| == |b| ==> a == b
  {
    assert b == a + (b - a);
    assert a !! (b - a);
    if |a| == |b| {
      assert |b - a| == 0;
    }
  }

  /** The win test counts revealed cells. When no revealed cell is a mine,
      the count reaches gridSize * gridSize minus the number of mines exactly
      when every cell that is not a mine is revealed. */
  lemma AllSafeRevealed(n: nat, m: set<Coord>, s: set<Coord>)
    requires m <= Grid(n) && s <= Grid(n) && s !! m
    ensures |s| <= n * n - |m|
    ensures |s| == n * n - |m| <==> s == Grid(n) - m
  {
    GridSize(n);
    var safe := Grid(n) - m;
    assert Grid(n) == safe + m && safe !! m;
    assert |safe| == n * n - |m|;
    SubsetSize(s, safe);
  }

  /** The cells of c's window are all revealed, except flagged zero-count ones:
      what the cascade leaves around a zero-count cell it revealed. */
  ghost predicate Settled(n: int, m: set<Coord>, flagged: set<Coord>, shown: set<Coord>, c: Coord) {
    forall d :: d in SurroundingCells(n, c.x, c.y) ==> Covered(m, flagged, shown, d)
  }

  /** d is revealed, or it is a flagged zero-count cell, which `click` skips. */
  predicate Covered(m: set<Coord>, flagged: set<Coord>, shown: set<Coord>, d: Coord) {
    d in shown || (d in flagged && Empty(m, d))
  }

  lemma CoveredGrows(m: set<Coord>, flagged: set<Coord>, s: set<Coord>, s': set<Coord>, d: Coord)
    requires s <= s' && Covered(m, flagged, s, d)
    ensures Covered(m, flagged, s', d)
  {
  }

  /** c lies in the window of a zero-count cell among news. */
  ghost predicate Reached(n: int, m: set<Coord>, news: set<Coord>, c: Coord) {
    exists d :: d in news && Empty(m, d) && c in SurroundingCells(n, d.x, d.y)
  }

  lemma SettledGrows(n: int, m: set<Coord>, flagged: set<Coord>, s: set<Coord>, s': set<Coord>, c: Coord)
    requires s <= s' && Settled(n, m, flagged, s, c)
    ensures Settled(n, m, flagged, s', c)
  {
  }

  lemma ReachedGrows(n: int, m: set<Coord>, news: set<Coord>, news': set<Coord>, c: Coord)
    requires news <= news' && Reached(n, m, news, c)
    ensures Reached(n, m, news', c)
  {
    var d :| d in news && Empty(m, d) && c in SurroundingCells(n, d.x, d.y);
    assert d in news';
  }

  /** The cells listed in o. */
  ghost function Elems(o: seq<Coord>): set<Coord> {
    set d | d in o
  }

  /** Every cell of o after the first lies in the window of a zero-count cell
      listed before it: o is an order in which clicking o[0] can reveal its
      cells, each one found from an earlier zero-count cell. */
  ghost predicate Chained(n: int, m: set<Coord>, o: seq<Coord>) {
    forall i :: 0 < i < |o| ==> Reached(n, m, Elems(o[.. i]), o[i])
  }

  /** One step of a cascade rooted at the zero-count cell o[0]: the cells p
      that visiting the cell p[0] of o[0]'s window revealed, in a chained
      order, extend the chained order o. */
  lemma ChainStep(n: int, m: set<Coord>, o: seq<Coord>, p: seq<Coord>)
    requires |o| > 0 && Empty(m, o[0]) && Chained(n, m, o) && Chained(n, m, p)
    requires p != [] ==> p[0] in SurroundingCells(n, o[0].x, o[0].y)
    ensures Chained(n, m, o + p)
    ensures Elems(o + p) == Elems(o) + Elems(p)
  {
    var q := o + p;
    forall i | 0 < i < |q|
      ensures Reached(n, m, Elems(q[.. i]), q[i])
    {
      if i < |o| {
        assert q[.. i] == o[.. i];
      } else if i == |o| {
        assert q[.. i] == o && q[i] == p[0];
        assert o[0] in Elems(o);
      } else {
        var k := i - |o|;
        assert q[.. i] == o + p[.. k] && q[i] == p[k];
        assert Reached(n, m, Elems(p[.. k]), p[k]);
        ReachedGrows(n, m, Elems(p[.. k]), Elems(q[.. i]), q[i]);
      }
    }
  }

  /** Revealing more cells keeps settled every zero-count cell revealed since
      r0, given that those revealed by the last step are settled. */
  lemma SettleStep(n: int, m: set<Coord>, flagged: set<Coord>, r0: set<Coord>, before: set<Coord>, after: set<Coord>)
    requires r0 <= before <= after
    requires forall d :: d in before - r0 && Empty(m, d) ==> Settled(n, m, flagged, before, d)
    requires forall d :: d in after - before && Empty(m, d) ==> Settled(n, m, flagged, after, d)
    ensures forall d :: d in after - r0 && Empty(m, d) ==> Settled(n, m, flagged, after, d)
  {
    forall d | d in after - r0 && Empty(m, d)
      ensures Settled(n, m, flagged, after, d)
    {
      if d in before {
        SettledGrows(n, m, flagged, before, after, d);
      }
    }
  }

  /** The click on o reveals o (set r1 = r0 + {o}) and the cascade from o
      then reveals after - r1. What the cascade guarantees about the cells it
      revealed carries over to all the cells revealed since r0. */
  lemma RootStep(n: int, m: set<Coord>, flagged: set<Coord>, r0: set<Coord>, after: set<Coord>, o: Coord)
    requires o !in r0 && r0 + {o} <= after && o !in flagged
    requires Empty(m, o) && Settled(n, m, flagged, after, o)
    requires forall d :: d in after - (r0 + {o}) && Empty(m, d) ==> Settled(n, m, flagged, after, d)
    requires forall d :: d in after - (r0 + {o}) ==> d !in flagged || !Empty(m, d)
    ensures after - (r0 + {o}) + {o} == after - r0
    ensures forall d :: d in after - r0 && Empty(m, d) ==> Settled(n, m, flagged, after, d)
    ensures forall d :: d in after - r0 ==> d !in flagged || !Empty(m, d)
  {
    assert after - (r0 + {o}) + {o} == after - r0;
  }

  /** Cell o[i] of a chained order lies in every set s that holds o[0] and
      leaves each of its zero-count cells settled, as long as no cell of o
      was revealed before (r0) or is a flagged zero-count cell. */
  lemma {:induction false} ChainInside(n: int, m: set<Coord>, flagged: set<Coord>, r0: set<Coord>,
                                       o: seq<Coord>, s: set<Coord>, i: int)
    requires 0 <= i < |o| && Chained(n, m, o) && o[0] in s
    requires Elems(o) !! r0
    requires forall d :: d in Elems(o) ==> d !in flagged || !Empty(m, d)
    requires forall d :: d in s && Empty(m, d) ==> Settled(n, m, flagged, r0 + s, d)
    ensures o[i] in s
    decreases i
  {
    if i > 0 {
      assert Reached(n, m, Elems(o[.. i]), o[i]);
      var d :| d in Elems(o[.. i]) && Empty(m, d) && o[i] in SurroundingCells(n, d.x, d.y);
      assert d in o[.. i];
      var j :| 0 <= j < i && o[j] == d;
      ChainInside(n, m, flagged, r0, o, s, j);
      assert Covered(m, flagged, r0 + s, o[i]);
      assert o[i] in Elems(o);
    }
  }

  /** The contract of `click` fixes the cells it reveals: two chained orders
      from the same root that reveal only hidden cells, no flagged zero-count
      cell, and leave every zero-count cell they reveal settled, list the same
      cells. So neither can stretch past a wall of bombs or of flagged
      zero-count cells. */
  lemma CascadeDetermined(n: int, m: set<Coord>, flagged: set<Coord>, r0: set<Coord>,
                          o1: seq<Coord>, o2: seq<Coord>)
    requires o1 != [] && o2 != [] && o1[0] == o2[0]
    requires Chained(n, m, o1) && Chained(n, m, o2)
    requires Elems(o1) !! r0 && Elems(o2) !! r0
    requires forall d :: d in Elems(o1) ==> d !in flagged || !Empty(m, d)
    requires forall d :: d in Elems(o2) ==> d !in flagged || !Empty(m, d)
    requires forall d :: d in Elems(o1) && Empty(m, d) ==> Settled(n, m, flagged, r0 + Elems(o1), d)
    requires forall d :: d in Elems(o2) && Empty(m, d) ==> Settled(n, m, flagged, r0 + Elems(o2), d)
    ensures Elems(o1) == Elems(o2)
  {
    assert o1[0] in Elems(o2) && o2[0] in Elems(o1);
    forall d | d in Elems(o1)
      ensures d in Elems(o2)
    {
      var i :| 0 <= i < |o1| && o1[i] == d;
      ChainInside(n, m, flagged, r0, o1, Elems(o2), i);
    }
    forall d | d in Elems(o2)
      ensures d in Elems(o1)
    {
      var i :| 0 <= i < |o2| && o2[i] == d;
      ChainInside(n, m, flagged, r0, o2, Elems(o1), i);
    }
  }
}

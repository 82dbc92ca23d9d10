/** The board engine: the `columns` matrix of cells, the game-over flag, and
    the operations that construct the board, place the mines and answer
    the player's clicks. */
module Minesweeper {
  import opened Neighbourhood
  import opened Mines

  /** One cell record: its position, whether it holds a bomb, the bomb count
      of its window, and the two player-visible marks. */
  datatype Cell = Cell(x: int, y: int, bomb: bool, bombCount: nat, revealed: bool, flag: bool)

  /** The three presets of the difficulty dropdown. */
  datatype Difficulty = Easy | Medium | Hard

  function GridSizeOf(d: Difficulty): (n: nat)
    ensures 9 <= n <= 24
  {
    match d
    case Easy => 9
    case Medium => 16
    case Hard => 24
  }

  /** Every preset leaves at least one free cell, so placement can finish. */
  function BombsOf(d: Difficulty): (k: nat)
    ensures 0 < k < GridSizeOf(d) * GridSizeOf(d)
  {
    match d
    case Easy => 10
    case Medium => 40
    case Hard => 99
  }

  function Toggle(s: set<Coord>, c: Coord): (r: set<Coord>)
    ensures c in r <==> c !in s
    ensures forall d :: d != c ==> (d in r <==> d in s)
  {
    if c in s then s - {c} else s + {c}
  }

  class Board {
    /** The cell store: `columns[i, j]` is the cell at (i, j). */
    var columns: array2<Cell>
    var gridSize: nat
    var amountOfBombs: nat
    var gameHasStopped: bool

    /** The positions of the bombs, the revealed cells and the flagged cells. */
    ghost var mines: set<Coord>
    ghost var revealedSet: set<Coord>
    ghost var flagged: set<Coord>

    /** The matrix is gridSize × gridSize, every cell knows its own position,
        and the three marks agree with the ghost sets. */
    ghost predicate WellFormed()
      reads this`columns, this`gridSize, this`mines, this`revealedSet, this`flagged, columns
    {
      columns.Length0 == gridSize && columns.Length1 == gridSize
      && OnBoard(gridSize, mines) && OnBoard(gridSize, revealedSet) && OnBoard(gridSize, flagged)
      && (forall i, j {:trigger columns[i, j]} :: 0 <= i < gridSize && 0 <= j < gridSize ==>
            columns[i, j].x == i && columns[i, j].y == j
            && (columns[i, j].bomb <==> Coord(i, j) in mines)
            && (columns[i, j].revealed <==> Coord(i, j) in revealedSet)
            && (columns[i, j].flag <==> Coord(i, j) in flagged))
    }

    /** Every cell's bombCount is the number of bombs in its window. */
    ghost predicate Consistent()
      reads this`columns, this`gridSize, this`mines, this`revealedSet, this`flagged, columns
    {
      WellFormed()
      && forall i, j {:trigger columns[i, j]} :: 0 <= i < gridSize && 0 <= j < gridSize ==>
           columns[i, j].bombCount == WindowCount(mines, Coord(i, j))
    }

    /** A board in play: no bomb is revealed and amountOfBombs bombs lie on it. */
    ghost predicate Valid()
      reads this`columns, this`gridSize, this`mines, this`revealedSet, this`flagged, this`amountOfBombs, columns
    {
      Consistent() && revealedSet !! mines && |mines| == amountOfBombs
    }

    /** `click` on (x, y) gets past its guard. */
    ghost predicate Playable(x: int, y: int)
      reads this
    {
      !gameHasStopped && Coord(x, y) !in revealedSet && Coord(x, y) !in flagged
    }

    /** The initial state of the page: the easy preset, with the draws
        standing for the random numbers. */
    constructor (draws: seq<Coord>)
      requires forall d :: d in draws ==> InGrid(GridSizeOf(Easy), d)
      requires CanPlace(draws, {}, BombsOf(Easy))
      ensures Valid() && !gameHasStopped
      ensures gridSize == GridSizeOf(Easy) && amountOfBombs == BombsOf(Easy)
      ensures mines == Place(draws, {}, BombsOf(Easy))
      ensures revealedSet == {} && flagged == {}
    {
      columns := new Cell[0, 0];
      gridSize, amountOfBombs, gameHasStopped := GridSizeOf(Easy), BombsOf(Easy), false;
      mines, revealedSet, flagged := {}, {}, {};
      new;
      InitGame(GridSizeOf(Easy), BombsOf(Easy), draws);
    }

    /** A fresh n × n matrix of unmined, hidden, unflagged cells. */
    method Init(n: nat)
      modifies this
      ensures fresh(columns) && gridSize == n
      ensures Consistent()
      ensures mines == {} && revealedSet == {} && flagged == {}
      ensures forall i, j {:trigger columns[i, j]} :: 0 <= i < n && 0 <= j < n ==> columns[i, j] == Cell(i, j, false, 0, false, false)
      ensures amountOfBombs == old(amountOfBombs) && gameHasStopped == old(gameHasStopped)
    {
      var a := new Cell[n, n];
      for i := 0 to n
        modifies a
        invariant forall p, q {:trigger a[p, q]} :: 0 <= p < i && 0 <= q < n ==> a[p, q] == Cell(p, q, false, 0, false, false)
      {
        for j := 0 to n
          modifies a
          invariant forall p, q {:trigger a[p, q]} :: 0 <= p < i && 0 <= q < n ==> a[p, q] == Cell(p, q, false, 0, false, false)
          invariant forall q :: 0 <= q < j ==> a[i, q] == Cell(i, q, false, 0, false, false)
        {
          a[i, j] := Cell(i, j, false, 0, false, false);
        }
      }
      columns, gridSize := a, n;
      mines, revealedSet, flagged := {}, {}, {};
      forall i, j | 0 <= i < n && 0 <= j < n
        ensures WindowCount({}, Coord(i, j)) == 0
      {
        assert (set d: Coord | d in {} && Adjacent(Coord(i, j), d)) == {};
      }
    }

    /** main.js:159: every cell of the window ws counts one more bomb. */
    method IncrementCounts(ws: seq<Coord>)
      requires columns.Length0 == gridSize && columns.Length1 == gridSize
      requires NoDuplicates(ws) && forall c :: c in ws ==> InGrid(gridSize, c)
      modifies columns
      ensures forall i, j {:trigger columns[i, j]} :: 0 <= i < gridSize && 0 <= j < gridSize ==>
        columns[i, j] == old(columns[i, j]).(bombCount := old(columns[i, j].bombCount) + if Coord(i, j) in ws then 1 else 0)
    {
      ghost var done: set<Coord> := {};
      for t := 0 to |ws|
        invariant forall c :: c in done <==> c in ws[.. t]
        invariant forall i, j {:trigger columns[i, j]} :: 0 <= i < gridSize && 0 <= j < gridSize ==>
          columns[i, j] == old(columns[i, j]).(bombCount := old(columns[i, j].bombCount) + if Coord(i, j) in done then 1 else 0)
      {
        var c := ws[t];
        assert c in ws;
        assert ws[.. t + 1] == ws[.. t] + [c];
        assert c !in done;
        columns[c.x, c.y] := columns[c.x, c.y].(bombCount := columns[c.x, c.y].bombCount + 1);
        done := done + {c};
      }
      assert ws[.. |ws|] == ws;
    }

    /** main.js:158-161: a bomb lands on the free cell c; every cell of its
        window, c itself included, counts one more bomb. */
    method AddBomb(c: Coord)
      requires Consistent() && InGrid(gridSize, c) && c !in mines
      modifies columns, this`mines
      ensures Consistent()
      ensures mines == old(mines) + {c}
    {
      var ws := SurroundingCells(gridSize, c.x, c.y);
      SurroundingCellsSpec(gridSize, c.x, c.y);
      IncrementCounts(ws);
      columns[c.x, c.y] := columns[c.x, c.y].(bomb := true);
      mines := mines + {c};
      forall i, j | 0 <= i < gridSize && 0 <= j < gridSize
        ensures columns[i, j].bombCount == WindowCount(mines, Coord(i, j))
      {
        CountAddMine(gridSize, old(mines), c, Coord(i, j));
      }
    }

    /** `createBombs`: draws are taken in order until k new bombs are placed;
        a draw on a bomb is rejected without using up the count. The loop
        only ends when the draws suffice, which the caller guarantees. */
    method CreateBombs(k: nat, draws: seq<Coord>)
      requires Consistent()
      requires forall t :: 0 <= t < |draws| ==> InGrid(gridSize, draws[t])
      requires CanPlace(draws, mines, k)
      modifies columns, this`mines
      ensures Consistent()
      ensures mines == Place(draws, old(mines), k)
    {
      var remaining, i := k, 0;
      ghost var placed, target := mines, Place(draws, mines, k);
      while remaining > 0
        invariant Consistent() && mines == placed
        invariant 0 <= i <= |draws|
        invariant CanPlace(draws[i ..], placed, remaining)
        invariant Place(draws[i ..], placed, remaining) == target
        decreases |draws| - i
      {
        PlaceNext(draws, i, placed, remaining);
        var c := draws[i];
        var hit := columns[c.x, c.y].bomb;
        assert hit <==> c in placed by {
          assert c == Coord(c.x, c.y);
        }
        if !hit {
          AddBomb(c);
          remaining, placed := remaining - 1, placed + {c};
        }
        i := i + 1;
      }
    }

    /** `initGame`: a new matrix of size n with k bombs. */
    method InitGame(n: nat, k: nat, draws: seq<Coord>)
      requires forall d :: d in draws ==> InGrid(n, d)
      requires CanPlace(draws, {}, k)
      modifies this
      ensures Valid() && fresh(columns) && !gameHasStopped
      ensures gridSize == n && amountOfBombs == k
      ensures mines == Place(draws, {}, k)
      ensures revealedSet == {} && flagged == {}
    {
      gameHasStopped := false;
      Init(n);
      amountOfBombs := k;
      CreateBombs(k, draws);
      PlaceAddsExactly(draws, {}, k);
    }

    /** The restart button and the difficulty dropdown: a new game with the
        chosen preset. */
    method Restart(level: Difficulty, draws: seq<Coord>)
      requires forall d :: d in draws ==> InGrid(GridSizeOf(level), d)
      requires CanPlace(draws, {}, BombsOf(level))
      modifies this
      ensures Valid() && fresh(columns) && !gameHasStopped
      ensures gridSize == GridSizeOf(level) && amountOfBombs == BombsOf(level)
      ensures mines == Place(draws, {}, BombsOf(level))
      ensures revealedSet == {} && flagged == {}
    {
      InitGame(GridSizeOf(level), BombsOf(level), draws);
    }

    /** `reveal`: marks the cell revealed; a revealed cell is left as it is.
        The flag is neither checked nor cleared. */
    method Reveal(x: int, y: int)
      requires Consistent() && InGrid(gridSize, Coord(x, y))
      modifies columns, this`revealedSet
      ensures Consistent()
      ensures revealedSet == old(revealedSet) + {Coord(x, y)}
    {
      if columns[x, y].revealed {
        return;
      }
      columns[x, y] := columns[x, y].(revealed := true);
      revealedSet := revealedSet + {Coord(x, y)};
    }

    /** `rightClick`: toggles the flag of a hidden cell while the game runs. */
    method RightClick(x: int, y: int)
      requires Valid() && InGrid(gridSize, Coord(x, y))
      modifies columns, this`flagged
      ensures Valid()
      ensures flagged ==
        if old(Coord(x, y) !in revealedSet && !gameHasStopped) then Toggle(old(flagged), Coord(x, y))
        else old(flagged)
    {
      if !columns[x, y].revealed && !gameHasStopped {
        columns[x, y] := columns[x, y].(flag := !columns[x, y].flag);
        flagged := Toggle(flagged, Coord(x, y));
      }
    }

    /** The counting loop of `checkIfWin`: the number of revealed cells. */
    method CountRevealed() returns (counter: nat)
      requires WellFormed()
      ensures counter == |revealedSet|
    {
      counter := 0;
      ghost var seen: set<Coord> := {};
      for i := 0 to gridSize
        invariant forall c :: c in seen <==> c in revealedSet && c.x < i
        invariant counter == |seen|
      {
        for j := 0 to gridSize
          invariant forall c :: c in seen <==> c in revealedSet && (c.x < i || (c.x == i && c.y < j))
          invariant counter == |seen|
        {
          if columns[i, j].revealed {
            seen := seen + {Coord(i, j)};
            counter := counter + 1;
          }
        }
      }
      assert seen == revealedSet;
    }

    /** `checkIfWin`: the game stops once the revealed cells number
        gridSize * gridSize - amountOfBombs. */
    method CheckIfWin()
      requires WellFormed()
      modifies this`gameHasStopped
      ensures gameHasStopped == (old(gameHasStopped) || |revealedSet| == gridSize * gridSize - amountOfBombs)
    {
      var counter := CountRevealed();
      if counter == gridSize * gridSize - amountOfBombs {
        gameHasStopped := true;
      }
    }

    /** `showRemainingBombs`, as a query: the bomb positions in row-major order. */
    method ShowRemainingBombs() returns (bombs: seq<Coord>)
      requires WellFormed()
      ensures forall c :: c in bombs <==> c in mines
      ensures RowMajor(bombs)
    {
      bombs := [];
      for i := 0 to gridSize
        invariant forall c :: c in bombs <==> c in mines && c.x < i
        invariant RowMajor(bombs)
        invariant forall k :: 0 <= k < |bombs| ==> bombs[k].x < i
      {
        for j := 0 to gridSize
          invariant forall c :: c in bombs <==> c in mines && (c.x < i || (c.x == i && c.y < j))
          invariant RowMajor(bombs)
          invariant forall k :: 0 <= k < |bombs| ==> Before(bombs[k], Coord(i, j))
        {
          if columns[i, j].bomb {
            bombs := bombs + [Coord(i, j)];
          }
        }
      }
    }

    /** `click`: nothing happens on a revealed or flagged cell or once the game
        has stopped. A bomb stops the game and reveals nothing. Any other cell
        is revealed and, when its window holds no bomb, the cascade runs from
        it. The win test runs at the end of every click that got past the
        guard, nested ones included. The ghost result lists the newly revealed
        cells in an order in which the cascade can reach them. */
    method Click(x: int, y: int) returns (ghost order: seq<Coord>)
      requires Valid() && InGrid(gridSize, Coord(x, y))
      modifies columns, this`revealedSet, this`gameHasStopped
      decreases Grid(gridSize) - revealedSet, 0
      ensures Valid()
      ensures old(revealedSet) <= revealedSet
      ensures old(gameHasStopped) ==> gameHasStopped
      ensures !old(Playable(x, y)) ==>
        revealedSet == old(revealedSet) && gameHasStopped == old(gameHasStopped)
      ensures old(Playable(x, y)) && Coord(x, y) in mines ==>
        revealedSet == old(revealedSet) && gameHasStopped
      ensures old(Playable(x, y)) && Coord(x, y) !in mines ==>
        Coord(x, y) in revealedSet
        && (gameHasStopped <==> |revealedSet| == gridSize * gridSize - amountOfBombs)
      ensures old(Playable(x, y)) && Coord(x, y) !in mines && !Empty(mines, Coord(x, y)) ==>
        revealedSet == old(revealedSet) + {Coord(x, y)}
      ensures Elems(order) == revealedSet - old(revealedSet)
      ensures order == [] || order[0] == Coord(x, y)
      ensures Chained(gridSize, mines, order)
      ensures forall c :: c in revealedSet - old(revealedSet) && Empty(mines, c) ==>
        Settled(gridSize, mines, flagged, revealedSet, c)
      ensures forall c :: c in revealedSet - old(revealedSet) ==>
        c !in flagged || !Empty(mines, c)
    {
      order := [];
      var cell := columns[x, y];
      if cell.revealed || gameHasStopped || cell.flag {
        return;
      }
      if cell.bomb {
        gameHasStopped := true;
      } else {
        Reveal(x, y);
        if cell.bombCount == 0 {
          OnGrid(gridSize, Coord(x, y));
          order := Cascade(x, y);
          RootStep(gridSize, mines, flagged, old(revealedSet), revealedSet, Coord(x, y));
        } else {
          order := [Coord(x, y)];
        }
      }
      CheckIfWin();
    }

    /** The cascade of `click` (main.js:92-98) from a revealed cell (x, y)
        whose window holds no bomb. Each cell of the window, in the order
        `getSurroundingCells` lists them, is clicked when its own count is 0
        and revealed otherwise; a flagged cell with a nonzero count is
        revealed all the same. The ghost result lists (x, y) and then the
        cells the cascade revealed, each found from an earlier one. */
    method Cascade(x: int, y: int) returns (ghost order: seq<Coord>)
      requires Valid() && InGrid(gridSize, Coord(x, y)) && !gameHasStopped
      requires Coord(x, y) in revealedSet && Empty(mines, Coord(x, y))
      modifies columns, this`revealedSet, this`gameHasStopped
      decreases Grid(gridSize) - revealedSet, 2
      ensures Valid() && old(revealedSet) <= revealedSet
      ensures gameHasStopped ==> |revealedSet| == gridSize * gridSize - amountOfBombs
      ensures Settled(gridSize, mines, flagged, revealedSet, Coord(x, y))
      ensures |order| > 0 && order[0] == Coord(x, y)
      ensures Elems(order) == revealedSet - old(revealedSet) + {Coord(x, y)}
      ensures Chained(gridSize, mines, order)
      ensures forall c :: c in revealedSet - old(revealedSet) && Empty(mines, c) ==>
        Settled(gridSize, mines, flagged, revealedSet, c)
      ensures forall c :: c in revealedSet - old(revealedSet) ==>
        c !in flagged || !Empty(mines, c)
    {
      var ws := SurroundingCells(gridSize, x, y);
      SurroundingCellsSpec(gridSize, x, y);
      EmptyHasNoMineAround(gridSize, mines, Coord(x, y));
      order := [Coord(x, y)];
      assert Elems(order) == {Coord(x, y)};
      for t := 0 to |ws|
        invariant Valid() && old(revealedSet) <= revealedSet
        invariant gameHasStopped ==> |revealedSet| == gridSize * gridSize - amountOfBombs
        invariant forall k :: 0 <= k < t ==> Covered(mines, flagged, revealedSet, ws[k])
        invariant |order| > 0 && order[0] == Coord(x, y)
        invariant Elems(order) == revealedSet - old(revealedSet) + {Coord(x, y)}
        invariant Chained(gridSize, mines, order)
        invariant forall c :: c in revealedSet - old(revealedSet) && Empty(mines, c) ==>
          Settled(gridSize, mines, flagged, revealedSet, c)
        invariant forall c :: c in revealedSet - old(revealedSet) ==>
          c !in flagged || !Empty(mines, c)
      {
        var c := ws[t];
        ghost var before := revealedSet;
        assert c in ws && Near(gridSize, x, y, c);
        var found := Visit(c.x, c.y);
        assert c == Coord(c.x, c.y);
        forall k | 0 <= k < t + 1
          ensures Covered(mines, flagged, revealedSet, ws[k])
        {
          if k < t {
            CoveredGrows(mines, flagged, before, revealedSet, ws[k]);
          }
        }
        ChainStep(gridSize, mines, order, found);
        order := order + found;
        SettleStep(gridSize, mines, flagged, old(revealedSet), before, revealedSet);
      }
      assert Settled(gridSize, mines, flagged, revealedSet, Coord(x, y));
    }

    /** One cell (x, y) of a cascade's window (main.js:96), which holds no
        bomb: it is clicked when its own count is 0 and revealed otherwise.
        Afterwards the cell is revealed, or it is a flagged zero-count cell
        the click ignored. The ghost result lists the newly revealed cells,
        (x, y) first. */
    method Visit(x: int, y: int) returns (ghost order: seq<Coord>)
      requires Valid() && InGrid(gridSize, Coord(x, y)) && Coord(x, y) !in mines
      requires gameHasStopped ==> |revealedSet| == gridSize * gridSize - amountOfBombs
      modifies columns, this`revealedSet, this`gameHasStopped
      decreases Grid(gridSize) - revealedSet, 1
      ensures Valid() && old(revealedSet) <= revealedSet
      ensures gameHasStopped ==> |revealedSet| == gridSize * gridSize - amountOfBombs
      ensures Covered(mines, flagged, revealedSet, Coord(x, y))
      ensures !Empty(mines, Coord(x, y)) ==> revealedSet == old(revealedSet) + {Coord(x, y)}
      ensures Elems(order) == revealedSet - old(revealedSet)
      ensures order == [] || order[0] == Coord(x, y)
      ensures Chained(gridSize, mines, order)
      ensures forall c :: c in revealedSet - old(revealedSet) && Empty(mines, c) ==>
        Settled(gridSize, mines, flagged, revealedSet, c)
      ensures forall c :: c in revealedSet - old(revealedSet) ==>
        c !in flagged || !Empty(mines, c)
    {
      GridSize(gridSize);
      AllSafeRevealed(gridSize, mines, revealedSet);
      assert gameHasStopped ==> Coord(x, y) in revealedSet by {
        assert Coord(x, y) in Grid(gridSize);
      }
      if columns[x, y].bombCount == 0 {
        order := Click(x, y);
      } else {
        order := if Coord(x, y) in revealedSet then [] else [Coord(x, y)];
        Reveal(x, y);
        assert gameHasStopped ==> revealedSet == old(revealedSet);
        assert Elems(order) == revealedSet - old(revealedSet);
      }
    }
  }
}

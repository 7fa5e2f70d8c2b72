/**
 * The board and round logic of the TheGame class (game.js:46-614), without
 * its sprites, tweens and texts. The board is tilesArray, an N x N array
 * indexed [row, col]; a cell's coordinate is Point(col, row).
 */
module Game {
  import opened Cells
  import opened Columns
  import opened Regions
  import opened Gravity

  /** What replayGame did about the Key and LockedDoor markers. */
  datatype Placement =
    | NoMarkers                                  // the difficulty gate was closed
    | Markers(key: Point, door: Point)
    | OutOfCandidates(keyPlaced: Option<Point>)  // removeRandomItem found the list empty
  {
    /** Where a Key was placed, if anywhere. */
    function KeyAt(): Option<Point> {
      match this
      case NoMarkers => None
      case Markers(key, _) => Some(key)
      case OutOfCandidates(k) => k
    }

    /** Where a LockedDoor was placed, if anywhere. */
    function DoorAt(): Option<Point> {
      if Markers? then Some(door) else None
    }
  }

  class TheGame {
    /** tilesArray: tiles[row, col]. */
    const tiles: array2<Cell>
    /** The region collected by the last flood fill. */
    var filled: seq<Point>
    /** Whether a pick is accepted now. */
    var canPick: bool
    /** False from destroyTiles until the settle delay has elapsed. */
    var finishAnimation: bool
    /** Remaining ticks of the countdown. */
    var gameTime: int
    var levelCount: int
    var score: int
    var heroLocation: Point
    /** Positions still free for a marker. */
    var specialItemCandidates: seq<Point>
    /** Whether the countdown interval is running (setInterval until clearInterval). */
    var timerRunning: bool

    ghost predicate Valid()
      reads this, tiles
    {
      && tiles.Length0 == N && tiles.Length1 == N
      && (forall y, x :: 0 <= y < N && 0 <= x < N ==> tiles[y, x].coordinate == Point(x, y))
      && 0 <= gameTime <= GameTime
      && 1 <= levelCount
      && 0 <= score
      && InBounds(heroLocation)
      && Distinct(specialItemCandidates)
      && heroLocation !in specialItemCandidates
      && (forall k :: 0 <= k < |specialItemCandidates| ==> InBounds(specialItemCandidates[k]))
    }

    /** The board column by column: Grid()[x][y] is tiles[y, x]. */
    ghost function Grid(): (g: Board)
      reads tiles
      requires tiles.Length0 == N && tiles.Length1 == N
      ensures WellFormed(g)
      ensures forall x, y :: 0 <= x < N && 0 <= y < N ==> g[x][y] == tiles[y, x]
    {
      seq(N, x requires 0 <= x < N reads tiles =>
        seq(N, y requires 0 <= y < N reads tiles => tiles[y, x]))
    }

    /**
     * The board loops of createMatrix (game.js:111-121): row by row, column by
     * column, addTile gives every cell a tile value from draws and the
     * position is pushed onto the marker candidates.
     */
    static method CreateMatrix(draws: seq<int>) returns (t: array2<Cell>, cands: seq<Point>)
      requires |draws| == N * N
      ensures fresh(t) && t.Length0 == N && t.Length1 == N
      ensures forall y, x :: 0 <= y < N && 0 <= x < N ==>
        t[y, x] == Cell(false, draws[y * N + x], Point(x, y))
      ensures Distinct(cands) && |cands| == N * N
      ensures forall p :: p in cands <==> InBounds(p)
    {
      t := new Cell[N, N];
      cands := [];
      var i := 0;
      while i < N
        invariant 0 <= i <= N && |cands| == i * N
        invariant forall y, x :: 0 <= y < i && 0 <= x < N ==>
          t[y, x] == Cell(false, draws[y * N + x], Point(x, y))
        invariant Distinct(cands)
        invariant forall k :: 0 <= k < |cands| ==> InBounds(cands[k]) && cands[k].y < i
        invariant forall p :: InBounds(p) && p.y < i ==> p in cands
      {
        var j := 0;
        while j < N
          invariant 0 <= j <= N && |cands| == i * N + j
          invariant forall y, x :: 0 <= y < N && 0 <= x < N && Before(Point(x, y), Point(j, i)) ==>
            t[y, x] == Cell(false, draws[y * N + x], Point(x, y))
          invariant Distinct(cands)
          invariant forall k :: 0 <= k < |cands| ==> InBounds(cands[k]) && Before(cands[k], Point(j, i))
          invariant forall p :: InBounds(p) && Before(p, Point(j, i)) ==> p in cands
        {
          t[i, j] := Cell(false, draws[i * N + j], Point(j, i));
          cands := cands + [Point(j, i)];
          j := j + 1;
        }
        i := i + 1;
      }
    }

    /**
     * create() with createMatrix() and createLevel() (game.js:72-193): the
     * board from CreateMatrix, then the Hero position is removed from the
     * candidates at index heroPick % |candidates| (removeRandomItem); the
     * Hero cell keeps its tile value.
     */
    constructor (draws: seq<int>, heroPick: nat)
      requires |draws| == N * N
      requires forall k :: 0 <= k < |draws| ==> 0 <= draws[k] < TileKinds
      ensures Valid()
      ensures forall y, x :: 0 <= y < N && 0 <= x < N ==>
        tiles[y, x] == Cell(false, draws[y * N + x], Point(x, y))
      ensures forall p :: InBounds(p) ==> (p in specialItemCandidates <==> p != heroLocation)
      ensures |specialItemCandidates| == N * N - 1
      ensures filled == [] && !canPick && finishAnimation && !timerRunning
      ensures score == 0 && levelCount == 1 && gameTime == GameTime
    {
      var t, cands := CreateMatrix(draws);
      var idx := heroPick % |cands|;
      tiles := t;
      heroLocation := cands[idx];
      specialItemCandidates := RemoveAt(cands, idx);
      filled := [];
      score := 0;
      gameTime := GameTime;
      canPick := false;
      finishAnimation := true;
      levelCount := 1;
      timerRunning := false;
    }

    /**
     * countSpacesBelow (game.js:474-482): the holes of column col below row
     * `row`; with row == -1, the holes of the whole column.
     */
    method CountSpacesBelow(row: int, col: int) returns (result: nat)
      requires tiles.Length0 == N && tiles.Length1 == N
      requires -1 <= row && 0 <= col < N
      ensures result == if row + 1 < N then Holes(Grid()[col][row + 1..]) else 0
      ensures row < N ==> result <= N - 1 - row
    {
      ghost var c := Grid()[col];
      result := 0;
      var i := row + 1;
      while i < N
        invariant row + 1 <= i && (i <= N || i == row + 1)
        invariant i <= N ==> result + Holes(c[i..]) == Holes(c[row + 1..])
        invariant i > N ==> result == 0
      {
        assert c[i..][1..] == c[i + 1..];
        if tiles[i, col].isEmpty {
          result := result + 1;
        }
        i := i + 1;
      }
    }

    /**
     * tilesInColumn (game.js:547-555): the tiles of column col. Together with
     * countSpacesBelow(-1, col) it accounts for every cell of the column.
     */
    method TilesInColumn(col: int) returns (result: nat)
      requires tiles.Length0 == N && tiles.Length1 == N && 0 <= col < N
      ensures result == Tiles(Grid()[col])
      ensures result + Holes(Grid()[col]) == N
    {
      ghost var c := Grid()[col];
      result := 0;
      var i := 0;
      while i < N
        invariant 0 <= i <= N
        invariant result + Tiles(c[i..]) == Tiles(c)
      {
        assert c[i..][1..] == c[i + 1..];
        if !tiles[i, col].isEmpty {
          result := result + 1;
        }
        i := i + 1;
      }
      HolesAndTiles(c);
    }

    /** pointInArray (game.js:601-608): whether p is already in filled. */
    method PointInArray(p: Point) returns (found: bool)
      ensures found <==> p in filled
    {
      var i := 0;
      while i < |filled|
        invariant 0 <= i <= |filled|
        invariant p !in filled[..i]
      {
        if filled[i].x == p.x && filled[i].y == p.y {
          return true;
        }
        i := i + 1;
      }
      return false;
    }

    /**
     * findItem (game.js:571-579): the first cell in row-major order whose
     * value is the marker value of kind `item`, if any.
     */
    method FindItem(item: int) returns (r: Option<Cell>)
      requires Valid()
      ensures r.Some? ==>
        var p := r.value.coordinate;
        && InBounds(p) && tiles[p.y, p.x] == r.value
        && r.value.value == SpecialOffset + item
        && forall y, x :: 0 <= y < N && 0 <= x < N && Before(Point(x, y), p) ==>
             tiles[y, x].value != SpecialOffset + item
      ensures r.None? ==>
        forall y, x :: 0 <= y < N && 0 <= x < N ==> tiles[y, x].value != SpecialOffset + item
    {
      var i := 0;
      while i < N
        invariant 0 <= i <= N
        invariant forall y, x :: 0 <= y < i && 0 <= x < N ==> tiles[y, x].value != SpecialOffset + item
      {
        var j := 0;
        while j < N
          invariant 0 <= j <= N
          invariant forall y, x :: 0 <= y < N && 0 <= x < N && Before(Point(x, y), Point(j, i)) ==>
            tiles[y, x].value != SpecialOffset + item
        {
          if tiles[i, j].value == SpecialOffset + item {
            return Some(tiles[i, j]);
          }
          j := j + 1;
        }
        i := i + 1;
      }
      return None;
    }

    /**
     * floodFill (game.js:587-598): appends to filled every position reachable
     * from p through 4-neighbours that are occupied and hold value n, skipping
     * positions already in filled (pointInArray). Positions off the board stop
     * the recursion.
     */
    method FloodFill(p: Point, n: int)
      requires tiles.Length0 == N && tiles.Length1 == N
      requires Sound(Grid(), filled, n) && Distinct(filled)
      modifies this`filled
      decreases Unvisited(filled), 2
      ensures Sound(Grid(), filled, n) && Distinct(filled)
      ensures FillResult(Grid(), old(filled), filled, p, n)
    {
      if p.x < 0 || p.y < 0 || p.x >= N || p.y >= N {
        return;
      }
      if !tiles[p.y, p.x].isEmpty && tiles[p.y, p.x].value == n {
        var seen := PointInArray(p);
        if !seen {
          Spread(p, n);
          FillDone(Grid(), old(filled), p, n, filled);
        }
      }
    }

    /**
     * The body of floodFill once p has passed its test (game.js:592-596):
     * push p, then recurse on its four neighbours in the order +x, -x, +y, -y.
     */
    method Spread(p: Point, n: int)
      requires tiles.Length0 == N && tiles.Length1 == N
      requires Sound(Grid(), filled, n) && Distinct(filled)
      requires Matches(Grid(), p, n) && p !in filled
      modifies this`filled
      decreases Unvisited(filled), 1
      ensures Sound(Grid(), filled, n) && Distinct(filled)
      ensures FillProgress(Grid(), old(filled), p, n, filled, 4)
    {
      ghost var start := filled;
      filled := filled + [p];
      Visit(p, n, 0, start);
      Visit(p, n, 1, start);
      Visit(p, n, 2, start);
      Visit(p, n, 3, start);
    }

    /** One of the recursive calls of floodFill (game.js:593-596): on the m-th neighbour of p. */
    method Visit(p: Point, n: int, m: nat, ghost start: seq<Point>)
      requires tiles.Length0 == N && tiles.Length1 == N && m < 4
      requires Sound(Grid(), filled, n) && Distinct(filled)
      requires InBounds(p) && p !in start && FillProgress(Grid(), start, p, n, filled, m)
      modifies this`filled
      decreases Unvisited(start), 0
      ensures Sound(Grid(), filled, n) && Distinct(filled)
      ensures FillProgress(Grid(), start, p, n, filled, m + 1)
    {
      ghost var f := filled;
      UnvisitedShrinks(start, filled, p);
      FloodFill(Neighbours(p)[m], n);
      FillAdvance(Grid(), start, p, n, f, filled, m);
    }

    /** pickTile from its bounds check on (game.js:329-349), given the picked row and column. */
    method PickTile(row: int, col: int) returns (removed: bool, ghost region: seq<Point>)
      requires Valid()
      modifies this, tiles
      ensures Valid()
      ensures var picked := old(canPick) && 0 <= row < N && 0 <= col < N;
        && (removed <==> picked && |region| > 2)
        && (!picked ==> unchanged(this) && unchanged(tiles))
        && (picked ==> IsRegion(old(Grid()), region, Point(col, row), old(tiles[row, col].value)))
        && (picked && !removed ==> filled == region && unchanged(tiles))
      ensures removed ==> !canPick && !finishAnimation && filled == []
      ensures !removed ==> canPick == old(canPick) && finishAnimation == old(finishAnimation)
      ensures removed ==> forall y, x :: 0 <= y < N && 0 <= x < N ==>
        tiles[y, x] == if Point(x, y) in region then old(tiles[y, x]).(isEmpty := true) else old(tiles[y, x])
      ensures score == old(score) && gameTime == old(gameTime) && levelCount == old(levelCount)
      ensures heroLocation == old(heroLocation) && timerRunning == old(timerRunning)
      ensures specialItemCandidates == old(specialItemCandidates)
    {
      removed, region := false, [];
      if canPick {
        if row >= 0 && col >= 0 && row < N && col < N {
          var pickedTile := tiles[row, col];
          filled := [];
          FloodFill(pickedTile.coordinate, pickedTile.value);
          region := filled;
          if |filled| > 2 {
            canPick := false;
            removed := true;
            DestroyTiles();
          }
        }
      }
    }

    /**
     * destroyTiles (game.js:354-389): shifts every position out of filled and
     * marks its cell empty. The source's do-while takes an element before
     * testing, so it needs a non-empty filled; its only caller passes more
     * than two.
     */
    method DestroyTiles()
      requires Valid() && |filled| > 0
      requires forall k :: 0 <= k < |filled| ==> InBounds(filled[k])
      modifies this`filled, this`finishAnimation, tiles
      ensures Valid() && filled == [] && !finishAnimation
      ensures forall y, x :: 0 <= y < N && 0 <= x < N ==>
        tiles[y, x] == if Point(x, y) in old(filled) then old(tiles[y, x]).(isEmpty := true) else old(tiles[y, x])
    {
      ghost var f0 := filled;
      finishAnimation := false;
      while |filled| > 0
        invariant Valid() && !finishAnimation
        invariant |filled| <= |f0| && filled == f0[|f0| - |filled|..]
        invariant forall y, x :: 0 <= y < N && 0 <= x < N ==>
          tiles[y, x] == if Point(x, y) in f0[..|f0| - |filled|] then old(tiles[y, x]).(isEmpty := true) else old(tiles[y, x])
      {
        ghost var d := |f0| - |filled|;
        var element := filled[0];
        assert element == f0[d];
        filled := filled[1..];
        assert f0[..d + 1] == f0[..d] + [element];
        tiles[element.y, element.x] := tiles[element.y, element.x].(isEmpty := true);
      }
      assert f0[..|f0|] == f0;
    }

    /**
     * endMove (game.js:558-568): filled is cleared before it is tested, so
     * the destroyTiles branch can never run and input is always re-enabled.
     */
    method EndMove()
      requires Valid()
      modifies this`filled, this`canPick
      ensures Valid() && filled == [] && canPick
    {
      filled := [];
      if |filled| > 0 {
        assert false;
      } else {
        canPick := true;
      }
    }

    /**
     * The array part of moveDownTile (game.js:489-505) for an old tile: the
     * cell at (fromRow, fromCol) is rewritten at (toRow, fromCol) with its
     * value and its new coordinate, and the old cell is marked empty.
     */
    method MoveDownTile(fromRow: int, fromCol: int, toRow: int)
      requires Valid() && 0 <= fromRow < toRow < N && 0 <= fromCol < N
      modifies tiles
      ensures Valid()
      ensures Grid() == old(Grid())[fromCol := MoveDown(old(Grid())[fromCol], fromRow, toRow, fromCol)]
    {
      ghost var g := Grid();
      var tileValue := tiles[fromRow, fromCol].value;
      tiles[toRow, fromCol] := Cell(false, tileValue, Point(fromCol, toRow));
      tiles[fromRow, fromCol] := tiles[fromRow, fromCol].(isEmpty := true);
      assert Grid()[fromCol] == MoveDown(g[fromCol], fromRow, toRow, fromCol);
      forall x | 0 <= x < N && x != fromCol ensures Grid()[x] == g[x] {
        assert forall y :: 0 <= y < N ==> Grid()[x][y] == g[x][y];
      }
    }

    /**
     * One step of the gravity scan (game.js:401-414): an occupied cell at row
     * i of column j with holes below it falls by that many rows; `fell` says
     * whether it did. The scan state DropInvariant moves on to column j + 1.
     */
    method DropCell(i: int, j: int, ghost g0: Board, ghost moved: bool) returns (fell: bool)
      requires Valid() && 0 <= i < N - 1 && 0 <= j < N && WellFormed(g0)
      requires DropInvariant(g0, Grid(), i, j, moved)
      modifies tiles
      ensures Valid() && DropInvariant(g0, Grid(), i, j + 1, moved || fell)
      ensures var c := old(Grid())[j];
        && (fell <==> !c[i].isEmpty && Holes(c[i + 1..]) > 0)
        && (fell ==> var to := i + Holes(c[i + 1..]);
              to < N && c[to].isEmpty && Grid() == old(Grid())[j := MoveDown(c, i, to, j)])
        && (!fell ==> unchanged(tiles))
    {
      ghost var g := Grid();
      fell := false;
      if !tiles[i, j].isEmpty {
        var holesBelow := CountSpacesBelow(i, j);
        if holesBelow > 0 {
          DropFall(g0, g, i, j, moved);
          fell := true;
          MoveDownTile(i, j, i + holesBelow);
        } else {
          DropStay(g0, g, i, j, moved);
        }
      } else {
        DropStay(g0, g, i, j, moved);
      }
    }

    /** The inner loop of the gravity scan (game.js:398-416): row i, columns left to right. */
    method DropRow(i: int, ghost g0: Board, movedBefore: bool) returns (moved: bool)
      requires Valid() && 0 <= i < N - 1 && WellFormed(g0)
      requires DropInvariant(g0, Grid(), i, 0, movedBefore)
      modifies tiles
      ensures Valid() && DropInvariant(g0, Grid(), i - 1, 0, moved)
    {
      moved := movedBefore;
      var j := 0;
      while j < N
        invariant 0 <= j <= N && Valid()
        invariant DropInvariant(g0, Grid(), i, j, moved)
      {
        var fell := DropCell(i, j, g0, moved);
        moved := moved || fell;
        j := j + 1;
      }
    }

    /**
     * The first phase of fillVerticalHoles (game.js:395-417): rows N-2 up to
     * 0, columns left to right, every tile falls by the number of holes below
     * it. Afterwards no column has a hole under a tile, every column holds the
     * same tiles in the same top-to-bottom order, and `moved` tells whether any
     * column had a hole under a tile to begin with.
     */
    method DropTiles() returns (moved: bool)
      requires Valid()
      modifies tiles
      ensures Valid()
      ensures forall x :: 0 <= x < N ==> Settled(Grid()[x]) && Values(Grid()[x]) == Values(old(Grid())[x])
      ensures forall x, y :: 0 <= x < N && 0 <= y < N ==> (tiles[y, x].isEmpty <==> y < Holes(old(Grid())[x]))
      ensures moved <==> exists x :: 0 <= x < N && !Settled(old(Grid())[x])
    {
      ghost var g0 := Grid();
      moved := false;
      DropStart(g0);
      var i := N - 2;
      while i >= 0
        invariant -1 <= i <= N - 2 && Valid()
        invariant DropInvariant(g0, Grid(), i, 0, moved)
      {
        moved := DropRow(i, g0, moved);
        i := i - 1;
      }
      DropEnd(g0, Grid(), moved);
    }

    /** The assignment tilesArray[row][col] = cell, for a cell that carries its own position. */
    method SetTile(row: int, col: int, cell: Cell)
      requires Valid() && 0 <= row < N && 0 <= col < N && cell.coordinate == Point(col, row)
      modifies tiles
      ensures Valid()
      ensures Grid() == old(Grid())[col := old(Grid())[col][row := cell]]
    {
      ghost var g := Grid();
      tiles[row, col] := cell;
      assert Grid()[col] == g[col][row := cell];
      forall x | 0 <= x < N && x != col ensures Grid()[x] == g[x] {
        assert forall y :: 0 <= y < N ==> Grid()[x][y] == g[x][y];
      }
    }

    /**
     * The second phase of fillVerticalHoles (game.js:427-470): column by
     * column, the top `countSpacesBelow(-1, col)` rows are rewritten,
     * bottom-most first, as occupied cells with values taken in order from
     * draws (the game's random tile values).
     */
    method RefillColumns(draws: seq<int>)
      requires Valid() && |draws| >= N * N
      requires forall k :: 0 <= k < |draws| ==> 0 <= draws[k] < TileKinds
      modifies tiles
      ensures Valid()
      ensures forall x :: 0 <= x < N ==> Refilled(old(Grid())[x], Grid()[x], 0, Holes(old(Grid())[x]))
    {
      ghost var g0 := Grid();
      var cursor := 0;
      var i := 0;
      while i < N
        invariant 0 <= i <= N && 0 <= cursor <= i * N && Valid()
        invariant RefillInvariant(g0, Grid(), i) && (i < N ==> Grid()[i] == g0[i])
      {
        assert Grid()[i][0..] == g0[i];
        var topHoles := CountSpacesBelow(-1, i);
        ghost var c0 := cursor;
        var j: int := topHoles - 1;
        while j >= 0
          invariant -1 <= j < topHoles && cursor == c0 + (topHoles - 1 - j) && Valid()
          invariant RefillInvariant(g0, Grid(), i) && Refilled(g0[i], Grid()[i], j + 1, topHoles)
        {
          var tileValue := draws[cursor];
          cursor := cursor + 1;
          RefillStep(g0, Grid(), i, j, topHoles, tileValue);
          SetTile(j, i, Cell(false, tileValue, Point(i, j)));
          j := j - 1;
        }
        i := i + 1;
      }
    }

    /**
     * fillVerticalHoles (game.js:392-471): gravity, then endMove when nothing
     * fell, then the refill. Afterwards every column is replenished: full,
     * with its surviving tiles at the bottom in their old order under new
     * ordinary tiles.
     */
    method FillVerticalHoles(draws: seq<int>) returns (moved: bool)
      requires Valid() && |draws| >= N * N
      requires forall k :: 0 <= k < |draws| ==> 0 <= draws[k] < TileKinds
      modifies this, tiles
      ensures Valid()
      ensures forall x :: 0 <= x < N ==> Replenished(old(Grid())[x], Grid()[x])
      ensures moved <==> exists x :: 0 <= x < N && !Settled(old(Grid())[x])
      ensures !moved ==> canPick && filled == []
      ensures moved ==> canPick == old(canPick) && filled == old(filled)
      ensures finishAnimation == old(finishAnimation) && score == old(score) && gameTime == old(gameTime)
      ensures levelCount == old(levelCount) && heroLocation == old(heroLocation) && timerRunning == old(timerRunning)
      ensures specialItemCandidates == old(specialItemCandidates)
    {
      ghost var g0 := Grid();
      moved := DropTiles();
      ghost var g1 := Grid();
      if !moved {
        EndMove();
      }
      RefillColumns(draws);
      forall x | 0 <= x < N ensures Replenished(g0[x], Grid()[x]) {
        SettleThenRefill(g0[x], g1[x], Grid()[x]);
      }
    }

    /**
     * One do-while of replayGame (game.js:260-262, 269-271): removeRandomItem
     * takes the candidate at index picks[next] % |specialItemCandidates| out
     * of the list until one is not adjacent to the Hero. On an empty list
     * removeRandomItem yields null and isAdjacent fails on it: None.
     */
    method DrawAwayFromHero(picks: seq<nat>, from: nat) returns (loc: Option<Point>, next: nat)
      requires Valid() && from + |specialItemCandidates| <= |picks|
      modifies this`specialItemCandidates
      ensures Valid()
      ensures from <= next && next - from + |specialItemCandidates| == |old(specialItemCandidates)|
      ensures forall q :: q in specialItemCandidates ==> q in old(specialItemCandidates)
      ensures loc.Some? ==> loc.value in old(specialItemCandidates) && loc.value !in specialItemCandidates
      ensures loc.Some? ==> !IsAdjacent(heroLocation, loc.value)
      ensures loc.None? ==> specialItemCandidates == []
      ensures forall q :: q in old(specialItemCandidates) && q !in specialItemCandidates ==>
        loc == Some(q) || IsAdjacent(heroLocation, q)
      ensures |old(specialItemCandidates)| > 8 ==> loc.Some?
    {
      ghost var c0 := specialItemCandidates;
      next := from;
      while true
        invariant Valid() && from <= next && next - from + |specialItemCandidates| == |c0|
        invariant forall q :: q in specialItemCandidates ==> q in c0
        invariant forall q :: q in c0 && q !in specialItemCandidates ==> IsAdjacent(heroLocation, q)
        decreases |specialItemCandidates|
      {
        if |specialItemCandidates| == 0 {
          FewNear(c0, heroLocation);
          return None, next;
        }
        var k := picks[next] % |specialItemCandidates|;
        var item := specialItemCandidates[k];
        specialItemCandidates := RemoveAt(specialItemCandidates, k);
        next := next + 1;
        if !IsAdjacent(heroLocation, item) {
          return Some(item), next;
        }
      }
    }

    /**
     * What replayGame (game.js:244-276) leaves, from the state before it: the
     * next level starts with input blocked and the countdown stopped and
     * reset, and the markers are placed as MarkersPlaced says.
     */
    twostate predicate Replayed(placed: Placement)
      requires tiles.Length0 == N && tiles.Length1 == N
      reads this, tiles
    {
      && !canPick && !timerRunning && levelCount == old(levelCount) + 1 && gameTime == GameTime
      && score == old(score) && heroLocation == old(heroLocation) && filled == old(filled)
      && MarkersPlaced(placed)
    }

    /**
     * What the obstacle step of replayGame (game.js:256-275) leaves: when the
     * score beats ten times the level number, up to level 10, a Key and then a
     * LockedDoor are placed on distinct candidates away from the Hero, drawn
     * out of the candidate list, by giving their cells the marker values 12
     * and 13, which no ordinary tile has; every other cell is kept, and the
     * only candidates dropped are the ones placed and the ones touching the
     * Hero. Running out of candidates needs nine or fewer.
     */
    twostate predicate MarkersPlaced(placed: Placement)
      requires tiles.Length0 == N && tiles.Length1 == N
      reads this, tiles
    {
      && (placed.NoMarkers? <==> !(score > levelCount * 10 && levelCount <= 10))
      && (placed.NoMarkers? ==> specialItemCandidates == old(specialItemCandidates))
      && (placed.OutOfCandidates? ==> specialItemCandidates == [] && |old(specialItemCandidates)| <= 9)
      && (forall m :: m == placed.KeyAt() || m == placed.DoorAt() ==> m.Some? ==>
           && m.value in old(specialItemCandidates) && m.value !in specialItemCandidates
           && !IsAdjacent(heroLocation, m.value) && m.value != heroLocation)
      && (placed.KeyAt().Some? && placed.DoorAt().Some? ==> placed.KeyAt() != placed.DoorAt())
      && (forall y, x :: 0 <= y < N && 0 <= x < N ==>
           tiles[y, x] == if Some(Point(x, y)) == placed.KeyAt() then old(tiles[y, x]).(value := SpecialOffset + KEY)
                          else if Some(Point(x, y)) == placed.DoorAt() then old(tiles[y, x]).(value := SpecialOffset + LOCKEDDOOR)
                          else old(tiles[y, x]))
      && (forall q :: q in specialItemCandidates ==> q in old(specialItemCandidates))
      && (forall q :: q in old(specialItemCandidates) && q !in specialItemCandidates ==>
           IsAdjacent(heroLocation, q) || Some(q) == placed.KeyAt() || Some(q) == placed.DoorAt())
    }

    /** replayGame (game.js:244-276), with the candidate draws taken from picks. */
    method ReplayGame(picks: seq<nat>) returns (placed: Placement)
      requires Valid() && |specialItemCandidates| <= |picks|
      modifies this, tiles
      ensures Valid() && Replayed(placed)
      ensures finishAnimation == old(finishAnimation)
    {
      canPick := false;
      levelCount := levelCount + 1;
      timerRunning := false;
      gameTime := GameTime;
      placed := PlaceMarkers(picks);
    }

    /** The obstacle step of replayGame (game.js:256-275). */
    method PlaceMarkers(picks: seq<nat>) returns (placed: Placement)
      requires Valid() && |specialItemCandidates| <= |picks|
      modifies this`specialItemCandidates, tiles
      ensures Valid() && MarkersPlaced(placed)
    {
      ghost var c0 := specialItemCandidates;
      if score > levelCount * 10 && levelCount <= 10 {
        var key, next := DrawAwayFromHero(picks, 0);
        if key.None? {
          return OutOfCandidates(None);
        }
        var k := key.value;
        tiles[k.y, k.x] := tiles[k.y, k.x].(value := SpecialOffset + KEY);
        var door, _ := DrawAwayFromHero(picks, next);
        if door.None? {
          ghost var ki :| 0 <= ki < |c0| && c0[ki] == k;
          FewNear(RemoveAt(c0, ki), heroLocation);
          return OutOfCandidates(Some(k));
        }
        var d := door.value;
        tiles[d.y, d.x] := tiles[d.y, d.x].(value := SpecialOffset + LOCKEDDOOR);
        return Markers(k, d);
      }
      return NoMarkers;
    }

    /**
     * The start button of the level screen (game.js:204-215): the board is
     * shown and setGameTimer starts the countdown interval. Input is enabled
     * separately, by EnableInput, once the 500 ms timeout has fired.
     */
    method StartLevel()
      requires Valid()
      modifies this`timerRunning
      ensures Valid() && timerRunning
    {
      timerRunning := true;
    }

    /** The 500 ms timeout set by the start button (game.js:212-214). */
    method EnableInput()
      requires Valid()
      modifies this`canPick
      ensures Valid() && canPick
    {
      canPick := true;
    }

    /**
     * One firing of the countdown interval (game.js:231-240), which only
     * fires while it runs. A positive countdown goes down by one; at zero the
     * level is replayed, unless the board is still settling, in which case
     * the tick is dropped and nothing changes.
     */
    method Tick(picks: seq<nat>) returns (replayed: Option<Placement>)
      requires Valid() && timerRunning && |specialItemCandidates| <= |picks|
      modifies this, tiles
      ensures Valid()
      ensures old(gameTime) > 0 ==>
        replayed.None? && gameTime == old(gameTime) - 1 && unchanged(tiles)
        && canPick == old(canPick) && levelCount == old(levelCount) && timerRunning
        && specialItemCandidates == old(specialItemCandidates)
      ensures old(gameTime) == 0 && !old(finishAnimation) ==>
        replayed.None? && unchanged(this) && unchanged(tiles)
      ensures old(gameTime) == 0 && old(finishAnimation) ==> replayed.Some? && Replayed(replayed.value)
      ensures score == old(score) && finishAnimation == old(finishAnimation)
      ensures heroLocation == old(heroLocation) && filled == old(filled)
    {
      if gameTime > 0 {
        gameTime := gameTime - 1;
        return None;
      } else {
        if !finishAnimation {
          return None;
        }
        var placed := ReplayGame(picks);
        return Some(placed);
      }
    }

    /**
     * The last falling tile's tween completes (game.js:516-523): ten points
     * are scored and endMove re-enables input.
     */
    method MovesSettled()
      requires Valid()
      modifies this`score, this`filled, this`canPick
      ensures Valid() && score == old(score) + 10 && canPick && filled == []
    {
      score := score + 10;
      EndMove();
    }

    /**
     * The 200 ms timeout after the board settled (game.js:524-529): the
     * animation counts as finished, and a countdown that already ran out
     * replays the level at once.
     */
    method SettleDelayElapsed(picks: seq<nat>) returns (replayed: Option<Placement>)
      requires Valid() && |specialItemCandidates| <= |picks|
      modifies this, tiles
      ensures Valid() && finishAnimation
      ensures replayed.Some? <==> old(gameTime) == 0
      ensures old(gameTime) != 0 ==>
        unchanged(tiles) && canPick == old(canPick) && levelCount == old(levelCount)
        && gameTime == old(gameTime) && timerRunning == old(timerRunning)
        && specialItemCandidates == old(specialItemCandidates)
      ensures old(gameTime) == 0 ==> replayed.Some? && Replayed(replayed.value)
      ensures score == old(score) && heroLocation == old(heroLocation) && filled == old(filled)
    {
      finishAnimation := true;
      replayed := None;
      if gameTime == 0 {
        var placed := ReplayGame(picks);
        replayed := Some(placed);
      }
    }
  }
}

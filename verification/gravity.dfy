/**
 * fillVerticalHoles (game.js:392-471) over the whole board. A board is a
 * sequence of columns, cols[x][y] being the cell at row y of column x. The
 * predicates here are the states of its two scans: gravity (rows N-2 up to
 * 0, columns left to right) and the refill (columns left to right, rows
 * bottom-most hole upward).
 */
module Gravity {
  import opened Cells
  import opened Columns

  /**
   * The gravity scan from board g0 has reached row i, column j: columns left
   * of j are settled from row i down, the others from row i + 1; every column
   * keeps its tiles in order; a column that was settled is untouched; and
   * `moved` says a tile fell, which happens only when some column of g0 had a
   * hole under a tile.
   */
  ghost predicate DropInvariant(g0: Board, cols: Board, i: int, j: int, moved: bool)
    requires WellFormed(g0) && WellFormed(cols) && -1 <= i < N && 0 <= j <= N && (0 <= i || j == 0)
  {
    && (forall x :: 0 <= x < j ==> Settled(cols[x][i..]))
    && (forall x :: j <= x < N ==> Settled(cols[x][i + 1..]))
    && (forall x :: 0 <= x < N ==> Values(cols[x]) == Values(g0[x]))
    && (forall x :: 0 <= x < N && Settled(g0[x]) ==> cols[x] == g0[x])
    && (moved ==> exists x :: 0 <= x < N && !Settled(g0[x]))
    && (!moved ==> cols == g0)
  }

  /** Before the scan: the bottom row alone is always settled. */
  lemma DropStart(g0: Board)
    requires WellFormed(g0)
    ensures DropInvariant(g0, g0, N - 2, 0, false)
  {
    forall x | 0 <= x < N ensures Settled(g0[x][N - 1..]) {
      assert |g0[x][N - 1..]| == 1;
    }
  }

  /**
   * A tile at row i of column j with h > 0 holes below it falls onto row
   * i + h, which is a hole, and the scan moves on with `moved` set.
   */
  lemma DropFall(g0: Board, cols: Board, i: int, j: int, moved: bool)
    requires WellFormed(g0) && WellFormed(cols) && 0 <= i < N - 1 && 0 <= j < N
    requires DropInvariant(g0, cols, i, j, moved)
    requires !cols[j][i].isEmpty && Holes(cols[j][i + 1..]) > 0
    ensures var h := Holes(cols[j][i + 1..]);
      && i + h < N && cols[j][i + h].isEmpty
      && var cols' := cols[j := MoveDown(cols[j], i, i + h, j)];
         WellFormed(cols') && DropInvariant(g0, cols', i, j + 1, true)
  {
    var c := cols[j];
    var h := Holes(c[i + 1..]);
    GravityStep(c, i, j);
    HoleBelowUnsettles(c, i);
    var cols' := cols[j := MoveDown(c, i, i + h, j)];
    assert !Settled(g0[j]);
    forall x | 0 <= x < j + 1 ensures Settled(cols'[x][i..]) {
      if x == j {
        assert cols'[x] == MoveDown(c, i, i + h, j);
      }
    }
  }

  /** A hole at row i, or a tile with nothing free below it, stays put. */
  lemma DropStay(g0: Board, cols: Board, i: int, j: int, moved: bool)
    requires WellFormed(g0) && WellFormed(cols) && 0 <= i < N - 1 && 0 <= j < N
    requires DropInvariant(g0, cols, i, j, moved)
    requires cols[j][i].isEmpty || Holes(cols[j][i + 1..]) == 0
    ensures DropInvariant(g0, cols, i, j + 1, moved)
  {
    SettledExtend(cols[j], i);
  }

  /** After the scan every column is settled with its tiles in order, and a tile fell exactly when some column was not settled. */
  lemma DropEnd(g0: Board, cols: Board, moved: bool)
    requires WellFormed(g0) && WellFormed(cols)
    requires DropInvariant(g0, cols, -1, 0, moved)
    ensures forall x :: 0 <= x < N ==> Settled(cols[x]) && Values(cols[x]) == Values(g0[x])
    ensures moved <==> exists x :: 0 <= x < N && !Settled(g0[x])
    ensures forall x, y :: 0 <= x < N && 0 <= y < N ==> (cols[x][y].isEmpty <==> y < Holes(g0[x]))
  {
    forall x | 0 <= x < N
      ensures Settled(cols[x])
      ensures forall y :: 0 <= y < N ==> (cols[x][y].isEmpty <==> y < Holes(g0[x]))
    {
      assert cols[x][0..] == cols[x];
      SettledShape(cols[x]);
      SameValuesSameHoles(cols[x], g0[x]);
    }
  }

  /**
   * Rows lo .. hi - 1 of column c were refilled with ordinary tiles; every
   * other cell is as in c0.
   */
  predicate Refilled(c0: seq<Cell>, c: seq<Cell>, lo: int, hi: int) {
    && |c| == |c0|
    && forall y :: 0 <= y < |c| ==>
         if lo <= y < hi then !c[y].isEmpty && 0 <= c[y].value < TileKinds else c[y] == c0[y]
  }

  /**
   * The refill scan from board g0 has done columns 0 .. i - 1: each of them
   * has its top holes refilled; the columns right of i are untouched.
   */
  ghost predicate RefillInvariant(g0: Board, cols: Board, i: int)
    requires WellFormed(g0) && WellFormed(cols) && 0 <= i <= N
  {
    && (forall x :: 0 <= x < i ==> Refilled(g0[x], cols[x], 0, Holes(g0[x])))
    && (forall x :: i < x < N ==> cols[x] == g0[x])
  }

  /** Refilling row j of column i with an ordinary value v moves the refill scan up one row. */
  lemma RefillStep(g0: Board, cols: Board, i: int, j: int, hi: int, v: int)
    requires WellFormed(g0) && WellFormed(cols) && 0 <= i < N && 0 <= j < hi <= N
    requires RefillInvariant(g0, cols, i) && Refilled(g0[i], cols[i], j + 1, hi)
    requires 0 <= v < TileKinds
    ensures var cols' := cols[i := cols[i][j := Cell(false, v, Point(i, j))]];
      && WellFormed(cols') && RefillInvariant(g0, cols', i) && Refilled(g0[i], cols'[i], j, hi)
  {
  }

  /**
   * What fillVerticalHoles leaves in a column that was c0: every cell is
   * occupied, the old tiles fill the bottom in their old order, and each of
   * the Holes(c0) cells above them holds an ordinary tile value.
   */
  ghost predicate Replenished(c0: seq<Cell>, c: seq<Cell>) {
    && |c| == |c0|
    && (forall y :: 0 <= y < |c| ==> !c[y].isEmpty)
    && (forall y :: 0 <= y < Holes(c0) ==> 0 <= c[y].value < TileKinds)
    && Values(c[Holes(c0)..]) == Values(c0)
  }

  /** Gravity, then refilling the holes it left on top, replenishes a column. */
  lemma SettleThenRefill(c0: seq<Cell>, c1: seq<Cell>, c2: seq<Cell>)
    requires |c1| == |c0| && Settled(c1) && Values(c1) == Values(c0)
    requires Refilled(c1, c2, 0, Holes(c1))
    ensures Replenished(c0, c2)
  {
    SameValuesSameHoles(c1, c0);
    SettledTilesAtBottom(c1);
    var k := Holes(c0);
    assert c2[k..] == c1[k..];
  }
}

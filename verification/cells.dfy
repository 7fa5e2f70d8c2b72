/** Points, cells and the fixed configuration of the board (game.js:5-18). */
module Cells {

  /** Side of the square board (gameOptions.fieldSize). */
  const N: int := 8
  /** Number of ordinary tile kinds (gameOptions.tiles.length); ordinary values are 0 .. TileKinds - 1. */
  const TileKinds: int := 4
  /** Marker kinds (_HERO, _KEY, _LOCKEDDOOR). */
  const HERO: int := 1
  const KEY: int := 2
  const LOCKEDDOOR: int := 3
  /** A marker cell's value is SpecialOffset + kind, so it never equals an ordinary value. */
  const SpecialOffset: int := 10
  /** Length of one round's countdown, in ticks (_GAMETIME). */
  const GameTime: int := 10

  /** A Phaser.Point as the game uses it: x is the column, y is the row. */
  datatype Point = Point(x: int, y: int)

  /** One entry of tilesArray, without its sprite. */
  datatype Cell = Cell(isEmpty: bool, value: int, coordinate: Point)

  datatype Option<T> = None | Some(value: T)

  /** The board column by column: g[x][y] is the cell at row y of column x. */
  type Board = seq<seq<Cell>>

  predicate WellFormed(g: Board) {
    |g| == N && forall x :: 0 <= x < N ==> |g[x]| == N
  }

  predicate InBounds(p: Point) {
    0 <= p.x < N && 0 <= p.y < N
  }

  /** Row-major order: p is visited before q by a scan over rows, then columns. */
  predicate Before(p: Point, q: Point) {
    p.y < q.y || (p.y == q.y && p.x < q.x)
  }

  function Abs(a: int): nat {
    if a < 0 then -a else a
  }

  /** Chebyshev (king-move) distance: the reference notion of "touching, diagonals included". */
  function Chebyshev(p: Point, q: Point): nat {
    var dx, dy := Abs(p.x - q.x), Abs(p.y - q.y);
    if dx < dy then dy else dx
  }

  /** isAdjacent (game.js:582-584): both coordinates differ by less than two. */
  function IsAdjacent(p1: Point, p2: Point): (r: bool)
    ensures r <==> Chebyshev(p1, p2) <= 1
  {
    Abs(p1.x - p2.x) < 2 && Abs(p1.y - p2.y) < 2
  }

  lemma AdjacentReflexive(p: Point)
    ensures IsAdjacent(p, p)
  {
  }

  lemma AdjacentSymmetric(p: Point, q: Point)
    ensures IsAdjacent(p, q) == IsAdjacent(q, p)
  {
  }

  predicate Distinct(s: seq<Point>) {
    forall i, j :: 0 <= i < j < |s| ==> s[i] != s[j]
  }

  /** The eight positions touching h, diagonals included. */
  function Ring(h: Point): (r: set<Point>)
    ensures forall q :: q in r <==> IsAdjacent(h, q) && q != h
  {
    var r := {Point(h.x - 1, h.y - 1), Point(h.x, h.y - 1), Point(h.x + 1, h.y - 1),
              Point(h.x - 1, h.y),                          Point(h.x + 1, h.y),
              Point(h.x - 1, h.y + 1), Point(h.x, h.y + 1), Point(h.x + 1, h.y + 1)};
    assert forall q :: IsAdjacent(h, q) && q != h ==> q in r by {
      forall q | IsAdjacent(h, q) && q != h ensures q in r {
        assert -1 <= q.x - h.x <= 1 && -1 <= q.y - h.y <= 1;
      }
    }
    r
  }

  /** A list without repetitions has as many elements as the set of its elements. */
  lemma {:induction false} DistinctCard(s: seq<Point>)
    requires Distinct(s)
    ensures |set q | q in s| == |s|
  {
    if s != [] {
      var t := s[1..];
      assert Distinct(t) by {
        forall i, j | 0 <= i < j < |t| ensures t[i] != t[j] {
          assert t[i] == s[i + 1] && t[j] == s[j + 1];
        }
      }
      DistinctCard(t);
      assert (set q | q in s) == (set q | q in t) + {s[0]};
      assert s[0] !in t;
    }
  }

  /**
   * At most eight distinct positions other than h touch h: a list of such
   * positions has at most eight elements.
   */
  lemma FewNear(s: seq<Point>, h: Point)
    requires Distinct(s) && h !in s
    requires forall q :: q in s ==> IsAdjacent(h, q)
    ensures |s| <= 8
  {
    DistinctCard(s);
    var r, e := Ring(h), set q | q in s;
    assert r == e + (r - e);
    assert |r| <= 8;
  }

  /** The splice done by Phaser.ArrayUtils.removeRandomItem once it has chosen index k. */
  function RemoveAt(s: seq<Point>, k: nat): (r: seq<Point>)
    requires k < |s|
    ensures |r| == |s| - 1
    ensures forall q :: q in r ==> q in s
    ensures Distinct(s) ==> Distinct(r) && s[k] !in r
    ensures forall q :: q in s && q != s[k] ==> q in r
  {
    var r := s[..k] + s[k + 1..];
    assert forall i :: 0 <= i < |r| ==> r[i] == if i < k then s[i] else s[i + 1];
    assert forall i :: 0 <= i < |s| && i != k ==> s[i] == r[if i < k then i else i - 1];
    r
  }
}

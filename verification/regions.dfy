/**
 * What floodFill (game.js:587-598) computes: the cells 4-connected to the
 * seed through occupied cells of the seed's value. A board is viewed column
 * by column, g[x][y] being tilesArray[y][x].
 */
module Regions {
  import opened Cells

  /** p lies on the board, is occupied and holds value n: the test floodFill makes. */
  predicate Matches(g: Board, p: Point, n: int)
    requires WellFormed(g)
  {
    InBounds(p) && !g[p.x][p.y].isEmpty && g[p.x][p.y].value == n
  }

  /** The four points floodFill recurses on, in its order: +x, -x, +y, -y. */
  function Neighbours(p: Point): (r: seq<Point>)
    ensures |r| == 4
    ensures forall k :: 0 <= k < 4 ==> Abs(r[k].x - p.x) + Abs(r[k].y - p.y) == 1
  {
    [Point(p.x + 1, p.y), Point(p.x - 1, p.y), Point(p.x, p.y + 1), Point(p.x, p.y - 1)]
  }

  /** Every position of the board. */
  ghost function AllPoints(): set<Point> {
    set x, y | 0 <= x < N && 0 <= y < N :: Point(x, y)
  }

  /** The positions a flood fill has not collected yet; it shrinks with every push. */
  ghost function Unvisited(s: seq<Point>): set<Point> {
    AllPoints() - (set q | q in s)
  }

  /** Extending a collection by a new position of the board shrinks what is unvisited. */
  lemma UnvisitedShrinks(s: seq<Point>, t: seq<Point>, p: Point)
    requires |s| <= |t| && t[..|s|] == s
    requires InBounds(p) && p in t && p !in s
    ensures Unvisited(t) < Unvisited(s)
  {
    assert p in AllPoints();
    assert p in Unvisited(s) && p !in Unvisited(t);
    forall q | q in s ensures q in t {
      var i :| 0 <= i < |s| && s[i] == q;
      assert t[i] == q;
    }
  }

  /** Every collected point matches n. */
  predicate Sound(g: Board, s: seq<Point>, n: int)
    requires WellFormed(g)
  {
    forall k :: 0 <= k < |s| ==> Matches(g, s[k], n)
  }

  /** Every matching neighbour of q has been collected. */
  predicate Closed(g: Board, s: seq<Point>, q: Point, n: int)
    requires WellFormed(g)
  {
    forall k :: 0 <= k < 4 ==> Matches(g, Neighbours(q)[k], n) ==> Neighbours(q)[k] in s
  }

  /** Collecting more points never reopens a closed point. */
  lemma ClosedGrows(g: Board, s: seq<Point>, t: seq<Point>, q: Point, n: int)
    requires WellFormed(g) && Closed(g, s, q, n)
    requires |s| <= |t| && t[..|s|] == s
    ensures Closed(g, t, q, n)
  {
    forall k | 0 <= k < 4 && Matches(g, Neighbours(q)[k], n)
      ensures Neighbours(q)[k] in t
    {
      var i :| 0 <= i < |s| && s[i] == Neighbours(q)[k];
      assert t[i] == s[i];
    }
  }

  /**
   * Every point of s after index lo is a 4-neighbour of a point that comes
   * before it, at index lo or later: the order in which a flood fill
   * discovers points.
   */
  predicate Linked(s: seq<Point>, lo: nat) {
    forall k :: lo < k < |s| ==> exists j :: lo <= j < k && s[k] in Neighbours(s[j])
  }

  /**
   * The state of floodFill(p, n) after p was pushed at index |start| and its
   * first m neighbour calls returned: `start` is kept, p follows it, the first
   * m matching neighbours are collected, everything collected after p is
   * closed and was discovered from p.
   */
  ghost predicate FillProgress(g: Board, start: seq<Point>, p: Point, n: int, f: seq<Point>, m: nat)
    requires WellFormed(g)
  {
    && |start| < |f| && f[..|start|] == start && f[|start|] == p
    && (forall i :: 0 <= i < m && i < 4 && Matches(g, Neighbours(p)[i], n) ==> Neighbours(p)[i] in f)
    && (forall j :: |start| < j < |f| ==> Closed(g, f, f[j], n))
    && Linked(f, |start|)
  }

  /**
   * What one call floodFill(p, n) does to the collection, from `before` to
   * `after`: it only appends; p ends up collected exactly when it matches, and
   * first among the new points when it was not there before; a call on a
   * point that does not match or was already collected appends nothing;
   * everything it appended is closed and was discovered, neighbour by
   * neighbour, from p.
   */
  ghost predicate FillResult(g: Board, before: seq<Point>, after: seq<Point>, p: Point, n: int)
    requires WellFormed(g)
  {
    && |before| <= |after| && after[..|before|] == before
    && (Matches(g, p, n) ==> p in after)
    && (Matches(g, p, n) && p !in before ==> after[|before|] == p)
    && (!Matches(g, p, n) || p in before ==> after == before)
    && (forall k :: |before| <= k < |after| ==> Closed(g, after, after[k], n))
    && Linked(after, |before|)
  }

  /** One neighbour call of floodFill keeps its progress. */
  lemma FillAdvance(g: Board, start: seq<Point>, p: Point, n: int, f: seq<Point>, f': seq<Point>, m: nat)
    requires WellFormed(g) && m < 4 && FillProgress(g, start, p, n, f, m)
    requires FillResult(g, f, f', Neighbours(p)[m], n)
    ensures FillProgress(g, start, p, n, f', m + 1)
  {
    assert f'[..|start|] == start by {
      assert f'[..|start|] == f[..|start|];
    }
    assert forall i :: 0 <= i < m + 1 && i < 4 && Matches(g, Neighbours(p)[i], n) ==> Neighbours(p)[i] in f' by {
      PrefixKept(f, f');
    }
    assert forall j :: |start| < j < |f'| ==> Closed(g, f', f'[j], n) by {
      ClosedAppend(g, f, f', |start|, n);
    }
    assert Linked(f', |start|) by {
      if |f| < |f'| {
        assert f'[|f|] == Neighbours(p)[m];
      }
      LinkedAppend(f, f', |start|);
    }
  }

  /** Appending keeps every point already collected. */
  lemma PrefixKept(f: seq<Point>, f': seq<Point>)
    requires |f| <= |f'| && f'[..|f|] == f
    ensures forall q :: q in f ==> q in f'
  {
    forall q | q in f ensures q in f' {
      var k :| 0 <= k < |f| && f[k] == q;
      assert f'[k] == f[k];
    }
  }

  /** Points after lo that were closed stay closed when closed points are appended. */
  lemma ClosedAppend(g: Board, f: seq<Point>, f': seq<Point>, lo: nat, n: int)
    requires WellFormed(g) && |f| <= |f'| && f'[..|f|] == f
    requires forall j :: lo < j < |f| ==> Closed(g, f, f[j], n)
    requires forall k :: |f| <= k < |f'| ==> Closed(g, f', f'[k], n)
    ensures forall j :: lo < j < |f'| ==> Closed(g, f', f'[j], n)
  {
    forall j | lo < j < |f'| ensures Closed(g, f', f'[j], n) {
      if j < |f| {
        assert f'[j] == f[j];
        ClosedGrows(g, f, f', f[j], n);
      }
    }
  }

  /**
   * Appending to a linked list from lo a part linked on its own, whose first
   * point is a neighbour of the point at lo, keeps it linked from lo.
   */
  lemma LinkedAppend(f: seq<Point>, f': seq<Point>, lo: nat)
    requires lo < |f| <= |f'| && f'[..|f|] == f
    requires Linked(f, lo) && Linked(f', |f|)
    requires |f| < |f'| ==> f'[|f|] in Neighbours(f[lo])
    ensures Linked(f', lo)
  {
    forall k | lo < k < |f'| ensures exists j :: lo <= j < k && f'[k] in Neighbours(f'[j]) {
      if k < |f| {
        var j :| lo <= j < k && f[k] in Neighbours(f[j]);
        assert f'[k] == f[k] && f'[j] == f[j];
      } else if k == |f| {
        assert f'[lo] == f[lo];
      } else {
        var j :| |f| <= j < k && f'[k] in Neighbours(f'[j]);
      }
    }
  }

  /** Once all four neighbour calls returned, p itself is closed too. */
  lemma FillDone(g: Board, start: seq<Point>, p: Point, n: int, f: seq<Point>)
    requires WellFormed(g) && Matches(g, p, n) && p !in start
    requires FillProgress(g, start, p, n, f, 4)
    ensures FillResult(g, start, f, p, n)
  {
  }

  /**
   * The result floodFill leaves in `filled` when it is started from an empty
   * list at `seed` with the seed's own value n: nothing if the seed is not a
   * matching cell; otherwise the seed first, then only matching cells, each
   * once and each a 4-neighbour of one before it, with every matching
   * neighbour of every collected cell collected.
   */
  predicate IsRegion(g: Board, s: seq<Point>, seed: Point, n: int)
    requires WellFormed(g)
  {
    if !Matches(g, seed, n) then s == []
    else
      && |s| > 0 && s[0] == seed
      && Sound(g, s, n)
      && Distinct(s)
      && Linked(s, 0)
      && forall q :: q in s ==> Closed(g, s, q, n)
  }

  /** A walk between 4-neighbours over cells that all match n. */
  predicate MatchingPath(g: Board, path: seq<Point>, n: int)
    requires WellFormed(g)
  {
    && (forall k :: 0 <= k < |path| ==> Matches(g, path[k], n))
    && (forall k :: 0 <= k < |path| - 1 ==> path[k + 1] in Neighbours(path[k]))
  }

  /**
   * Maximality: a closed collection that holds the start of a matching walk
   * holds its end, so a region contains every cell connected to the seed.
   */
  lemma {:induction false} ClosedHoldsPath(g: Board, s: seq<Point>, n: int, path: seq<Point>)
    requires WellFormed(g)
    requires forall q :: q in s ==> Closed(g, s, q, n)
    requires |path| > 0 && path[0] in s && MatchingPath(g, path, n)
    ensures path[|path| - 1] in s
  {
    if |path| > 1 {
      var q := path[0];
      var k :| 0 <= k < 4 && Neighbours(q)[k] == path[1];
      assert Closed(g, s, q, n);
      assert path[1] in s;
      ClosedHoldsPath(g, s, n, path[1..]);
      assert path[1..][|path| - 2] == path[|path| - 1];
    }
  }

  /** Corollary for a region: every cell reachable from the seed is in it. */
  lemma RegionIsMaximal(g: Board, s: seq<Point>, seed: Point, n: int, path: seq<Point>)
    requires WellFormed(g) && IsRegion(g, s, seed, n)
    requires |path| > 0 && path[0] == seed && MatchingPath(g, path, n)
    ensures path[|path| - 1] in s
  {
    assert s[0] == seed;
    ClosedHoldsPath(g, s, n, path);
  }

  /** q is the end of a matching walk from seed: q is 4-connected to seed through cells of value n. */
  ghost predicate Reachable(g: Board, seed: Point, q: Point, n: int)
    requires WellFormed(g)
  {
    exists path :: |path| > 0 && path[0] == seed && path[|path| - 1] == q && MatchingPath(g, path, n)
  }

  /** Connectivity: the walk from the seed to the k-th cell of a region, following the order of discovery. */
  lemma {:induction false} PathInRegion(g: Board, s: seq<Point>, seed: Point, n: int, k: int) returns (path: seq<Point>)
    requires WellFormed(g) && IsRegion(g, s, seed, n) && 0 <= k < |s|
    ensures |path| > 0 && path[0] == seed && path[|path| - 1] == s[k] && MatchingPath(g, path, n)
    decreases k
  {
    if k == 0 {
      path := [seed];
    } else {
      var j :| 0 <= j < k && s[k] in Neighbours(s[j]);
      var prefix := PathInRegion(g, s, seed, n, j);
      assert Matches(g, s[k], n);
      ExtendPath(g, prefix, s[k], n);
      path := prefix + [s[k]];
    }
  }

  /** A matching walk extends by a matching 4-neighbour of its end. */
  lemma ExtendPath(g: Board, path: seq<Point>, q: Point, n: int)
    requires WellFormed(g) && |path| > 0 && MatchingPath(g, path, n)
    requires Matches(g, q, n) && q in Neighbours(path[|path| - 1])
    ensures MatchingPath(g, path + [q], n)
  {
    var walk := path + [q];
    forall k | 0 <= k < |walk| - 1 ensures walk[k + 1] in Neighbours(walk[k]) {
      if k < |path| - 1 {
        assert walk[k] == path[k] && walk[k + 1] == path[k + 1];
      }
    }
  }

  /** A region is exactly the set of cells reachable from its seed through cells of value n. */
  lemma RegionIsComponent(g: Board, s: seq<Point>, seed: Point, n: int)
    requires WellFormed(g) && IsRegion(g, s, seed, n)
    ensures forall q :: q in s <==> Reachable(g, seed, q, n)
  {
    forall q ensures q in s <==> Reachable(g, seed, q, n) {
      if q in s {
        var k :| 0 <= k < |s| && s[k] == q;
        var path := PathInRegion(g, s, seed, n, k);
      }
      if Reachable(g, seed, q, n) {
        var path :| |path| > 0 && path[0] == seed && path[|path| - 1] == q && MatchingPath(g, path, n);
        RegionIsMaximal(g, s, seed, n, path);
      }
    }
  }

  /** Two regions of one seed on one board hold the same cells. */
  lemma RegionsAgree(g: Board, s: seq<Point>, t: seq<Point>, seed: Point, n: int)
    requires WellFormed(g) && IsRegion(g, s, seed, n) && IsRegion(g, t, seed, n)
    ensures forall q :: q in s <==> q in t
  {
    RegionIsComponent(g, s, seed, n);
    RegionIsComponent(g, t, seed, n);
  }

  /**
   * The region of a seed is determined by the board: two regions of one seed
   * hold the same cells, and so have the same size, which is what the
   * three-tile test of pickTile counts.
   */
  lemma RegionUnique(g: Board, s: seq<Point>, t: seq<Point>, seed: Point, n: int)
    requires WellFormed(g) && IsRegion(g, s, seed, n) && IsRegion(g, t, seed, n)
    ensures (set q | q in s) == (set q | q in t)
    ensures |s| == |t|
  {
    RegionsAgree(g, s, t, seed, n);
    assert Distinct(s) && Distinct(t);
    SameCellsSameLength(s, t);
  }

  /** Two repetition-free lists with the same members have the same set of members and the same length. */
  lemma SameCellsSameLength(s: seq<Point>, t: seq<Point>)
    requires Distinct(s) && Distinct(t) && forall q :: q in s <==> q in t
    ensures (set q | q in s) == (set q | q in t)
    ensures |s| == |t|
  {
    var cells, cells' := set q | q in s, set q | q in t;
    assert forall q :: q in cells <==> q in cells';
    assert cells == cells';
    DistinctCard(s);
    DistinctCard(t);
  }

  /**
   * A region seeded on an ordinary tile holds only ordinary tiles: the
   * marker values SpecialOffset + kind never match it.
   */
  lemma RegionAvoidsMarkers(g: Board, s: seq<Point>, seed: Point, n: int)
    requires WellFormed(g) && IsRegion(g, s, seed, n) && 0 <= n < TileKinds
    ensures forall q :: q in s ==> InBounds(q) && 0 <= g[q.x][q.y].value < TileKinds
    ensures forall q :: q in s ==>
      g[q.x][q.y].value != SpecialOffset + KEY && g[q.x][q.y].value != SpecialOffset + LOCKEDDOOR
  {
  }
}

/**
 * One column of the board, read top (row 0) to bottom, and what gravity does
 * to it (game.js:392-505). countSpacesBelow and tilesInColumn count in a
 * column; fillVerticalHoles moves each tile down over the holes below it.
 */
module Columns {
  import opened Cells

  /** Number of empty cells. */
  function Holes(s: seq<Cell>): (r: nat)
    ensures r <= |s|
  {
    if s == [] then 0 else (if s[0].isEmpty then 1 else 0) + Holes(s[1..])
  }

  /** Number of occupied cells. */
  function Tiles(s: seq<Cell>): nat {
    if s == [] then 0 else (if s[0].isEmpty then 0 else 1) + Tiles(s[1..])
  }

  /** Values of the occupied cells, top to bottom. */
  function Values(s: seq<Cell>): seq<int> {
    if s == [] then [] else (if s[0].isEmpty then [] else [s[0].value]) + Values(s[1..])
  }

  /** Every cell is either a hole or a tile, and the tiles are what Values lists. */
  lemma {:induction false} HolesAndTiles(s: seq<Cell>)
    ensures Holes(s) + Tiles(s) == |s|
    ensures Tiles(s) == |Values(s)|
  {
    if s != [] {
      HolesAndTiles(s[1..]);
    }
  }

  /** No hole lies below a tile. */
  predicate Settled(s: seq<Cell>) {
    forall i, j :: 0 <= i < j < |s| && !s[i].isEmpty ==> !s[j].isEmpty
  }

  /** A settled column is its holes on top of its tiles. */
  lemma {:induction false} SettledShape(s: seq<Cell>)
    requires Settled(s)
    ensures forall k :: 0 <= k < |s| ==> (s[k].isEmpty <==> k < Holes(s))
  {
    if s != [] {
      assert Settled(s[1..]) by {
        forall i, j | 0 <= i < j < |s[1..]| && !s[1..][i].isEmpty
          ensures !s[1..][j].isEmpty
        {
          assert !s[i + 1].isEmpty;
        }
      }
      SettledShape(s[1..]);
      forall k | 0 < k < |s|
        ensures s[k].isEmpty <==> k < Holes(s)
      {
        assert s[k] == s[1..][k - 1];
      }
    }
  }

  lemma {:induction false} ValuesConcat(a: seq<Cell>, b: seq<Cell>)
    ensures Values(a + b) == Values(a) + Values(b)
  {
    if a != [] {
      assert (a + b)[1..] == a[1..] + b;
      ValuesConcat(a[1..], b);
    } else {
      assert a + b == b;
    }
  }

  /** A stretch holding exactly one tile lists exactly that tile's value. */
  lemma {:induction false} ValuesOfOneTile(s: seq<Cell>, k: nat)
    requires k < |s| && !s[k].isEmpty
    requires forall r :: 0 <= r < |s| && r != k ==> s[r].isEmpty
    ensures Values(s) == [s[k].value]
  {
    if k == 0 {
      assert Values(s[1..]) == [] by { NoTileNoValue(s[1..]); }
    } else {
      ValuesOfOneTile(s[1..], k - 1);
    }
  }

  lemma {:induction false} NoTileNoValue(s: seq<Cell>)
    requires forall r :: 0 <= r < |s| ==> s[r].isEmpty
    ensures Values(s) == []
  {
    if s != [] {
      NoTileNoValue(s[1..]);
    }
  }

  /**
   * The array update of moveDownTile (game.js:489-505): the tile at row
   * `from` of column x is written to row `to` with its value, then the old
   * cell is marked empty.
   */
  function MoveDown(s: seq<Cell>, from: nat, to: nat, x: int): (t: seq<Cell>)
    requires from < to < |s|
    ensures |t| == |s| && t[..from] == s[..from] && t[to + 1..] == s[to + 1..]
    ensures t[from].isEmpty && !t[to].isEmpty && t[to].value == s[from].value
  {
    s[to := Cell(false, s[from].value, Point(x, to))][from := s[from].(isEmpty := true)]
  }

  /**
   * One step of the gravity scan. Rows below i are already settled and the
   * tile at row i has h > 0 holes below it: then row i + h is a hole (the move
   * always targets an empty cell), every row between is a hole too, and after
   * the move the column is settled from row i on, with the same tiles in the
   * same order.
   */
  lemma GravityStep(s: seq<Cell>, i: nat, x: int)
    requires i < |s| && !s[i].isEmpty
    requires Settled(s[i + 1..]) && Holes(s[i + 1..]) > 0
    ensures var h := Holes(s[i + 1..]);
      i + h < |s| && forall r :: i < r <= i + h ==> s[r].isEmpty
    ensures var t := MoveDown(s, i, i + Holes(s[i + 1..]), x);
      Settled(t[i..]) && Values(t) == Values(s)
  {
    var h := Holes(s[i + 1..]);
    HolesBelow(s, i);
    MoveDownSettles(s, i, h, x);
    MoveDownKeepsValues(s, i, h, x);
  }

  /** Below row i a settled stretch is h holes followed by tiles. */
  lemma HolesBelow(s: seq<Cell>, i: nat)
    requires i < |s| && Settled(s[i + 1..])
    ensures var h := Holes(s[i + 1..]);
      i + h < |s| &&
      (forall r :: i < r <= i + h ==> s[r].isEmpty) &&
      (forall r :: i + h < r < |s| ==> !s[r].isEmpty)
  {
    var t := s[i + 1..];
    SettledShape(t);
    forall r | i < r < |s| ensures s[r].isEmpty <==> r <= i + Holes(t) {
      assert s[r] == t[r - i - 1];
    }
  }

  lemma MoveDownSettles(s: seq<Cell>, i: nat, h: nat, x: int)
    requires 0 < h && i + h < |s|
    requires forall r :: i < r < i + h ==> s[r].isEmpty
    requires forall r :: i + h < r < |s| ==> !s[r].isEmpty
    ensures Settled(MoveDown(s, i, i + h, x)[i..])
  {
    var t := MoveDown(s, i, i + h, x);
    assert forall r :: i <= r < |t| ==> (t[r].isEmpty <==> r < i + h);
    forall a, b | 0 <= a < b < |t[i..]| && !t[i..][a].isEmpty
      ensures !t[i..][b].isEmpty
    {
      assert t[i..][a] == t[i + a] && t[i..][b] == t[i + b];
    }
  }

  lemma MoveDownKeepsValues(s: seq<Cell>, i: nat, h: nat, x: int)
    requires 0 < h && i + h < |s| && !s[i].isEmpty
    requires forall r :: i < r <= i + h ==> s[r].isEmpty
    ensures Values(MoveDown(s, i, i + h, x)) == Values(s)
  {
    var t := MoveDown(s, i, i + h, x);
    var mid, mid' := s[i..i + h + 1], t[i..i + h + 1];
    assert s == s[..i] + mid + s[i + h + 1..];
    assert t == t[..i] + mid' + t[i + h + 1..];
    assert forall r :: 0 < r < |mid| ==> mid[r] == s[i + r];
    assert forall r :: 0 <= r < h ==> mid'[r] == t[i + r];
    ValuesOfOneTile(mid, 0);
    ValuesOfOneTile(mid', h);
    ValuesConcat(s[..i], mid);
    ValuesConcat(s[..i] + mid, s[i + h + 1..]);
    ValuesConcat(t[..i], mid');
    ValuesConcat(t[..i] + mid', t[i + h + 1..]);
  }

  /**
   * The other cases of the scan: a hole at row i, or a tile with no hole
   * below it, leaves the column settled from row i on without a move.
   */
  lemma SettledExtend(s: seq<Cell>, i: nat)
    requires i < |s| && Settled(s[i + 1..])
    requires s[i].isEmpty || Holes(s[i + 1..]) == 0
    ensures Settled(s[i..])
  {
    SettledShape(s[i + 1..]);
    forall a, b | 0 <= a < b < |s[i..]| && !s[i..][a].isEmpty
      ensures !s[i..][b].isEmpty
    {
      assert s[i..][b] == s[i + 1..][b - 1];
      if a > 0 {
        assert s[i..][a] == s[i + 1..][a - 1];
      }
    }
  }

  lemma {:induction false} HoleExists(s: seq<Cell>)
    requires Holes(s) > 0
    ensures exists r :: 0 <= r < |s| && s[r].isEmpty
  {
    if !s[0].isEmpty {
      HoleExists(s[1..]);
      var r :| 0 <= r < |s[1..]| && s[1..][r].isEmpty;
      assert s[r + 1].isEmpty;
    }
  }

  /** A tile with a hole below it means the column is not settled: gravity has work to do. */
  lemma HoleBelowUnsettles(s: seq<Cell>, i: nat)
    requires i < |s| && !s[i].isEmpty && Holes(s[i + 1..]) > 0
    ensures !Settled(s)
  {
    HoleExists(s[i + 1..]);
    var r :| 0 <= r < |s[i + 1..]| && s[i + 1..][r].isEmpty;
    assert s[i + 1 + r].isEmpty;
  }

  /** Two columns of one length with the same tiles have the same number of holes and of tiles. */
  lemma SameValuesSameHoles(s: seq<Cell>, t: seq<Cell>)
    requires |s| == |t| && Values(s) == Values(t)
    ensures Holes(s) == Holes(t) && Tiles(s) == Tiles(t)
  {
    HolesAndTiles(s);
    HolesAndTiles(t);
  }

  /** In a settled column a tile never has a hole below it. */
  lemma SettledNoHoleBelow(s: seq<Cell>, i: nat)
    requires Settled(s) && i < |s| && !s[i].isEmpty
    ensures Holes(s[i + 1..]) == 0
  {
    var t := s[i + 1..];
    assert Settled(t) by {
      forall a, b | 0 <= a < b < |t| && !t[a].isEmpty ensures !t[b].isEmpty {
        assert t[a] == s[i + 1 + a] && t[b] == s[i + 1 + b];
      }
    }
    SettledShape(t);
  }

  /**
   * After gravity the tiles of a settled column are exactly its cells below
   * the holes: they list the same values and none of them is empty.
   */
  lemma SettledTilesAtBottom(s: seq<Cell>)
    requires Settled(s)
    ensures Holes(s) <= |s|
    ensures forall k :: Holes(s) <= k < |s| ==> !s[k].isEmpty
    ensures Values(s[Holes(s)..]) == Values(s)
  {
    SettledShape(s);
    var h := Holes(s);
    assert s == s[..h] + s[h..];
    NoTileNoValue(s[..h]);
    ValuesConcat(s[..h], s[h..]);
  }
}

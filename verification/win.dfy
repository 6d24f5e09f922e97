/** Deciding the winner (`checkWin` of the game object). Player 2 wins by
    joining column 0 to column `size - 1` through cells it owns, player 1 by
    joining row 0 to row `size - 1`; the search is started once from every
    edge cell the player owns, and player 2 is asked first. */
module Win {
  import opened Geometry
  import opened Search
  import opened Board

  /** Edge cell `i` from which a player's search starts: player 2 starts in
      column 0, player 1 in row 0. */
  function Seed(player: int, i: int): Point
  {
    if player == 2 then Point(i, 0) else Point(0, i)
  }

  /** The edge a player must reach: column `size - 1` for player 2, row
      `size - 1` for player 1. */
  predicate Goal(size: int, player: int, v: Point)
  {
    if player == 2 then v.y == size - 1 else v.x == size - 1
  }

  /** `player` owns edge cell `i` and a chain of its cells joins it to the
      opposite edge. */
  ghost predicate ConnectsFrom(s: seq<seq<int>>, size: int, player: int, i: int)
    requires IsBoard(s, size) && 0 <= i < size
  {
    && s[Seed(player, i).x][Seed(player, i).y] == player
    && exists c {:trigger Reachable(s, player, Seed(player, i), c)} ::
         Reachable(s, player, Seed(player, i), c) && Goal(size, player, c)
  }

  /** `player` has a winning chain on the board. */
  ghost predicate Wins(s: seq<seq<int>>, size: int, player: int)
    requires IsBoard(s, size)
  {
    exists i :: 0 <= i < size && ConnectsFrom(s, size, player, i)
  }

  /** `checkWin`: 2 when player 2 has a winning chain, otherwise 1 when
      player 1 has one, otherwise 0. Player 2 is asked first, so it wins a
      board on which both have a chain. */
  method CheckWin(s: seq<seq<int>>, size: int) returns (winner: int)
    requires IsBoard(s, size)
    ensures winner in {0, 1, 2}
    ensures winner == 2 <==> Wins(s, size, 2)
    ensures winner == 1 <==> !Wins(s, size, 2) && Wins(s, size, 1)
    ensures winner == 0 <==> !Wins(s, size, 2) && !Wins(s, size, 1)
  {
    var blue := SearchEdge(s, size, 2);
    if blue {
      return 2;
    }
    var green := SearchEdge(s, size, 1);
    if green {
      return 1;
    }
    return 0;
  }

  /** Either loop of `checkWin`: search from each of `player`'s edge cells
      in turn, stopping at the first that reaches the opposite edge. */
  method SearchEdge(s: seq<seq<int>>, size: int, player: int) returns (found: bool)
    requires IsBoard(s, size)
    ensures found <==> Wins(s, size, player)
  {
    var i := 0;
    while i < size
      invariant 0 <= i <= size
      invariant forall j :: 0 <= j < i ==> !ConnectsFrom(s, size, player, j)
    {
      found := SearchFrom(s, size, player, i);
      if found {
        return;
      }
      assert !ConnectsFrom(s, size, player, i);
      assert forall j :: 0 <= j < i + 1 ==> !ConnectsFrom(s, size, player, j);
      i := i + 1;
    }
    return false;
  }

  /** One turn of the loop of `SearchEdge`: when `player` owns edge cell
      `i`, search from it for the opposite edge. */
  method SearchFrom(s: seq<seq<int>>, size: int, player: int, i: int) returns (found: bool)
    requires IsBoard(s, size) && 0 <= i < size
    ensures found <==> ConnectsFrom(s, size, player, i)
  {
    var start := Seed(player, i);
    if s[start.x][start.y] != player {
      return false;
    }
    var exit := v => Goal(size, player, v);
    ghost var pushes, steps;
    found, pushes, steps := Dfs(start, s, exit, player);
    assert forall c :: exit(c) == Goal(size, player, c);
  }

  /** Reachability only depends on which cells `player` owns: a board on
      which `player` owns at least the cells it owns on another reaches at
      least as far. */
  lemma ReachMonotone(g1: seq<seq<int>>, g2: seq<seq<int>>, player: int, from: Point, to: Point)
    requires IsGrid(g1) && IsGrid(g2) && |g1| == |g2| && |g1[0]| == |g2[0]|
    requires forall v :: InGrid(g1, v) && At(g1, v) == player ==> At(g2, v) == player
    requires Reachable(g1, player, from, to)
    ensures Reachable(g2, player, from, to)
  {
    var p :| IsWalk(g1, player, p) && p[0] == from && p[|p| - 1] == to;
    assert IsWalk(g2, player, p) by {
      forall i | 0 < i < |p|
        ensures Adjacent(p[i - 1], p[i]) && InGrid(g2, p[i]) && At(g2, p[i]) == player
      {
        assert InGrid(g1, p[i]) && At(g1, p[i]) == player;
      }
    }
  }

  /** A winning chain survives any change that keeps the player's cells. */
  lemma WinsMonotone(s1: seq<seq<int>>, s2: seq<seq<int>>, size: int, player: int)
    requires IsBoard(s1, size) && IsBoard(s2, size)
    requires forall x, y :: 0 <= x < size && 0 <= y < size && s1[x][y] == player ==> s2[x][y] == player
    requires Wins(s1, size, player)
    ensures Wins(s2, size, player)
  {
    var i :| 0 <= i < size && ConnectsFrom(s1, size, player, i);
    var c :| Reachable(s1, player, Seed(player, i), c) && Goal(size, player, c);
    ReachMonotone(s1, s2, player, Seed(player, i), c);
    assert ConnectsFrom(s2, size, player, i);
  }

  /** Highlighting never decides a game: hover tags are not player tags, so
      each player has a winning chain after `highlight` exactly when it had
      one before. */
  lemma HighlightKeepsWinner(g: Game, hover: Point -> bool, player: int)
    requires Consistent(g) && g.move in {1, 2} && player in {1, 2}
    ensures Wins(Highlight(g, hover).state, g.size, player) <==> Wins(g.state, g.size, player)
  {
    var h := Highlight(g, hover);
    forall x, y | 0 <= x < g.size && 0 <= y < g.size
      ensures h.state[x][y] == player <==> g.state[x][y] == player
    {
      assert Tag(h, Point(x, y)) == player <==> Tag(g, Point(x, y)) == player;
    }
    if Wins(g.state, g.size, player) {
      WinsMonotone(g.state, h.state, g.size, player);
    }
    if Wins(h.state, g.size, player) {
      WinsMonotone(h.state, g.state, g.size, player);
    }
  }

  /** A press never takes a win away: it only claims cells nobody owns. */
  lemma TickKeepsWinner(g: Game, hover: Point -> bool, player: int)
    requires Consistent(g) && player in {1, 2}
    requires Wins(g.state, g.size, player)
    ensures Wins(Tick(g, hover).state, g.size, player)
  {
    var h := Tick(g, hover);
    forall x, y | 0 <= x < g.size && 0 <= y < g.size && g.state[x][y] == player
      ensures h.state[x][y] == player
    {
      assert Tag(g, Point(x, y)) == player;
    }
    WinsMonotone(g.state, h.state, g.size, player);
  }

  /** A new or reset game has no winner. */
  lemma ResetHasNoWinner(g: Game, player: int)
    requires player in {1, 2}
    ensures !Wins(Reset(g).state, g.size, player)
    ensures !Wins(Init(g.size).state, g.size, player)
  {
    var r := Reset(g);
    assert forall i :: 0 <= i < g.size ==> Tag(r, Seed(player, i)) == 0;
    ResetMatchesInit(g);
  }

  /** A row owned end to end by player 2 is a winning chain for it. */
  lemma FullRowWins(s: seq<seq<int>>, size: int, row: int)
    requires IsBoard(s, size) && 0 <= row < size
    requires forall y :: 0 <= y < size ==> s[row][y] == 2
    ensures Wins(s, size, 2)
  {
    var p := seq(size, y requires 0 <= y < size => Point(row, y));
    assert IsWalk(s, 2, p) by {
      forall i | 0 < i < size
        ensures Adjacent(p[i - 1], p[i]) && InGrid(s, p[i]) && At(s, p[i]) == 2
      {
        assert p[i] == Shift(p[i - 1], MOVES[2]);
      }
    }
    assert Reachable(s, 2, Seed(2, row), p[size - 1]);
    assert ConnectsFrom(s, size, 2, row);
  }

  /** A column owned end to end by player 1 is a winning chain for it. */
  lemma FullColumnWins(s: seq<seq<int>>, size: int, col: int)
    requires IsBoard(s, size) && 0 <= col < size
    requires forall x :: 0 <= x < size ==> s[x][col] == 1
    ensures Wins(s, size, 1)
  {
    var p := seq(size, x requires 0 <= x < size => Point(x, col));
    assert IsWalk(s, 1, p) by {
      forall i | 0 < i < size
        ensures Adjacent(p[i - 1], p[i]) && InGrid(s, p[i]) && At(s, p[i]) == 1
      {
        assert p[i] == Shift(p[i - 1], MOVES[0]);
      }
    }
    assert Reachable(s, 1, Seed(1, col), p[size - 1]);
    assert ConnectsFrom(s, size, 1, col);
  }

  /** A staircase from the top-left corner to the bottom-right corner,
      alternating steps along a row and down a column, touches all four
      edges, so it is a winning chain for whichever player owns it. */
  lemma StaircaseWins(s: seq<seq<int>>, size: int, player: int)
    requires IsBoard(s, size) && size > 0 && player in {1, 2}
    requires forall x, y :: 0 <= x < size && 0 <= y < size && (y == x || y == x + 1) ==> s[x][y] == player
    ensures Wins(s, size, player)
  {
    var p := seq(2 * size - 1, k requires 0 <= k < 2 * size - 1 => Point(k / 2, (k + 1) / 2));
    assert IsWalk(s, player, p) by {
      forall i | 0 < i < |p|
        ensures Adjacent(p[i - 1], p[i]) && InGrid(s, p[i]) && At(s, p[i]) == player
      {
        if i % 2 == 1 {
          assert p[i] == Shift(p[i - 1], MOVES[2]);
        } else {
          assert p[i] == Shift(p[i - 1], MOVES[0]);
        }
      }
    }
    assert p[0] == Seed(player, 0);
    assert Reachable(s, player, Seed(player, 0), p[|p| - 1]);
    assert ConnectsFrom(s, size, player, 0);
  }
}

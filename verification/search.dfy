/** The connectivity search `DFS` of the game's algorithms module: a
    depth-first walk over one player's cells of an integer grid, from a start
    cell, that stops as soon as it stands on a cell the exit test accepts.
    The search state is an explicit stack, used last-in first-out, and the set
    of cells already marked as visited; the grid is only read. */
module Search {
  import opened Geometry

  datatype Option<T> = None | Some(value: T)

  /** The grid shape the search relies on: at least one row (the width is
      read from the first), and every row at least that wide, so that every
      cell the bounds test admits can be indexed. */
  predicate IsGrid(grid: seq<seq<int>>)
  {
    |grid| > 0 && forall r :: 0 <= r < |grid| ==> |grid[0]| <= |grid[r]|
  }

  /** The bounds test as the search applies it: `h` is the number of rows
      and `w` the length of the first row. */
  predicate InGrid(grid: seq<seq<int>>, v: Point)
    requires |grid| > 0
  {
    InBounds(v, |grid[0]|, |grid|)
  }

  function At(grid: seq<seq<int>>, v: Point): int
    requires IsGrid(grid) && InGrid(grid, v)
  {
    grid[v.x][v.y]
  }

  /** The bounds test admits exactly the cells of the first `w` columns of
      the `h` rows, and each of them names an existing entry of the grid. */
  lemma InGridIsIndexable(grid: seq<seq<int>>, v: Point)
    requires IsGrid(grid)
    ensures InGrid(grid, v) <==> 0 <= v.x < |grid| && 0 <= v.y < |grid[0]|
    ensures InGrid(grid, v) ==> v.y < |grid[v.x]|
  {
  }

  /** Neighbour `k` of `cur` may be pushed: it is inside the grid, not yet
      visited, and owned by `player`. */
  predicate Open(grid: seq<seq<int>>, player: int, used: set<Point>, cur: Point, k: int)
    requires IsGrid(grid) && 0 <= k < |MOVES|
  {
    var o := Shift(cur, MOVES[k]);
    InGrid(grid, o) && o !in used && At(grid, o) == player
  }

  /** The inner loop over the neighbour offsets, from offset `k` on: the
      index of the first neighbour that may be pushed, if any. */
  function FirstOpen(grid: seq<seq<int>>, player: int, used: set<Point>, cur: Point, k: nat): (r: Option<nat>)
    requires IsGrid(grid) && k <= |MOVES|
    ensures r.Some? ==> k <= r.value < |MOVES| && Open(grid, player, used, cur, r.value)
    ensures r.Some? ==> forall j :: k <= j < r.value ==> !Open(grid, player, used, cur, j)
    ensures r.None? ==> forall j :: k <= j < |MOVES| ==> !Open(grid, player, used, cur, j)
    decreases |MOVES| - k
  {
    if k == |MOVES| then None
    else if Open(grid, player, used, cur, k) then Some(k)
    else FirstOpen(grid, player, used, cur, k + 1)
  }

  /** A walk: a chain of lattice neighbours whose cells after the first are
      inside the grid and owned by `player`. The first cell is unconstrained,
      as the search never looks at the owner of its start cell. */
  predicate IsWalk(grid: seq<seq<int>>, player: int, p: seq<Point>)
    requires IsGrid(grid)
  {
    |p| > 0 &&
    forall i :: 0 < i < |p| ==> Adjacent(p[i - 1], p[i]) && InGrid(grid, p[i]) && At(grid, p[i]) == player
  }

  /** `to` can be reached from `from` through `player`'s cells. */
  ghost predicate Reachable(grid: seq<seq<int>>, player: int, from: Point, to: Point)
    requires IsGrid(grid)
  {
    exists p {:trigger IsWalk(grid, player, p)} :: IsWalk(grid, player, p) && p[0] == from && p[|p| - 1] == to
  }

  /** The state of the search: the stack (last element on top) and the
      visited cells. */
  datatype Frontier = Frontier(stack: seq<Point>, used: set<Point>)

  function Top(f: Frontier): Point
    requires |f.stack| > 0
  {
    f.stack[|f.stack| - 1]
  }

  /** No neighbour of `v` could still be pushed. */
  predicate Expanded(grid: seq<seq<int>>, player: int, used: set<Point>, v: Point)
    requires IsGrid(grid)
  {
    forall k :: 0 <= k < |MOVES| ==> !Open(grid, player, used, v, k)
  }

  /** What every step of the search keeps: the stack is a walk, every cell
      below the top has been visited, and every visited cell that has left
      the stack has no neighbour left to push. */
  predicate Valid(grid: seq<seq<int>>, player: int, f: Frontier)
    requires IsGrid(grid)
  {
    && (|f.stack| > 0 ==> IsWalk(grid, player, f.stack))
    && (forall i :: 0 <= i < |f.stack| - 1 ==> f.stack[i] in f.used)
    && (forall v :: v in f.used && v !in f.stack ==> Expanded(grid, player, f.used, v))
  }

  function Cells(grid: seq<seq<int>>): set<Point>
    requires |grid| > 0
  {
    set x, y | 0 <= x < |grid| && 0 <= y < |grid[0]| :: Point(x, y)
  }

  /** The cells of the grid that are neither visited nor on the stack. */
  function Unseen(grid: seq<seq<int>>, f: Frontier): set<Point>
    requires |grid| > 0
  {
    Cells(grid) - f.used - (set v | v in f.stack)
  }

  function Block(h: int, w: int): set<Point>
  {
    set x, y | 0 <= x < h && 0 <= y < w :: Point(x, y)
  }

  function RowCells(x: int, w: int): set<Point>
  {
    set y | 0 <= y < w :: Point(x, y)
  }

  /** The grid has `h * w` cells. As every push of the search takes a cell
      that was neither visited nor on the stack, the search pushes at most
      that many times. */
  lemma CellCount(grid: seq<seq<int>>)
    requires |grid| > 0
    ensures |Cells(grid)| == |grid| * |grid[0]|
  {
    BlockSize(|grid|, |grid[0]|);
  }

  lemma {:induction false} BlockSize(h: nat, w: nat)
    ensures |Block(h, w)| == h * w
  {
    if h > 0 {
      BlockSize(h - 1, w);
      RowSize(h - 1, w);
      BlockSplit(h, w);
      assert (h - 1) * w + w == h * w;
    }
  }

  lemma BlockSplit(h: nat, w: nat)
    requires h > 0
    ensures Block(h, w) == Block(h - 1, w) + RowCells(h - 1, w)
    ensures Block(h - 1, w) * RowCells(h - 1, w) == {}
  {
    forall v | v in Block(h, w)
      ensures v in Block(h - 1, w) + RowCells(h - 1, w)
    {
      if v.x < h - 1 {
        assert v == Point(v.x, v.y);
      } else {
        assert v == Point(h - 1, v.y);
      }
    }
    forall v | v in RowCells(h - 1, w)
      ensures v in Block(h, w)
    {
      assert v == Point(h - 1, v.y);
    }
    forall v | v in Block(h - 1, w)
      ensures v in Block(h, w)
    {
      assert v == Point(v.x, v.y);
    }
  }

  lemma {:induction false} RowSize(x: int, w: nat)
    ensures |RowCells(x, w)| == w
  {
    if w > 0 {
      RowSize(x, w - 1);
      assert RowCells(x, w) == RowCells(x, w - 1) + {Point(x, w - 1)};
    }
  }

  lemma InCells(grid: seq<seq<int>>, v: Point)
    requires |grid| > 0 && InGrid(grid, v)
    ensures v in Cells(grid)
  {
    assert v == Point(v.x, v.y);
  }

  /** The pushed cell, when the step pushes. */
  predicate PushedFirstOpen(grid: seq<seq<int>>, player: int, f: Frontier, r: Frontier)
    requires IsGrid(grid) && |f.stack| > 0 && |r.stack| > 0
  {
    exists k :: 0 <= k < |MOVES| && Top(r) == Shift(Top(f), MOVES[k])
      && Open(grid, player, r.used, Top(f), k)
      && forall j :: 0 <= j < k ==> !Open(grid, player, r.used, Top(f), j)
  }

  /** One turn of the search loop once the exit test has failed on the top
      cell: mark the top visited, then push its first neighbour (in the order
      of `MOVES`) that is inside the grid, unvisited and owned by `player`,
      or pop the top when there is none. */
  function Step(grid: seq<seq<int>>, player: int, f: Frontier): (r: Frontier)
    requires IsGrid(grid) && |f.stack| > 0 && InGrid(grid, Top(f))
    requires Valid(grid, player, f)
    ensures Valid(grid, player, r)
    ensures r.used == f.used + {Top(f)}
    ensures |r.stack| > 0 ==> r.stack[0] == f.stack[0]
    ensures |r.stack| == |f.stack| + 1 || r.stack == f.stack[..|f.stack| - 1]
    ensures |r.stack| == |f.stack| + 1 ==>
              && r.stack[..|f.stack|] == f.stack
              && InGrid(grid, Top(r)) && Top(r) !in r.used && At(grid, Top(r)) == player
              && PushedFirstOpen(grid, player, f, r)
    ensures |r.stack| < |f.stack| ==> Expanded(grid, player, r.used, Top(f))
    ensures |r.stack| == |f.stack| + 1 ==> Top(r) in Unseen(grid, f) && Unseen(grid, r) == Unseen(grid, f) - {Top(r)}
    ensures |r.stack| < |f.stack| ==> Unseen(grid, r) == Unseen(grid, f)
  {
    var cur := Top(f);
    var used := f.used + {cur};
    match FirstOpen(grid, player, used, cur, 0)
    case Some(k) =>
      var n := Shift(cur, MOVES[k]);
      var r := Frontier(f.stack + [n], used);
      assert PushedFirstOpen(grid, player, f, r) by {
        assert Top(r) == n;
      }
      PushKeepsValid(grid, player, f, k);
      r
    case None =>
      var r := Frontier(f.stack[..|f.stack| - 1], used);
      PopKeepsValid(grid, player, f);
      r
  }

  lemma PushKeepsValid(grid: seq<seq<int>>, player: int, f: Frontier, k: nat)
    requires IsGrid(grid) && |f.stack| > 0 && InGrid(grid, Top(f)) && Valid(grid, player, f)
    requires k < |MOVES| && Open(grid, player, f.used + {Top(f)}, Top(f), k)
    ensures var r := Frontier(f.stack + [Shift(Top(f), MOVES[k])], f.used + {Top(f)});
            Valid(grid, player, r) && Top(r) in Unseen(grid, f) && Unseen(grid, r) == Unseen(grid, f) - {Top(r)}
  {
    var cur := Top(f);
    var n := Shift(cur, MOVES[k]);
    var r := Frontier(f.stack + [n], f.used + {cur});
    assert Adjacent(cur, n);
    assert IsWalk(grid, player, r.stack) by {
      forall i | 0 < i < |r.stack|
        ensures Adjacent(r.stack[i - 1], r.stack[i]) && InGrid(grid, r.stack[i]) && At(grid, r.stack[i]) == player
      {
        if i < |f.stack| {
          assert r.stack[i - 1] == f.stack[i - 1] && r.stack[i] == f.stack[i];
        }
      }
    }
    assert n !in f.stack by {
      forall i | 0 <= i < |f.stack|
        ensures f.stack[i] != n
      {
        assert f.stack[i] in r.used;
      }
    }
    forall v | v in r.used && v !in r.stack
      ensures Expanded(grid, player, r.used, v)
    {
      assert v != cur && v in f.used && v !in f.stack;
      ExpandedGrows(grid, player, f.used, r.used, v);
    }
    InCells(grid, n);
    assert n in Unseen(grid, f);
    assert n !in Unseen(grid, r);
    assert (set v | v in r.stack) == (set v | v in f.stack) + {n};
  }

  lemma PopKeepsValid(grid: seq<seq<int>>, player: int, f: Frontier)
    requires IsGrid(grid) && |f.stack| > 0 && InGrid(grid, Top(f)) && Valid(grid, player, f)
    requires Expanded(grid, player, f.used + {Top(f)}, Top(f))
    ensures var r := Frontier(f.stack[..|f.stack| - 1], f.used + {Top(f)});
            Valid(grid, player, r) && Unseen(grid, r) == Unseen(grid, f)
  {
    var cur := Top(f);
    var r := Frontier(f.stack[..|f.stack| - 1], f.used + {cur});
    assert |r.stack| > 0 ==> IsWalk(grid, player, r.stack) by {
      forall i | 0 < i < |r.stack|
        ensures Adjacent(r.stack[i - 1], r.stack[i]) && InGrid(grid, r.stack[i]) && At(grid, r.stack[i]) == player
      {
        assert r.stack[i - 1] == f.stack[i - 1] && r.stack[i] == f.stack[i];
      }
    }
    assert forall i :: 0 <= i < |r.stack| - 1 ==> r.stack[i] in r.used by {
      forall i | 0 <= i < |r.stack| - 1
        ensures r.stack[i] in r.used
      {
        assert r.stack[i] == f.stack[i];
      }
    }
    forall v | v in r.used && v !in r.stack
      ensures Expanded(grid, player, r.used, v)
    {
      if v != cur {
        assert v !in f.stack by {
          assert f.stack == r.stack + [cur];
        }
        ExpandedGrows(grid, player, f.used, r.used, v);
      }
    }
    PopKeepsSeen(r.stack, cur);
  }

  /** Popping the top leaves the same cells on the stack, the top aside. */
  lemma PopKeepsSeen(rest: seq<Point>, cur: Point)
    ensures (set v | v in rest + [cur]) == (set v | v in rest) + {cur}
  {
  }

  /** Visiting more cells never gives a cell a neighbour to push. */
  lemma ExpandedGrows(grid: seq<seq<int>>, player: int, used: set<Point>, more: set<Point>, v: Point)
    requires IsGrid(grid) && used <= more && Expanded(grid, player, used, v)
    ensures Expanded(grid, player, more, v)
  {
    forall k | 0 <= k < |MOVES|
      ensures !Open(grid, player, more, v, k)
    {
      assert !Open(grid, player, used, v, k);
    }
  }

  /** The search of `DFS`: it answers true exactly when some cell accepted by
      `exit` is reachable from `start` through `player`'s cells. In
      particular it answers true when `start` itself is accepted, whoever
      owns it. The ghost counters bound its work: every push takes a cell
      never seen before, so there are at most `h * w` pushes, and every
      turn of the loop pushes or pops, so there are at most `2 * pushes + 1`
      turns. */
  method Dfs(start: Point, grid: seq<seq<int>>, exit: Point -> bool, player: int)
    returns (found: bool, ghost pushes: nat, ghost steps: nat)
    requires IsGrid(grid)
    requires InGrid(grid, start) || exit(start)
    ensures found <==> exists c :: Reachable(grid, player, start, c) && exit(c)
    ensures exit(start) ==> found
    ensures pushes <= |grid| * |grid[0]|
    ensures steps <= 2 * pushes + 1
  {
    var f := Frontier([start], {});
    pushes, steps := 0, 0;
    CellCount(grid);
    while |f.stack| > 0
      invariant Valid(grid, player, f)
      invariant |f.stack| > 0 ==> f.stack[0] == start
      invariant |f.stack| > 0 || start in f.used
      invariant forall v :: v in f.used ==> !exit(v)
      invariant pushes + |Unseen(grid, f)| <= |grid| * |grid[0]|
      invariant steps + |f.stack| == 2 * pushes + 1
      decreases Unseen(grid, f), |f.stack|
    {
      var cur := Top(f);
      if exit(cur) {
        assert IsWalk(grid, player, f.stack) && f.stack[0] == start && f.stack[|f.stack| - 1] == cur;
        return true, pushes, steps;
      }
      var before := |f.stack|;
      f := Step(grid, player, f);
      if |f.stack| > before {
        pushes := pushes + 1;
      }
      steps := steps + 1;
    }
    forall p | IsWalk(grid, player, p) && p[0] == start
      ensures p[|p| - 1] in f.used
    {
      WalkStaysVisited(grid, player, f.used, p);
    }
    found := false;
  }

  /** A set of cells that contains the start of a walk and has no cell with
      a neighbour left to push contains the whole walk. */
  lemma {:induction false} WalkStaysVisited(grid: seq<seq<int>>, player: int, used: set<Point>, p: seq<Point>)
    requires IsGrid(grid) && IsWalk(grid, player, p) && p[0] in used
    requires forall v :: v in used ==> Expanded(grid, player, used, v)
    ensures p[|p| - 1] in used
    decreases |p|
  {
    if |p| > 1 {
      var q := p[..|p| - 1];
      assert IsWalk(grid, player, q) by {
        forall i | 0 < i < |q|
          ensures Adjacent(q[i - 1], q[i]) && InGrid(grid, q[i]) && At(grid, q[i]) == player
        {
          assert q[i - 1] == p[i - 1] && q[i] == p[i];
        }
      }
      WalkStaysVisited(grid, player, used, q);
      var u, v := p[|p| - 2], p[|p| - 1];
      assert Adjacent(u, v);
      var k :| 0 <= k < |MOVES| && v == Shift(u, MOVES[k]);
      assert !Open(grid, player, used, u, k);
    }
  }
}

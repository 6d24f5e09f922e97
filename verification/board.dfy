/** The board rules of the game: a `size` by `size` grid of tags (0 empty,
    1 and 2 the two players, 3 and 4 the hover highlight of player 1 and 2),
    the player to move, and the operations of the game object that change
    them. Whether the pointer is over a cell (the hexagon hit test) is a
    parameter `hover`. */
module Board {
  import opened Geometry

  /** `s` is a `n` by `n` grid. */
  predicate IsBoard(s: seq<seq<int>>, n: int)
  {
    |s| == n && forall r :: 0 <= r < n ==> |s[r]| == n
  }

  predicate OnBoard(n: int, p: Point)
  {
    InBounds(p, n, n)
  }

  /** A tag owned by one of the two players. */
  predicate Claimed(tag: int)
  {
    tag == 1 || tag == 2
  }

  /** The state of a game: the board size, the grid of tags, and the player
      whose turn it is. */
  datatype Game = Game(size: nat, state: seq<seq<int>>, move: int)

  predicate Consistent(g: Game)
  {
    IsBoard(g.state, g.size)
  }

  function Tag(g: Game, p: Point): int
    requires Consistent(g) && OnBoard(g.size, p)
  {
    g.state[p.x][p.y]
  }

  function EmptyBoard(n: nat): (s: seq<seq<int>>)
    ensures IsBoard(s, n)
    ensures forall r, c :: 0 <= r < n && 0 <= c < n ==> s[r][c] == 0
  {
    seq(n, _ => seq(n, _ => 0))
  }

  /** A new game of the given size: every cell empty, player 1 to move. */
  function Init(size: nat): (g: Game)
    ensures Consistent(g) && g.size == size && g.move == 1
    ensures forall p :: OnBoard(size, p) ==> Tag(g, p) == 0
  {
    Game(size, EmptyBoard(size), 1)
  }

  /** Starting over: the board is rebuilt at the current size, every cell
      empty, player 1 to move. */
  function Reset(g: Game): (r: Game)
    ensures Consistent(r) && r.size == g.size && r.move == 1
    ensures forall p :: OnBoard(g.size, p) ==> Tag(r, p) == 0
  {
    g.(state := EmptyBoard(g.size), move := 1)
  }

  /** Resetting a game yields the game a fresh start at its size would, so a
      reset is also idempotent. */
  lemma ResetMatchesInit(g: Game)
    ensures Reset(g) == Init(g.size)
    ensures Reset(Reset(g)) == Reset(g)
  {
  }

  /** Claiming cell `p` for the player to move, as a pointer press does: a
      cell owned by a player is left alone; any other cell (empty or
      highlighted) becomes the mover's, and the turn passes. */
  function Claim(g: Game, p: Point): (r: Game)
    requires Consistent(g) && OnBoard(g.size, p)
    ensures Consistent(r) && r.size == g.size
    ensures Claimed(Tag(g, p)) ==> r == g
    ensures !Claimed(Tag(g, p)) ==> Tag(r, p) == g.move && r.move == 3 - g.move
    ensures forall q {:trigger Tag(r, q)} :: OnBoard(g.size, q) && q != p ==> Tag(r, q) == Tag(g, q)
  {
    if Claimed(Tag(g, p)) then g
    else g.(state := g.state[p.x := g.state[p.x][p.y := g.move]], move := 3 - g.move)
  }

  function ClaimIfHovered(g: Game, hover: Point -> bool, p: Point): (r: Game)
    requires Consistent(g) && OnBoard(g.size, p)
    ensures Consistent(r) && r.size == g.size
  {
    if hover(p) then Claim(g, p) else g
  }

  /** Cell `q` lies at or after row `r`, column `c` in row-major order. */
  predicate Ahead(n: int, r: int, c: int, q: Point)
  {
    OnBoard(n, q) && (q.x > r || (q.x == r && q.y >= c))
  }

  /** The press would claim `q`: it is under the pointer and no player owns it. */
  predicate Claimable(g: Game, hover: Point -> bool, q: Point)
    requires Consistent(g) && OnBoard(g.size, q)
  {
    hover(q) && !Claimed(Tag(g, q))
  }

  /** The double loop of `tick` from row `r`, column `c` on, in row-major
      order. Only claimable cells of that part of the board change, each one
      to a player's tag, and the mover stays a player;
      the rest of its contract is in `ScanTurns`, `ScanTag` and
      `ScanIdle`. */
  function Scan(g: Game, hover: Point -> bool, r: nat, c: nat): (h: Game)
    requires Consistent(g) && r <= g.size && c <= g.size
    ensures Consistent(h) && h.size == g.size
    ensures forall q {:trigger Tag(h, q)} :: OnBoard(g.size, q) && !(Ahead(g.size, r, c, q) && Claimable(g, hover, q)) ==>
              Tag(h, q) == Tag(g, q)
    ensures g.move in {1, 2} ==> h.move in {1, 2}
    ensures g.move in {1, 2} ==>
              forall q {:trigger Tag(h, q)} :: Ahead(g.size, r, c, q) && Claimable(g, hover, q) ==> Claimed(Tag(h, q))
    decreases g.size - r, g.size - c
  {
    if r == g.size then g
    else if c == g.size then Scan(g, hover, r + 1, 0)
    else
      var g' := ClaimIfHovered(g, hover, Point(r, c));
      assert forall q :: OnBoard(g.size, q) && q != Point(r, c) ==> Tag(g', q) == Tag(g, q);
      assert Ahead(g.size, r, c, Point(r, c));
      assert !Claimable(g, hover, Point(r, c)) ==> g' == g;
      Scan(g', hover, r, c + 1)
  }

  /** The mover after `k` claims by alternating players starting with `move`. */
  function Turn(move: int, k: int): int
  {
    if k % 2 == 0 then move else 3 - move
  }

  /** The number of claimable cells at or after row `r`, column `c` in
      row-major order. */
  function Pending(g: Game, hover: Point -> bool, r: nat, c: nat): nat
    requires Consistent(g) && r <= g.size && c <= g.size
    decreases g.size - r, g.size - c
  {
    if r == g.size then 0
    else if c == g.size then Pending(g, hover, r + 1, 0)
    else (if Claimable(g, hover, Point(r, c)) then 1 else 0) + Pending(g, hover, r, c + 1)
  }

  /** The count of claimable cells ahead of a position only looks at the
      cells ahead of it. */
  lemma {:induction false} PendingFrame(g: Game, g': Game, hover: Point -> bool, r: nat, c: nat)
    requires Consistent(g) && Consistent(g') && g'.size == g.size && r <= g.size && c <= g.size
    requires forall q :: Ahead(g.size, r, c, q) ==> Tag(g', q) == Tag(g, q)
    ensures Pending(g', hover, r, c) == Pending(g, hover, r, c)
    decreases g.size - r, g.size - c
  {
    if r == g.size {
    } else if c == g.size {
      PendingFrame(g, g', hover, r + 1, 0);
    } else {
      assert Ahead(g.size, r, c, Point(r, c));
      PendingFrame(g, g', hover, r, c + 1);
    }
  }

  /** No claims are pending exactly when no cell ahead is claimable. */
  lemma {:induction false} PendingZero(g: Game, hover: Point -> bool, r: nat, c: nat)
    requires Consistent(g) && r <= g.size && c <= g.size
    ensures Pending(g, hover, r, c) == 0 <==> forall q :: Ahead(g.size, r, c, q) ==> !Claimable(g, hover, q)
    decreases g.size - r, g.size - c
  {
    if r == g.size {
    } else if c == g.size {
      PendingZero(g, hover, r + 1, 0);
      assert forall q :: Ahead(g.size, r, c, q) <==> Ahead(g.size, r + 1, 0, q);
    } else {
      PendingZero(g, hover, r, c + 1);
      assert Ahead(g.size, r, c, Point(r, c));
      assert forall q :: Ahead(g.size, r, c, q) <==> q == Point(r, c) || Ahead(g.size, r, c + 1, q);
    }
  }

  /** The mover at the end of the scan has turned once per claim. */
  lemma {:induction false} ScanTurns(g: Game, hover: Point -> bool, r: nat, c: nat)
    requires Consistent(g) && r <= g.size && c <= g.size
    ensures Scan(g, hover, r, c).move == Turn(g.move, Pending(g, hover, r, c))
    decreases g.size - r, g.size - c
  {
    if r == g.size {
    } else if c == g.size {
      ScanTurns(g, hover, r + 1, 0);
    } else {
      var g' := ClaimIfHovered(g, hover, Point(r, c));
      ScanStep(g, hover, r, c);
      ScanTurns(g', hover, r, c + 1);
      assert forall q :: OnBoard(g.size, q) && q != Point(r, c) ==> Tag(g', q) == Tag(g, q);
      PendingFrame(g, g', hover, r, c + 1);
      TurnFlip(g.move, Pending(g, hover, r, c + 1));
    }
  }

  /** With no claim pending the scan changes nothing at all. */
  lemma {:induction false} ScanIdle(g: Game, hover: Point -> bool, r: nat, c: nat)
    requires Consistent(g) && r <= g.size && c <= g.size
    requires Pending(g, hover, r, c) == 0
    ensures Scan(g, hover, r, c) == g
    decreases g.size - r, g.size - c
  {
    if r == g.size {
    } else if c == g.size {
      ScanIdle(g, hover, r + 1, 0);
    } else {
      ScanStep(g, hover, r, c);
      assert ClaimIfHovered(g, hover, Point(r, c)) == g;
      ScanIdle(g, hover, r, c + 1);
    }
  }

  /** The scan hands the claimable cells ahead of the start to the players
      in turn: a claimable cell `q` gets the mover after the claims of the
      claimable cells before it, which number `Pending(r, c) - Pending(q)`. */
  lemma {:induction false} ScanTag(g: Game, hover: Point -> bool, r: nat, c: nat, q: Point)
    requires Consistent(g) && r <= g.size && c <= g.size
    requires Ahead(g.size, r, c, q) && Claimable(g, hover, q)
    ensures Tag(Scan(g, hover, r, c), q) == Turn(g.move, Pending(g, hover, r, c) - Pending(g, hover, q.x, q.y))
    decreases g.size - r, g.size - c, 1
  {
    if c == g.size {
      ScanTag(g, hover, r + 1, 0, q);
    } else if q == Point(r, c) {
      var g' := ClaimIfHovered(g, hover, q);
      ScanStep(g, hover, r, c);
      assert Tag(Scan(g', hover, r, c + 1), q) == Tag(g', q);
    } else {
      ScanTagLater(g, hover, r, c, q);
    }
  }

  /** One turn of the inner loop of the scan. */
  lemma ScanStep(g: Game, hover: Point -> bool, r: nat, c: nat)
    requires Consistent(g) && r < g.size && c < g.size
    ensures Scan(g, hover, r, c) == Scan(ClaimIfHovered(g, hover, Point(r, c)), hover, r, c + 1)
  {
  }

  /** `ScanTag` for a cell `q` after the cell in row `r`, column `c`. */
  lemma {:induction false} ScanTagLater(g: Game, hover: Point -> bool, r: nat, c: nat, q: Point)
    requires Consistent(g) && r < g.size && c < g.size
    requires Ahead(g.size, r, c, q) && Claimable(g, hover, q) && q != Point(r, c)
    ensures Tag(Scan(g, hover, r, c), q) == Turn(g.move, Pending(g, hover, r, c) - Pending(g, hover, q.x, q.y))
    decreases g.size - r, g.size - c, 0
  {
    var g' := ClaimIfHovered(g, hover, Point(r, c));
    ScanStep(g, hover, r, c);
    CellStep(g, hover, r, c, q);
    ScanTag(g', hover, r, c + 1, q);
  }

  /** The step of `ScanTag` past the cell `p` in row `r`, column `c`: a later
      claimable cell `q` is still claimable on the game after `p`, and the
      mover it will get, counted from the next cell on that game, is the one
      counted from `p` on the game before. */
  lemma CellStep(g: Game, hover: Point -> bool, r: nat, c: nat, q: Point)
    requires Consistent(g) && r < g.size && c < g.size
    requires Ahead(g.size, r, c, q) && Claimable(g, hover, q) && q != Point(r, c)
    ensures var g' := ClaimIfHovered(g, hover, Point(r, c));
            && Ahead(g.size, r, c + 1, q) && Claimable(g', hover, q)
            && Turn(g'.move, Pending(g', hover, r, c + 1) - Pending(g', hover, q.x, q.y))
               == Turn(g.move, Pending(g, hover, r, c) - Pending(g, hover, q.x, q.y))
  {
    var p := Point(r, c);
    var g' := ClaimIfHovered(g, hover, p);
    assert forall v :: OnBoard(g.size, v) && v != p ==> Tag(g', v) == Tag(g, v);
    PendingFrame(g, g', hover, r, c + 1);
    PendingFrame(g, g', hover, q.x, q.y);
    var before := Pending(g, hover, r, c + 1) - Pending(g, hover, q.x, q.y);
    if Claimable(g, hover, p) {
      assert Pending(g, hover, r, c) - Pending(g, hover, q.x, q.y) == before + 1;
      TurnFlip(g.move, before);
    } else {
      assert g' == g;
    }
  }

  /** One claim flips the parity of all the turns that follow it. */
  lemma TurnFlip(move: int, k: int)
    ensures Turn(3 - move, k) == Turn(move, k + 1)
  {
  }

  /** A pointer press (`tick`): the whole board scanned in row-major order.
      Cells owned by a player and cells away from the pointer keep their
      tags. The claimable cells under the pointer are claimed in row-major
      order by alternating players, the first by the player to move, and
      the turn passes once per claim. With nothing claimable under the
      pointer the game is unchanged. */
  function Tick(g: Game, hover: Point -> bool): (h: Game)
    requires Consistent(g)
    ensures Consistent(h) && h.size == g.size
    ensures forall q :: OnBoard(g.size, q) && Claimed(Tag(g, q)) ==> Tag(h, q) == Tag(g, q)
    ensures forall q :: OnBoard(g.size, q) && !hover(q) ==> Tag(h, q) == Tag(g, q)
    ensures g.move in {1, 2} ==> h.move in {1, 2}
    ensures g.move in {1, 2} ==>
              forall q :: OnBoard(g.size, q) && Claimable(g, hover, q) ==> Claimed(Tag(h, q))
    ensures forall q {:trigger Tag(h, q)} :: OnBoard(g.size, q) && Claimable(g, hover, q) ==>
              Tag(h, q) == Turn(g.move, Pending(g, hover, 0, 0) - Pending(g, hover, q.x, q.y))
    ensures h.move == Turn(g.move, Pending(g, hover, 0, 0))
    ensures (forall q :: OnBoard(g.size, q) ==> !Claimable(g, hover, q)) ==> h == g
  {
    PendingZero(g, hover, 0, 0);
    ScanTurns(g, hover, 0, 0);
    ScanTags(g, hover);
    if Pending(g, hover, 0, 0) == 0 then ScanIdle(g, hover, 0, 0); Scan(g, hover, 0, 0)
    else Scan(g, hover, 0, 0)
  }

  /** `ScanTag` for every claimable cell of the board. */
  lemma ScanTags(g: Game, hover: Point -> bool)
    requires Consistent(g)
    ensures forall q {:trigger Tag(Scan(g, hover, 0, 0), q)} :: OnBoard(g.size, q) && Claimable(g, hover, q) ==>
              Tag(Scan(g, hover, 0, 0), q) == Turn(g.move, Pending(g, hover, 0, 0) - Pending(g, hover, q.x, q.y))
  {
    forall q {:trigger Tag(Scan(g, hover, 0, 0), q)} | OnBoard(g.size, q) && Claimable(g, hover, q)
      ensures Tag(Scan(g, hover, 0, 0), q) == Turn(g.move, Pending(g, hover, 0, 0) - Pending(g, hover, q.x, q.y))
    {
      assert Ahead(g.size, 0, 0, q);
      ScanTag(g, hover, 0, 0, q);
    }
  }

  /** With the pointer over exactly one cell `t`, a press is exactly a claim
      of `t`: the mover takes it and the turn passes, unless a player already
      owns it, in which case nothing changes. */
  lemma TickSingleTarget(g: Game, hover: Point -> bool, t: Point)
    requires Consistent(g) && OnBoard(g.size, t)
    requires forall q :: OnBoard(g.size, q) ==> (hover(q) <==> q == t)
    ensures Tick(g, hover) == Claim(g, t)
  {
    ScanSingleTarget(g, hover, t, 0, 0);
  }

  lemma {:induction false} ScanSingleTarget(g: Game, hover: Point -> bool, t: Point, r: nat, c: nat)
    requires Consistent(g) && OnBoard(g.size, t) && r <= g.size && c <= g.size
    requires forall q :: OnBoard(g.size, q) ==> (hover(q) <==> q == t)
    ensures Scan(g, hover, r, c) == if Ahead(g.size, r, c, t) then Claim(g, t) else g
    decreases g.size - r, g.size - c
  {
    if r == g.size {
    } else if c == g.size {
      ScanSingleTarget(g, hover, t, r + 1, 0);
    } else {
      var g' := ClaimIfHovered(g, hover, Point(r, c));
      ScanSingleTarget(g', hover, t, r, c + 1);
      if Point(r, c) == t {
        assert g' == Claim(g, t);
      } else {
        assert g' == g;
      }
    }
  }

  /** The highlight rule for one cell: an empty cell under the pointer takes
      the mover's hover tag, a hover tag away from the pointer is cleared,
      anything else stays. */
  function HoverTag(tag: int, move: int, under: bool): int
  {
    if tag == 0 && under then move + 2
    else if tag > 2 && !under then 0
    else tag
  }

  /** `highlight`: the hover rule applied to every cell. Player tags stay,
      an empty cell under the pointer shows the mover's hover tag, and no
      cell away from the pointer is left highlighted. */
  function Highlight(g: Game, hover: Point -> bool): (h: Game)
    requires Consistent(g)
    ensures Consistent(h) && h.size == g.size && h.move == g.move
    ensures forall q :: OnBoard(g.size, q) && Claimed(Tag(g, q)) ==> Tag(h, q) == Tag(g, q)
    ensures forall q :: OnBoard(g.size, q) && hover(q) && Tag(g, q) == 0 ==> Tag(h, q) == g.move + 2
    ensures forall q :: OnBoard(g.size, q) && !hover(q) ==> Tag(h, q) <= 2
    ensures forall q :: OnBoard(g.size, q) && !hover(q) && Tag(g, q) > 2 ==> Tag(h, q) == 0
    ensures forall q :: OnBoard(g.size, q) && !hover(q) && Tag(g, q) <= 2 ==> Tag(h, q) == Tag(g, q)
    ensures forall q :: OnBoard(g.size, q) && hover(q) && Tag(g, q) != 0 ==> Tag(h, q) == Tag(g, q)
  {
    var n := g.size;
    g.(state := seq(n, r requires 0 <= r < n =>
                      seq(n, c requires 0 <= c < n => HoverTag(g.state[r][c], g.move, hover(Point(r, c))))))
  }

  /** Highlighting twice is highlighting once. */
  lemma HighlightIdempotent(g: Game, hover: Point -> bool)
    requires Consistent(g)
    ensures Highlight(Highlight(g, hover), hover) == Highlight(g, hover)
  {
    var h := Highlight(g, hover);
    var h2 := Highlight(h, hover);
    forall r | 0 <= r < g.size
      ensures h2.state[r] == h.state[r]
    {
      assert forall c :: 0 <= c < g.size ==> Tag(h2, Point(r, c)) == Tag(h, Point(r, c));
    }
  }

  /** The board-size buttons: up is `min(maxSize, size + 1)`, down is
      `max(minSize, size - 1)`; only the size changes. */
  function UpSize(g: Game, maxSize: nat): (r: Game)
    ensures r.state == g.state && r.move == g.move
    ensures g.size < maxSize ==> r.size == g.size + 1
    ensures g.size >= maxSize ==> r.size == maxSize
  {
    g.(size := if maxSize < g.size + 1 then maxSize else g.size + 1)
  }

  function DnSize(g: Game, minSize: nat): (r: Game)
    ensures r.state == g.state && r.move == g.move
    ensures g.size > minSize ==> r.size == g.size - 1
    ensures g.size <= minSize ==> r.size == minSize
  {
    g.(size := if minSize > g.size - 1 then minSize else g.size - 1)
  }

  /** The buttons keep a size inside `[minSize, maxSize]` there, and one
      press down undoes a press up (and the other way round) away from the
      bounds. */
  lemma SizeButtonsKeepRange(g: Game, minSize: nat, maxSize: nat)
    requires minSize <= g.size <= maxSize
    ensures minSize <= UpSize(g, maxSize).size <= maxSize
    ensures minSize <= DnSize(g, minSize).size <= maxSize
    ensures g.size < maxSize ==> DnSize(UpSize(g, maxSize), minSize) == g
    ensures g.size > minSize ==> UpSize(DnSize(g, minSize), maxSize) == g
  {
  }
}

/** The rules the Reversi engine implements, as pure functions of a board
    grid: the scan along one direction, legality, the effect of a placement,
    stone counts, the terminal check and the move list. The `Board` class in
    module Boards is proved against these definitions. */
module Rules {
  import opened Geometry
  import opened Coordinates

  /** Cell contents NONE, BLACK, WHITE (ch4/train_reversi_DNN.py:16-18);
      BLACK and WHITE also name the two sides. */
  datatype Cell = Empty | Black | White

  /** The numeric value the source stores for a cell (0, 1, 2); it is also
      the index of a side in the `rewards` and `agents` lists. */
  function Code(c: Cell): (n: int)
    ensures 0 <= n <= 2
    ensures n == 0 <==> c == Empty
  {
    match c
    case Empty => 0
    case Black => 1
    case White => 2
  }

  /** `opp = BLACK if turn == WHITE else WHITE` (lines 102 and 135). */
  function Opp(c: Cell): Cell {
    if c == White then Black else White
  }

  predicate IsSide(c: Cell) {
    c == Black || c == White
  }

  /** The SIZE x SIZE board, row by row. */
  type Grid = seq<seq<Cell>>

  predicate IsGrid(g: Grid) {
    |g| == SIZE && forall i :: 0 <= i < SIZE ==> |g[i]| == SIZE
  }

  function At(g: Grid, p: Pos): Cell
    requires IsGrid(g) && InBounds(p)
  {
    g[p.0][p.1]
  }

  /** The grid with one cell replaced, as `board[i, j] = v` does. */
  function Set(g: Grid, p: Pos, v: Cell): (r: Grid)
    requires IsGrid(g) && InBounds(p)
    ensures IsGrid(r)
    ensures forall q :: InBounds(q) ==> At(r, q) == if q == p then v else At(g, q)
  {
    g[p.0 := g[p.0][p.1 := v]]
  }

  /** `np.zeros((SIZE, SIZE))`: the grid with every cell empty. */
  function EmptyGrid(): (g: Grid)
    ensures IsGrid(g) && forall q :: InBounds(q) ==> At(g, q) == Empty
  {
    seq(SIZE, i => seq(SIZE, j => Empty))
  }

  /** Two grids that agree on every cell are equal. */
  lemma GridExt(a: Grid, b: Grid)
    requires IsGrid(a) && IsGrid(b)
    requires forall q :: InBounds(q) ==> At(a, q) == At(b, q)
    ensures a == b
  {
    forall i | 0 <= i < SIZE ensures a[i] == b[i] {
      forall j | 0 <= j < SIZE ensures a[i][j] == b[i][j] {
        assert At(a, (i, j)) == At(b, (i, j));
      }
    }
  }

  // ---------------------------------------------------------------------
  // The scan along one direction

  /** The cells strictly beyond `p` along `d`, nearest first, up to the
      edge of the board: what the `while` scans of lines 107-119 and 140-149
      visit after each `i += di; j += dj`. */
  function Ray(g: Grid, p: Pos, d: Pos): (r: seq<Cell>)
    requires IsGrid(g) && InBounds(p) && IsDirection(d)
    ensures |r| == RayLen(p, d)
    ensures forall k :: 0 <= k < |r| ==> r[k] == At(g, Walk(p, d, k + 1))
  {
    seq(RayLen(p, d), k requires 0 <= k < RayLen(p, d) => At(g, Walk(p, d, k + 1)))
  }

  /** Two grids that agree along a ray have the same ray. */
  lemma RayFrame(a: Grid, b: Grid, p: Pos, d: Pos)
    requires IsGrid(a) && IsGrid(b) && InBounds(p) && IsDirection(d)
    requires forall n :: 1 <= n <= RayLen(p, d) ==> At(a, Walk(p, d, n)) == At(b, Walk(p, d, n))
    ensures Ray(a, p, d) == Ray(b, p, d)
  {
    var ra, rb := Ray(a, p, d), Ray(b, p, d);
    forall k | 0 <= k < |ra| ensures ra[k] == rb[k] {
      assert At(a, Walk(p, d, k + 1)) == At(b, Walk(p, d, k + 1));
    }
  }

  /** A ray on which a stone of side `c` captures, AS CODED (lines 111-119
      and 144-149): the first cell is an opponent stone, and the scan then
      meets a stone of `c` before the edge. Cells in between are opponent
      stones OR EMPTY cells: the `== None` test of line 146 never holds for
      a numpy value, so an empty cell does not end the scan once an opponent
      stone has been seen. */
  predicate Captures(ray: seq<Cell>, c: Cell) {
    |ray| > 0 && ray[0] == Opp(c) && IndexOf(ray, c) < |ray|
  }

  /** The capture rule spelled out cell by cell: an opponent stone first,
      then opponent stones and empty cells, then a stone of the mover. */
  lemma CapturesAsCoded(ray: seq<Cell>, c: Cell)
    requires IsSide(c)
    ensures Captures(ray, c) <==>
      |ray| >= 2 && ray[0] == Opp(c) &&
      exists m :: 1 <= m < |ray| && ray[m] == c &&
        forall k :: 1 <= k < m ==> ray[k] == Opp(c) || ray[k] == Empty
  {
    if Captures(ray, c) {
      var m := IndexOf(ray, c);
      assert 1 <= m < |ray| && ray[m] == c;
    }
  }

  /** The scans of lines 107-119 and 140-149 after `k` cells of `ray`:
      none of them was a stone of `c`, and the first was an opponent stone. */
  ghost predicate Scanning(ray: seq<Cell>, c: Cell, k: int) {
    0 <= k <= |ray| && (k >= 1 ==> ray[0] == Opp(c)) && forall m :: 0 <= m < k ==> ray[m] != c
  }

  /** The scan goes on over an opponent stone, and over an empty cell once
      an opponent stone has been seen. */
  lemma ScanContinues(ray: seq<Cell>, c: Cell, k: int)
    requires IsSide(c) && Scanning(ray, c, k - 1) && 1 <= k <= |ray|
    requires ray[k - 1] == Opp(c) || (k >= 2 && ray[k - 1] == Empty)
    ensures Scanning(ray, c, k)
  {
  }

  /** A scan that leaves the board, or whose first cell is not an opponent
      stone, has found no capture. */
  lemma ScanFails(ray: seq<Cell>, c: Cell, k: int)
    requires Scanning(ray, c, k)
    requires k == |ray| || (k == 0 && ray[0] != Opp(c))
    ensures !Captures(ray, c)
  {
  }

  /** A scan that reaches a stone of `c` after an opponent stone has found a
      capture. */
  lemma ScanSucceeds(ray: seq<Cell>, c: Cell, k: int)
    requires Scanning(ray, c, k) && 1 <= k < |ray| && ray[k] == c
    ensures Captures(ray, c) && IndexOf(ray, c) == k
  {
  }

  /** "Opponent, empty, own" captures: the scan does not stop at the empty
      cell (textbook Reversi would reject this ray). */
  lemma EmptyGapCaptures(c: Cell)
    requires IsSide(c)
    ensures Captures([Opp(c), Empty, c], c)
  {
    var s := [Opp(c), Empty, c];
    assert s[0] != c && s[1] != c && s[2] == c;
    assert IndexOf(s, c) == 2;
  }

  /** On a ray with no empty cell the coded rule is the textbook sandwich:
      one or more opponent stones directly followed by a stone of `c`. */
  lemma {:induction false} SandwichWithoutGaps(ray: seq<Cell>, c: Cell)
    requires IsSide(c)
    requires forall k :: 0 <= k < |ray| ==> ray[k] != Empty
    ensures Captures(ray, c) <==>
      exists m :: 1 <= m < |ray| && ray[m] == c && forall k :: 0 <= k < m ==> ray[k] == Opp(c)
  {
    if Captures(ray, c) {
      var m := IndexOf(ray, c);
      forall k | 0 <= k < m ensures ray[k] == Opp(c) {
        assert ray[k] != c && ray[k] != Empty;
      }
    }
    if exists m :: 1 <= m < |ray| && ray[m] == c && forall k :: 0 <= k < m ==> ray[k] == Opp(c) {
      var m :| 1 <= m < |ray| && ray[m] == c && forall k :: 0 <= k < m ==> ray[k] == Opp(c);
      assert ray[0] == Opp(c);
      assert IndexOf(ray, c) <= m;
    }
  }

  // ---------------------------------------------------------------------
  // Legality

  /** `is_available(pos)` (lines 132-150): the cell is empty and the scan
      captures in some entry of `DIR`. */
  predicate Legal(g: Grid, c: Cell, p: Pos)
    requires IsGrid(g)
  {
    InBounds(p) && At(g, p) == Empty && exists t :: 0 <= t < |DIR| && CapturesToward(g, c, p, t)
  }

  /** The scan from `p` captures in entry `t` of `DIR`. The entry (0, 0)
      never captures: its scan stops at once (see `ScanRayCaptures`). */
  predicate CapturesToward(g: Grid, c: Cell, p: Pos, t: int)
    requires IsGrid(g) && InBounds(p) && 0 <= t < |DIR|
  {
    IsDirection(DIR[t]) && Captures(Ray(g, p, DIR[t]), c)
  }

  /** The cells the scan of lines 137-149 (and 104-119) reads from `p`
      along the entry `d` of `DIR`: the ray for a direction; from the null
      offset every step lands on `p` again, so the scan reads that cell. */
  ghost function ScanRay(g: Grid, p: Pos, d: Pos): seq<Cell>
    requires IsGrid(g) && InBounds(p) && -1 <= d.0 <= 1 && -1 <= d.1 <= 1
  {
    if IsDirection(d) then Ray(g, p, d) else [At(g, p)]
  }

  /** The scan of the null offset from a cell without an opponent stone
      (an empty cell in `is_available`, the stone just placed in
      `do_reverse`) stops at its first step and captures nothing, so the
      loops over all nine entries of `DIR` capture exactly along the eight
      directions. */
  lemma ScanRayCaptures(g: Grid, c: Cell, p: Pos, d: Pos)
    requires IsGrid(g) && InBounds(p) && -1 <= d.0 <= 1 && -1 <= d.1 <= 1 && At(g, p) != Opp(c)
    ensures !IsDirection(d) ==> forall n :: Walk(p, d, n) == p
    ensures Captures(ScanRay(g, p, d), c) <==> IsDirection(d) && Captures(Ray(g, p, d), c)
  {
  }

  /** The cell the scan from `p` reaches at step `k`, once the first
      `k - 1` cells have been passed: it is on the board exactly while `k`
      is within `ScanRay`, and then holds that entry. */
  lemma ScanCell(g: Grid, c: Cell, p: Pos, d: Pos, k: int)
    requires IsGrid(g) && InBounds(p) && -1 <= d.0 <= 1 && -1 <= d.1 <= 1 && At(g, p) != Opp(c)
    requires 1 <= k && Scanning(ScanRay(g, p, d), c, k - 1)
    ensures InBounds(Walk(p, d, k)) <==> k <= |ScanRay(g, p, d)|
    ensures k <= |ScanRay(g, p, d)| ==> At(g, Walk(p, d, k)) == ScanRay(g, p, d)[k - 1]
  {
    if IsDirection(d) {
      RayLenBounds(p, d, k);
    }
  }

  /** Every legal move captures: the first cell of a capturing ray is an
      opponent stone that the move turns over. */
  lemma LegalMoveFlips(g: Grid, c: Cell, p: Pos)
    requires IsGrid(g) && Legal(g, c, p)
    ensures exists q :: InBounds(q) && q != p && Flipped(g, c, p, q)
  {
    var t :| 0 <= t < |DIR| && CapturesToward(g, c, p, t);
    var d := DIR[t];
    var q := Walk(p, d, 1);
    WalkGeometry(p, d, 1);
    assert Flipped(g, c, p, q);
  }

  // ---------------------------------------------------------------------
  // Placement

  /** Whether placing `c` at `pos` turns over the stone at `q`: `q` lies on
      a line through `pos`, holds an opponent stone, the ray towards it
      captures, and `q` comes before the first stone of `c` on that ray. */
  predicate Flipped(g: Grid, c: Cell, pos: Pos, q: Pos)
    requires IsGrid(g) && InBounds(pos) && InBounds(q)
  {
    q != pos && Aligned(pos, q) && At(g, q) == Opp(c) && IsDirection(DirOf(pos, q)) &&
    var ray := Ray(g, pos, DirOf(pos, q));
    Captures(ray, c) && DistOf(pos, q) <= IndexOf(ray, c)
  }

  /** The board after `put_stone` succeeds (lines 73-76, 100-119): `pos`
      holds `c` and every flipped stone turns to `c`. */
  function Place(g: Grid, c: Cell, pos: Pos): (r: Grid)
    requires IsGrid(g) && InBounds(pos)
    ensures IsGrid(r)
    ensures forall q :: InBounds(q) ==> At(r, q) == if q == pos then c else if Flipped(g, c, pos, q) then c else At(g, q)
  {
    seq(SIZE, i requires 0 <= i < SIZE =>
      seq(SIZE, j requires 0 <= j < SIZE =>
        if (i, j) == pos then c else if Flipped(g, c, pos, (i, j)) then c else At(g, (i, j))))
  }

  /** Flipping is decided ray by ray: whether the stone `n` steps from `pos`
      along `d` turns over depends on that one ray only, and it does exactly
      when the ray captures and the stone is an opponent stone before the
      ray's first stone of `c`. */
  lemma FlipsOnlyOwnRay(g: Grid, c: Cell, pos: Pos, d: Pos, n: int)
    requires IsGrid(g) && InBounds(pos) && IsDirection(d) && 1 <= n <= RayLen(pos, d)
    ensures var ray := Ray(g, pos, d);
      Flipped(g, c, pos, Walk(pos, d, n)) <==>
        Captures(ray, c) && ray[n - 1] == Opp(c) && n <= IndexOf(ray, c)
  {
    WalkGeometry(pos, d, n);
  }

  /** A flipped stone lies in a real direction from `pos`, strictly before
      the first stone of `c` on the capturing ray that way. */
  lemma FlippedOnRay(g: Grid, c: Cell, pos: Pos, q: Pos)
    requires IsGrid(g) && InBounds(pos) && InBounds(q) && Flipped(g, c, pos, q)
    ensures IsDirection(DirOf(pos, q)) && q == Walk(pos, DirOf(pos, q), DistOf(pos, q))
    ensures var ray := Ray(g, pos, DirOf(pos, q));
      Captures(ray, c) && 1 <= DistOf(pos, q) <= IndexOf(ray, c) && ray[DistOf(pos, q) - 1] == Opp(c)
  {
    AlignedIsWalk(pos, q);
  }

  /** Which stones flip in direction `d` depends only on the cells that way:
      two grids that agree there flip the same stones there. */
  lemma FlippedFrame(a: Grid, b: Grid, c: Cell, pos: Pos, d: Pos)
    requires IsGrid(a) && IsGrid(b) && InBounds(pos) && IsDirection(d)
    requires forall q :: InBounds(q) && q != pos && Aligned(pos, q) && DirOf(pos, q) == d ==> At(a, q) == At(b, q)
    ensures forall q :: InBounds(q) && DirOf(pos, q) == d ==> (Flipped(a, c, pos, q) <==> Flipped(b, c, pos, q))
  {
    forall n | 1 <= n <= RayLen(pos, d) ensures At(a, Walk(pos, d, n)) == At(b, Walk(pos, d, n)) {
      WalkGeometry(pos, d, n);
    }
    RayFrame(a, b, pos, d);
  }

  /** The cell `pos` itself plays no part in which stones flip, so writing
      the mover's stone there first (line 75) does not change them. */
  lemma FlippedIgnoresPos(g: Grid, c: Cell, pos: Pos, v: Cell)
    requires IsGrid(g) && InBounds(pos)
    ensures forall q :: InBounds(q) ==> (Flipped(Set(g, pos, v), c, pos, q) <==> Flipped(g, c, pos, q))
  {
    forall q | InBounds(q) && q != pos && Aligned(pos, q)
      ensures Flipped(Set(g, pos, v), c, pos, q) <==> Flipped(g, c, pos, q)
    {
      AlignedIsWalk(pos, q);
      FlippedFrame(Set(g, pos, v), g, c, pos, DirOf(pos, q));
    }
  }

  /** The grid after the scan of `do_reverse` along `d` (lines 103-119):
      when the ray captures, the opponent stones before its first stone of
      `c` turn to `c`; otherwise the grid stays as it is. */
  function FlipToward(g: Grid, c: Cell, pos: Pos, d: Pos): (r: Grid)
    requires IsGrid(g) && InBounds(pos) && IsDirection(d)
    ensures IsGrid(r)
  {
    var ray := Ray(g, pos, d);
    seq(SIZE, i requires 0 <= i < SIZE =>
      seq(SIZE, j requires 0 <= j < SIZE =>
        if Captures(ray, c) && Within(pos, d, (i, j), IndexOf(ray, c)) && g[i][j] == Opp(c) then c else g[i][j]))
  }

  /** The scan along `d` turns exactly the stones that a placement at `pos`
      flips in direction `d`, and touches no other cell. */
  lemma FlipTowardIsFlipped(g: Grid, c: Cell, pos: Pos, d: Pos)
    requires IsGrid(g) && InBounds(pos) && IsDirection(d)
    ensures forall q :: InBounds(q) ==>
      At(FlipToward(g, c, pos, d), q) == if DirOf(pos, q) == d && Flipped(g, c, pos, q) then c else At(g, q)
  {
    forall q | InBounds(q)
      ensures At(FlipToward(g, c, pos, d), q) == if DirOf(pos, q) == d && Flipped(g, c, pos, q) then c else At(g, q)
    {
      FlipTowardAt(g, c, pos, d, q);
    }
  }

  /** One cell of `FlipTowardIsFlipped`. */
  lemma FlipTowardAt(g: Grid, c: Cell, pos: Pos, d: Pos, q: Pos)
    requires IsGrid(g) && InBounds(pos) && IsDirection(d) && InBounds(q)
    ensures At(FlipToward(g, c, pos, d), q) == if DirOf(pos, q) == d && Flipped(g, c, pos, q) then c else At(g, q)
  {
    assert (q.0, q.1) == q;
    assert DirOf(pos, q) == d <==> Sign(q.0 - pos.0) == d.0 && Sign(q.1 - pos.1) == d.1;
  }

  /** The scan along `d` leaves every cell off that ray as it is. */
  lemma FlipTowardElsewhere(g: Grid, c: Cell, pos: Pos, d: Pos, q: Pos)
    requires IsGrid(g) && InBounds(pos) && IsDirection(d) && InBounds(q)
    requires DirOf(pos, q).0 != d.0 || DirOf(pos, q).1 != d.1
    ensures At(FlipToward(g, c, pos, d), q) == At(g, q)
  {
    var ray := Ray(g, pos, d);
    assert !Within(pos, d, (q.0, q.1), IndexOf(ray, c));
  }

  /** A ray that does not capture leaves the grid as it is. */
  lemma FlipTowardNone(g: Grid, c: Cell, pos: Pos, d: Pos)
    requires IsGrid(g) && InBounds(pos) && IsDirection(d) && !Captures(Ray(g, pos, d), c)
    ensures FlipToward(g, c, pos, d) == g
  {
    var r := FlipToward(g, c, pos, d);
    forall i | 0 <= i < SIZE ensures r[i] == g[i] {
      assert forall j :: 0 <= j < SIZE ==> r[i][j] == g[i][j];
    }
  }

  /** The scans of `do_reverse` over the first `t` entries of `DIR`, each
      on the grid the previous ones left. The entry (0, 0) changes nothing
      (see `Boards.Board.DoReverse`). */
  function FlipDirs(g: Grid, c: Cell, pos: Pos, t: int): (r: Grid)
    requires IsGrid(g) && InBounds(pos) && 0 <= t
    ensures IsGrid(r)
    decreases t
  {
    if t == 0 then g
    else
      var d := DirAt(t - 1);
      if d != (0, 0) then FlipToward(FlipDirs(g, c, pos, t - 1), c, pos, d)
      else FlipDirs(g, c, pos, t - 1)
  }

  /** After the scans of the first `t` entries of `DIR`, a cell has turned
      exactly when a placement flips it in one of those directions. */
  lemma {:induction false} FlipDirsAt(g: Grid, c: Cell, pos: Pos, t: int, q: Pos)
    requires IsGrid(g) && InBounds(pos) && 0 <= t <= 9 && InBounds(q)
    ensures At(FlipDirs(g, c, pos, t), q) == if DirIndex(DirOf(pos, q)) < t && Flipped(g, c, pos, q) then c else At(g, q)
    decreases t
  {
    if t > 0 {
      var d := DirAt(t - 1);
      var e := DirOf(pos, q);
      if e.0 != d.0 || e.1 != d.1 || d == (0, 0) {
        FlipDirsAt(g, c, pos, t - 1, q);
        FlipDirsOff(g, c, pos, t, q);
      } else {
        FlipDirsOn(g, c, pos, t, q);
      }
    }
  }

  /** Off the ray of entry `t - 1`, the scan of that entry changes nothing,
      and that entry is not the direction of `q` (or is the null entry). */
  lemma FlipDirsOff(g: Grid, c: Cell, pos: Pos, t: int, q: Pos)
    requires IsGrid(g) && InBounds(pos) && 0 < t <= 9 && InBounds(q)
    requires DirOf(pos, q).0 != DirAt(t - 1).0 || DirOf(pos, q).1 != DirAt(t - 1).1 || DirAt(t - 1) == (0, 0)
    requires At(FlipDirs(g, c, pos, t - 1), q) ==
      if DirIndex(DirOf(pos, q)) < t - 1 && Flipped(g, c, pos, q) then c else At(g, q)
    ensures At(FlipDirs(g, c, pos, t), q) ==
      if DirIndex(DirOf(pos, q)) < t && Flipped(g, c, pos, q) then c else At(g, q)
  {
    var d := DirAt(t - 1);
    var e := DirOf(pos, q);
    if d != (0, 0) {
      FlipTowardElsewhere(FlipDirs(g, c, pos, t - 1), c, pos, d, q);
    } else if e.0 == d.0 && e.1 == d.1 {
      assert q.0 == pos.0 && q.1 == pos.1;
    }
  }

  /** On the ray of entry `t - 1`, the scans before it left the cell and
      the ray alone, and that entry's scan turns what a placement flips. */
  lemma FlipDirsOn(g: Grid, c: Cell, pos: Pos, t: int, q: Pos)
    requires IsGrid(g) && InBounds(pos) && 0 < t <= 9 && InBounds(q) && DirAt(t - 1) != (0, 0)
    requires DirOf(pos, q).0 == DirAt(t - 1).0 && DirOf(pos, q).1 == DirAt(t - 1).1
    ensures At(FlipDirs(g, c, pos, t), q) ==
      if DirIndex(DirOf(pos, q)) < t && Flipped(g, c, pos, q) then c else At(g, q)
  {
    FlipDirsRay(g, c, pos, t);
    FlipDirsLater(g, c, pos, t - 1, q);
    FlipDirsOnRay(g, c, pos, t, q);
  }

  /** On the ray of entry `t - 1`, the scan of that entry turns what a
      placement flips, given that the earlier scans left the ray alone. */
  lemma FlipDirsOnRay(g: Grid, c: Cell, pos: Pos, t: int, q: Pos)
    requires IsGrid(g) && InBounds(pos) && 0 < t <= 9 && InBounds(q) && IsDirection(DirAt(t - 1))
    requires DirOf(pos, q).0 == DirAt(t - 1).0 && DirOf(pos, q).1 == DirAt(t - 1).1
    requires Ray(FlipDirs(g, c, pos, t - 1), pos, DirAt(t - 1)) == Ray(g, pos, DirAt(t - 1))
    requires At(FlipDirs(g, c, pos, t - 1), q) == At(g, q)
    ensures At(FlipDirs(g, c, pos, t), q) == if Flipped(g, c, pos, q) then c else At(g, q)
  {
    var d := DirAt(t - 1);
    FlipTowardFrame(FlipDirs(g, c, pos, t - 1), g, c, pos, d, q);
    FlipTowardIsFlipped(g, c, pos, d);
  }

  /** Two grids with the same ray along `d` and the same cell `q` agree at
      `q` after the scan along `d`. */
  lemma FlipTowardFrame(a: Grid, b: Grid, c: Cell, pos: Pos, d: Pos, q: Pos)
    requires IsGrid(a) && IsGrid(b) && InBounds(pos) && IsDirection(d) && InBounds(q)
    requires Ray(a, pos, d) == Ray(b, pos, d) && At(a, q) == At(b, q)
    ensures At(FlipToward(a, c, pos, d), q) == At(FlipToward(b, c, pos, d), q)
  {
  }

  /** The scans of the first `t` entries of `DIR` leave every cell in a
      later direction as it was. */
  lemma {:induction false} FlipDirsLater(g: Grid, c: Cell, pos: Pos, t: int, q: Pos)
    requires IsGrid(g) && InBounds(pos) && 0 <= t <= 9 && InBounds(q) && DirIndex(DirOf(pos, q)) >= t
    ensures At(FlipDirs(g, c, pos, t), q) == At(g, q)
    decreases t
  {
    if t > 0 {
      FlipDirsLater(g, c, pos, t - 1, q);
      var d := DirAt(t - 1);
      if d != (0, 0) {
        assert DirOf(pos, q).0 != d.0 || DirOf(pos, q).1 != d.1;
        FlipTowardElsewhere(FlipDirs(g, c, pos, t - 1), c, pos, d, q);
      }
    }
  }

  /** The scans before entry `t - 1` of `DIR` leave the ray that way as it
      was: the rays from `pos` are disjoint. */
  lemma FlipDirsRay(g: Grid, c: Cell, pos: Pos, t: int)
    requires IsGrid(g) && InBounds(pos) && 0 < t <= 9 && IsDirection(DirAt(t - 1))
    ensures Ray(FlipDirs(g, c, pos, t - 1), pos, DirAt(t - 1)) == Ray(g, pos, DirAt(t - 1))
  {
    var d := DirAt(t - 1);
    forall n | 1 <= n <= RayLen(pos, d)
      ensures At(FlipDirs(g, c, pos, t - 1), Walk(pos, d, n)) == At(g, Walk(pos, d, n))
    {
      FlipDirsRayCell(g, c, pos, t, n);
    }
    RayFrame(FlipDirs(g, c, pos, t - 1), g, pos, d);
  }

  /** One cell of `FlipDirsRay`: the cell `n` steps out along entry `t - 1`. */
  lemma FlipDirsRayCell(g: Grid, c: Cell, pos: Pos, t: int, n: int)
    requires IsGrid(g) && InBounds(pos) && 0 < t <= 9 && IsDirection(DirAt(t - 1)) && 1 <= n <= RayLen(pos, DirAt(t - 1))
    ensures InBounds(Walk(pos, DirAt(t - 1), n))
    ensures At(FlipDirs(g, c, pos, t - 1), Walk(pos, DirAt(t - 1), n)) == At(g, Walk(pos, DirAt(t - 1), n))
  {
    var d := DirAt(t - 1);
    var q := Walk(pos, d, n);
    RayLenBounds(pos, d, n);
    WalkGeometry(pos, d, n);
    assert DirOf(pos, q).0 == d.0 && DirOf(pos, q).1 == d.1;
    FlipDirsLater(g, c, pos, t - 1, q);
  }

  /** `put_stone` followed by `do_reverse` over all of `DIR` is `Place`. */
  lemma ReverseIsPlace(g: Grid, c: Cell, pos: Pos)
    requires IsGrid(g) && InBounds(pos)
    ensures FlipDirs(Set(g, pos, c), c, pos, 9) == Place(g, c, pos)
  {
    forall q | InBounds(q) ensures At(FlipDirs(Set(g, pos, c), c, pos, 9), q) == At(Place(g, c, pos), q) {
      ReverseIsPlaceAt(g, c, pos, q);
    }
    GridExt(FlipDirs(Set(g, pos, c), c, pos, 9), Place(g, c, pos));
  }

  /** One cell of `ReverseIsPlace`. */
  lemma ReverseIsPlaceAt(g: Grid, c: Cell, pos: Pos, q: Pos)
    requires IsGrid(g) && InBounds(pos) && InBounds(q)
    ensures At(FlipDirs(Set(g, pos, c), c, pos, 9), q) == At(Place(g, c, pos), q)
  {
    FlipDirsAt(Set(g, pos, c), c, pos, 9, q);
    assert DirIndex(DirOf(pos, q)) < 9;
    FlippedIgnoresPos(g, c, pos, c);
  }

  /** What a successful placement does to each cell: `pos` gets `c`; every
      other cell keeps its contents or goes from the opponent to `c`, and the
      latter only strictly before the first stone of `c` on a capturing ray
      from `pos`. In particular empty cells other than `pos` stay empty. */
  lemma PlaceEffect(g: Grid, c: Cell, pos: Pos)
    requires IsGrid(g) && InBounds(pos)
    ensures At(Place(g, c, pos), pos) == c
    ensures forall q :: InBounds(q) && q != pos ==>
      At(Place(g, c, pos), q) == At(g, q) ||
      (At(g, q) == Opp(c) && At(Place(g, c, pos), q) == c &&
       (exists d, n :: IsDirection(d) && 1 <= n < |Ray(g, pos, d)| && q == Walk(pos, d, n) &&
          Captures(Ray(g, pos, d), c) && n <= IndexOf(Ray(g, pos, d), c)))
    ensures forall q :: InBounds(q) && q != pos && At(g, q) == Empty ==> At(Place(g, c, pos), q) == Empty
  {
    var r := Place(g, c, pos);
    forall q | InBounds(q) && q != pos && At(r, q) != At(g, q)
      ensures exists d, n :: (IsDirection(d) && 1 <= n < |Ray(g, pos, d)| && q == Walk(pos, d, n) &&
        Captures(Ray(g, pos, d), c) && n <= IndexOf(Ray(g, pos, d), c))
    {
      assert Flipped(g, c, pos, q);
      AlignedIsWalk(pos, q);
      var d, n := DirOf(pos, q), DistOf(pos, q);
      assert q == Walk(pos, d, n);
    }
  }

  // ---------------------------------------------------------------------
  // Counting stones

  /** Number of cells equal to `c` in one row. */
  function CountRow(s: seq<Cell>, c: Cell): nat {
    if |s| == 0 then 0 else CountRow(s[..|s| - 1], c) + (if s[|s| - 1] == c then 1 else 0)
  }

  /** Number of cells equal to `c` on the board: `len(np.where(board ==
      c)[0])` (lines 157-160). */
  function Count(g: Grid, c: Cell): nat {
    if |g| == 0 then 0 else Count(g[..|g| - 1], c) + CountRow(g[|g| - 1], c)
  }

  lemma {:induction false} RowPartition(s: seq<Cell>)
    ensures CountRow(s, Empty) + CountRow(s, Black) + CountRow(s, White) == |s|
    decreases |s|
  {
    if |s| > 0 {
      RowPartition(s[..|s| - 1]);
    }
  }

  lemma {:induction false} RowsPartition(g: Grid)
    requires forall i :: 0 <= i < |g| ==> |g[i]| == SIZE
    ensures Count(g, Empty) + Count(g, Black) + Count(g, White) == |g| * SIZE
    decreases |g|
  {
    if |g| > 0 {
      RowsPartition(g[..|g| - 1]);
      RowPartition(g[|g| - 1]);
    }
  }

  /** Every cell is exactly one of the three states. */
  lemma CountPartition(g: Grid)
    requires IsGrid(g)
    ensures Count(g, Empty) + Count(g, Black) + Count(g, White) == SIZE * SIZE
  {
    RowsPartition(g);
  }

  lemma {:induction false} RowMono(s: seq<Cell>, t: seq<Cell>, x: Cell, y: Cell)
    requires |s| == |t|
    requires forall j :: 0 <= j < |s| && s[j] == x ==> t[j] == y
    ensures CountRow(s, x) <= CountRow(t, y)
    decreases |s|
  {
    if |s| > 0 {
      RowMono(s[..|s| - 1], t[..|t| - 1], x, y);
    }
  }

  lemma {:induction false} RowsMono(a: Grid, b: Grid, x: Cell, y: Cell)
    requires |a| == |b| && forall i :: 0 <= i < |a| ==> |a[i]| == |b[i]|
    requires forall i, j :: 0 <= i < |a| && 0 <= j < |a[i]| && a[i][j] == x ==> b[i][j] == y
    ensures Count(a, x) <= Count(b, y)
    decreases |a|
  {
    if |a| > 0 {
      var k := |a| - 1;
      RowsMono(a[..k], b[..k], x, y);
      RowMono(a[k], b[k], x, y);
    }
  }

  /** Counting is monotone under a cell-wise implication: if every `x` of
      `a` is a `y` in `b`, then `b` has at least as many `y` as `a` has `x`. */
  lemma CountMono(a: Grid, b: Grid, x: Cell, y: Cell)
    requires IsGrid(a) && IsGrid(b)
    requires forall q :: InBounds(q) && At(a, q) == x ==> At(b, q) == y
    ensures Count(a, x) <= Count(b, y)
  {
    forall i, j | 0 <= i < |a| && 0 <= j < |a[i]| && a[i][j] == x ensures b[i][j] == y {
      assert At(a, (i, j)) == x;
    }
    RowsMono(a, b, x, y);
  }

  lemma {:induction false} RowSet(s: seq<Cell>, j: int, v: Cell, x: Cell)
    requires 0 <= j < |s|
    ensures CountRow(s[j := v], x) + (if s[j] == x then 1 else 0) == CountRow(s, x) + (if v == x then 1 else 0)
    decreases |s|
  {
    var k := |s| - 1;
    if j < k {
      assert s[j := v][..k] == s[..k][j := v];
      RowSet(s[..k], j, v, x);
    } else {
      assert s[j := v][..k] == s[..k];
    }
  }

  lemma {:induction false} RowsSet(g: Grid, i: int, row: seq<Cell>, x: Cell)
    requires 0 <= i < |g|
    ensures Count(g[i := row], x) + CountRow(g[i], x) == Count(g, x) + CountRow(row, x)
    decreases |g|
  {
    var k := |g| - 1;
    if i < k {
      assert g[i := row][..k] == g[..k][i := row];
      RowsSet(g[..k], i, row, x);
    } else {
      assert g[i := row][..k] == g[..k];
    }
  }

  /** Replacing one cell changes each count by the cell's old and new
      contents only. */
  lemma CountSet(g: Grid, p: Pos, v: Cell, x: Cell)
    requires IsGrid(g) && InBounds(p)
    ensures Count(Set(g, p, v), x) + (if At(g, p) == x then 1 else 0) == Count(g, x) + (if v == x then 1 else 0)
  {
    RowSet(g[p.0], p.1, v, x);
    RowsSet(g, p.0, g[p.0][p.1 := v], x);
  }

  /** Stone counts after a legal placement: one empty cell fewer, so one
      stone more on the board; the mover gains the placed stone and at least
      one captured stone; the opponent loses at least that one. */
  lemma PlaceCounts(g: Grid, c: Cell, pos: Pos)
    requires IsGrid(g) && IsSide(c) && Legal(g, c, pos)
    ensures Count(Place(g, c, pos), Empty) + 1 == Count(g, Empty)
    ensures Count(Place(g, c, pos), Black) + Count(Place(g, c, pos), White) == Count(g, Black) + Count(g, White) + 1
    ensures Count(Place(g, c, pos), c) >= Count(g, c) + 2
    ensures Count(Place(g, c, pos), Opp(c)) + 1 <= Count(g, Opp(c))
  {
    var r := Place(g, c, pos);
    var s := Set(g, pos, c);
    PlaceEffect(g, c, pos);
    // `r` is `s` with some opponent stones turned to `c`.
    CountSet(g, pos, c, Empty);
    CountMono(r, s, Empty, Empty);
    CountMono(s, r, Empty, Empty);
    CountPartition(g);
    CountPartition(r);
    LegalMoveFlips(g, c, pos);
    var q :| InBounds(q) && q != pos && Flipped(g, c, pos, q);
    // `s` with `q` turned to `c` still has at most the stones of `c` that
    // `r` has, and at least the opponent stones `r` has.
    var s2 := Set(s, q, c);
    CountSet(g, pos, c, c);
    CountSet(s, q, c, c);
    CountMono(s2, r, c, c);
    CountSet(g, pos, c, Opp(c));
    CountSet(s, q, c, Opp(c));
    CountMono(r, s2, Opp(c), Opp(c));
  }

  // ---------------------------------------------------------------------
  // Terminal check

  /** No empty cell left: `np.count_nonzero(board) == SIZE * SIZE`. */
  predicate Full(g: Grid) {
    Count(g, Empty) == 0
  }

  /** The fields `end_check` writes: `game_end`, `winner`, `nofb`, `nofw`. */
  datatype Verdict = Verdict(gameEnd: bool, winner: Cell, nofb: int, nofw: int)

  /** `end_check` (lines 153-160) on the grid and pass counter: when the
      board is full or both sides passed, the game ends and BLACK wins only
      with strictly more stones, so a tie goes to WHITE; otherwise nothing
      changes. */
  function Judge(g: Grid, pss: int, v: Verdict): (r: Verdict)
    ensures r.gameEnd <==> v.gameEnd || Full(g) || pss == 2
    ensures (Full(g) || pss == 2) ==>
      r.nofb == Count(g, Black) && r.nofw == Count(g, White) &&
      (r.winner == Black <==> Count(g, Black) > Count(g, White)) &&
      (r.winner == White <==> Count(g, Black) <= Count(g, White))
    ensures !(Full(g) || pss == 2) ==> r == v
  {
    if Full(g) || pss == 2 then
      var b, w := Count(g, Black), Count(g, White);
      Verdict(true, if b > w then Black else White, b, w)
    else v
  }

  /** Checking twice is checking once. */
  lemma JudgeIdempotent(g: Grid, pss: int, v: Verdict)
    ensures Judge(g, pss, Judge(g, pss, v)) == Judge(g, pss, v)
  {
  }

  /** Once the game has ended through `end_check`, there is always a winner:
      a game that starts with winner NONE never ends in a draw, so the draw
      branch of the training loop (line 258) is dead. */
  lemma NoDraw(g: Grid, pss: int, v: Verdict)
    requires v.gameEnd ==> v.winner != Empty
    ensures Judge(g, pss, v).gameEnd ==> IsSide(Judge(g, pss, v).winner)
  {
  }

  // ---------------------------------------------------------------------
  // Move enumeration

  /** `p` comes before `q` in row-major order, the order in which
      `np.where` lists the empty cells. */
  predicate RowMajor(p: Pos, q: Pos) {
    p.0 < q.0 || (p.0 == q.0 && p.1 < q.1)
  }

  /** The cells of `s` are in strictly increasing row-major order. */
  predicate Increasing(s: seq<Pos>) {
    forall a, b :: 0 <= a < b < |s| ==> RowMajor(s[a], s[b])
  }

  /** The legal cells before (i, j) in row-major order, in that order. */
  function MovesBefore(g: Grid, c: Cell, i: int, j: int): seq<Pos>
    requires IsGrid(g) && 0 <= i && 0 <= j
    decreases i, j
  {
    if j == 0 then (if i == 0 then [] else MovesBefore(g, c, i - 1, SIZE))
    else MovesBefore(g, c, i, j - 1) + (if Legal(g, c, (i, j - 1)) then [(i, j - 1)] else [])
  }

  /** `search_positions` (lines 122-129): the empty cells, in the row-major
      order of `np.where`, at which `is_available` holds. */
  function LegalMoves(g: Grid, c: Cell): seq<Pos>
    requires IsGrid(g)
  {
    MovesBefore(g, c, SIZE, 0)
  }

  /** The enumeration up to (i, j) lists exactly the legal cells before it. */
  lemma {:induction false} MovesBeforeMembers(g: Grid, c: Cell, i: int, j: int)
    requires IsGrid(g) && 0 <= i && 0 <= j <= SIZE
    ensures forall p :: p in MovesBefore(g, c, i, j) <==> RowMajor(p, (i, j)) && Legal(g, c, p)
    decreases i, j
  {
    if j == 0 {
      if i > 0 {
        MovesBeforeMembers(g, c, i - 1, SIZE);
      }
    } else {
      MovesBeforeMembers(g, c, i, j - 1);
      forall p ensures p in MovesBefore(g, c, i, j) <==> RowMajor(p, (i, j)) && Legal(g, c, p) {
        MovesBeforeMember(g, c, i, j, p);
      }
    }
  }

  /** One cell more of the row-major sweep: `p` is listed after `j` cells
      of row `i` exactly when it was listed after `j - 1` of them or it is
      the legal cell (i, j - 1). */
  lemma MovesBeforeMember(g: Grid, c: Cell, i: int, j: int, p: Pos)
    requires IsGrid(g) && 0 <= i && 1 <= j <= SIZE
    requires p in MovesBefore(g, c, i, j - 1) <==> RowMajor(p, (i, j - 1)) && Legal(g, c, p)
    ensures p in MovesBefore(g, c, i, j) <==> RowMajor(p, (i, j)) && Legal(g, c, p)
  {
    var x := (i, j - 1);
    assert p in MovesBefore(g, c, i, j) <==> p in MovesBefore(g, c, i, j - 1) || (Legal(g, c, x) && p == x);
    assert p == x <==> p.0 == i && p.1 == j - 1;
  }

  /** Two increasing lists, every cell of the first before every cell of
      the second, make an increasing list. */
  lemma ConcatIncreasing(s: seq<Pos>, r: seq<Pos>)
    requires Increasing(s) && Increasing(r)
    requires forall a, b :: 0 <= a < |s| && 0 <= b < |r| ==> RowMajor(s[a], r[b])
    ensures Increasing(s + r)
  {
    forall a, b | 0 <= a < b < |s + r| ensures RowMajor((s + r)[a], (s + r)[b]) {
      if b < |s| {
        assert (s + r)[a] == s[a] && (s + r)[b] == s[b];
      } else if a < |s| {
        assert (s + r)[a] == s[a] && (s + r)[b] == r[b - |s|];
      } else {
        assert (s + r)[a] == r[a - |s|] && (s + r)[b] == r[b - |s|];
      }
    }
  }

  /** The enumeration runs in row-major order. */
  lemma {:induction false} MovesBeforeIncreasing(g: Grid, c: Cell, i: int, j: int)
    requires IsGrid(g) && 0 <= i && 0 <= j <= SIZE
    ensures Increasing(MovesBefore(g, c, i, j))
    decreases i, j
  {
    if j == 0 {
      if i > 0 {
        MovesBeforeIncreasing(g, c, i - 1, SIZE);
      }
    } else {
      MovesBeforeIncreasing(g, c, i, j - 1);
      MovesBeforeMembers(g, c, i, j - 1);
      var s, x := MovesBefore(g, c, i, j - 1), (i, j - 1);
      forall a, b | 0 <= a < |s| && 0 <= b < |[x]| ensures RowMajor(s[a], [x][b]) {
        assert s[a] in s;
      }
      ConcatIncreasing(s, [x]);
    }
  }

  /** The move list holds exactly the legal cells, each once, in strictly
      increasing row-major order. */
  lemma LegalMovesExact(g: Grid, c: Cell)
    requires IsGrid(g)
    ensures forall p :: p in LegalMoves(g, c) <==> Legal(g, c, p)
    ensures Increasing(LegalMoves(g, c))
    ensures forall a, b :: 0 <= a < b < |LegalMoves(g, c)| ==> LegalMoves(g, c)[a] != LegalMoves(g, c)[b]
  {
    MovesBeforeMembers(g, c, SIZE, 0);
    MovesBeforeIncreasing(g, c, SIZE, 0);
  }

  /** Each entry of the move list is a legal cell on the board. */
  lemma LegalMoveAt(g: Grid, c: Cell, k: int)
    requires IsGrid(g) && 0 <= k < |LegalMoves(g, c)|
    ensures InBounds(LegalMoves(g, c)[k]) && Legal(g, c, LegalMoves(g, c)[k])
  {
    LegalMovesExact(g, c);
    assert LegalMoves(g, c)[k] in LegalMoves(g, c);
  }

  /** Two lists in strictly increasing row-major order with the same
      members are the same list. */
  lemma {:induction false} SortedUnique(a: seq<Pos>, b: seq<Pos>)
    requires Increasing(a) && Increasing(b)
    requires forall p :: p in a <==> p in b
    ensures a == b
    decreases |a| + |b|
  {
    assert |a| > 0 ==> a[0] in a;
    assert |b| > 0 ==> b[0] in b;
    if |a| > 0 && |b| > 0 {
      assert a[0] in a && b[0] in b;
      var k :| 0 <= k < |b| && b[k] == a[0];
      var m :| 0 <= m < |a| && a[m] == b[0];
      assert a[0] == b[0];
      forall p ensures p in a[1..] <==> p in b[1..] {
        if p in a[1..] {
          var i :| 1 <= i < |a| && a[i] == p;
          assert RowMajor(a[0], a[i]);
          assert p in a && p in b;
          var i' :| 0 <= i' < |b| && b[i'] == p;
          assert i' != 0 && b[1..][i' - 1] == p;
        }
        if p in b[1..] {
          var i :| 1 <= i < |b| && b[i] == p;
          assert RowMajor(b[0], b[i]);
          assert p in b && p in a;
          var i' :| 0 <= i' < |a| && a[i'] == p;
          assert i' != 0 && a[1..][i' - 1] == p;
        }
      }
      SortedUnique(a[1..], b[1..]);
      assert a == [a[0]] + a[1..] && b == [b[0]] + b[1..];
    }
  }

  /** The move list is determined by the set of legal cells: any list of
      exactly the legal cells in strictly increasing row-major order is the
      list `search_positions` builds. */
  lemma LegalMovesAre(g: Grid, c: Cell, moves: seq<Pos>)
    requires IsGrid(g)
    requires forall p :: p in moves <==> Legal(g, c, p)
    requires Increasing(moves)
    ensures LegalMoves(g, c) == moves
  {
    LegalMovesExact(g, c);
    SortedUnique(LegalMoves(g, c), moves);
  }

  // ---------------------------------------------------------------------
  // Observation

  /** `np.reshape(board.copy(), (-1,))` (lines 238, 265): the board as the
      flat vector of cell codes the agents observe, cell (i, j) at index
      `i * SIZE + j`. */
  function Observation(g: Grid): (obs: seq<int>)
    requires IsGrid(g)
    ensures |obs| == SIZE * SIZE
    ensures forall p :: InBounds(p) ==> obs[Flatten(p)] == Code(At(g, p))
  {
    var obs := seq(SIZE * SIZE, k requires 0 <= k < SIZE * SIZE => Code(At(g, Unflatten(k))));
    assert forall p :: InBounds(p) ==> Unflatten(Flatten(p)) == p && 0 <= Flatten(p) < SIZE * SIZE by {
      forall p | InBounds(p) ensures Unflatten(Flatten(p)) == p && 0 <= Flatten(p) < SIZE * SIZE {
        FlattenRoundTrip(p);
      }
    }
    obs
  }
}

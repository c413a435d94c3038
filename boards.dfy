/** The `Board` class of the Reversi engine (ch4/train_reversi_DNN.py:47-160):
    a SIZE x SIZE array of cells with the side to move, the pass counter,
    the end-of-game fields and the cached list of legal moves. Every method
    is proved against the pure rules of module Rules through the ghost grid
    `cells`, which `Valid` keeps equal to the array. */
module Boards {
  import opened Geometry
  import opened Coordinates
  import opened Rules
  import opened Opening

  /** The array `a` is SIZE x SIZE and holds the grid `g`. */
  ghost predicate Mirrors(a: array2<Cell>, g: Grid)
    reads a
  {
    a.Length0 == SIZE && a.Length1 == SIZE && IsGrid(g) &&
    forall i, j :: 0 <= i < SIZE && 0 <= j < SIZE ==> a[i, j] == g[i][j]
  }

  /** `board[i, j] = v`: one cell written, the grid follows. */
  method Store(a: array2<Cell>, ghost g: Grid, p: Pos, v: Cell) returns (ghost r: Grid)
    requires Mirrors(a, g) && InBounds(p)
    modifies a
    ensures Mirrors(a, r) && r == Set(g, p, v)
  {
    a[p.0, p.1] := v;
    r := Set(g, p, v);
    forall i, j | 0 <= i < SIZE && 0 <= j < SIZE ensures a[i, j] == r[i][j] {
      assert At(r, (i, j)) == r[i][j];
    }
  }

  /** `ndarray.copy()`: a fresh array with the same cells. */
  method CopyBoard(a: array2<Cell>, ghost g: Grid) returns (b: array2<Cell>)
    requires Mirrors(a, g)
    ensures fresh(b) && Mirrors(b, g)
  {
    b := new Cell[SIZE, SIZE]((i, j) reads a => if 0 <= i < a.Length0 && 0 <= j < a.Length1 then a[i, j] else Empty);
  }

  /** The board `board_reset` builds (lines 57-62): a fresh array of
      empty cells with WHITE on (mid-1, mid-1) and (mid, mid) and BLACK on
      (mid-1, mid) and (mid, mid-1), where mid = SIZE / 2. */
  method StartBoard() returns (a: array2<Cell>, ghost g: Grid)
    ensures fresh(a) && Mirrors(a, g) && IsStart(g)
  {
    a := new Cell[SIZE, SIZE]((i, j) => Empty);
    g := EmptyGrid();
    var mid := SIZE / 2;
    g := Store(a, g, (mid, mid), White);
    g := Store(a, g, (mid - 1, mid - 1), White);
    g := Store(a, g, (mid - 1, mid), Black);
    g := Store(a, g, (mid, mid - 1), Black);
    StartGridBuilt();
  }

  /** The cells equal to `c` in columns 0..j-1 of row `i` of `a`. */
  function CountInRow(a: array2<Cell>, c: Cell, i: int, j: int): (n: nat)
    reads a
    requires 0 <= i < a.Length0 && 0 <= j <= a.Length1
    ensures n <= j
    decreases j
  {
    if j == 0 then 0 else CountInRow(a, c, i, j - 1) + (if a[i, j - 1] == c then 1 else 0)
  }

  /** `len(np.where(board == c)[0])` over rows 0..i-1 of `a`. */
  function CountOnBoard(a: array2<Cell>, c: Cell, i: int): (n: nat)
    reads a
    requires 0 <= i <= a.Length0
    ensures i == 0 ==> n == 0
    decreases i
  {
    if i == 0 then 0 else CountOnBoard(a, c, i - 1) + CountInRow(a, c, i - 1, a.Length1)
  }

  lemma {:induction false} RowAgrees(a: array2<Cell>, g: Grid, c: Cell, i: int, j: int)
    requires Mirrors(a, g) && 0 <= i < SIZE && 0 <= j <= SIZE
    ensures CountInRow(a, c, i, j) == CountRow(g[i][..j], c)
    decreases j
  {
    if j > 0 {
      RowAgrees(a, g, c, i, j - 1);
      assert g[i][..j][..j - 1] == g[i][..j - 1];
    }
  }

  lemma {:induction false} RowsAgree(a: array2<Cell>, g: Grid, c: Cell, i: int)
    requires Mirrors(a, g) && 0 <= i <= SIZE
    ensures CountOnBoard(a, c, i) == Count(g[..i], c)
    decreases i
  {
    if i > 0 {
      RowsAgree(a, g, c, i - 1);
      RowAgrees(a, g, c, i - 1, SIZE);
      assert g[..i][..i - 1] == g[..i - 1];
      assert g[i - 1][..SIZE] == g[i - 1];
    }
  }

  /** Counting the array is counting the grid it holds, so the filled
      cells number SIZE * SIZE exactly when the grid is full. */
  lemma CountsAgree(a: array2<Cell>, g: Grid)
    requires Mirrors(a, g)
    ensures CountOnBoard(a, Black, SIZE) == Count(g, Black) && CountOnBoard(a, White, SIZE) == Count(g, White)
    ensures CountOnBoard(a, Black, SIZE) + CountOnBoard(a, White, SIZE) == SIZE * SIZE <==> Full(g)
  {
    RowsAgree(a, g, Black, SIZE);
    RowsAgree(a, g, White, SIZE);
    assert g[..SIZE] == g;
    CountPartition(g);
  }

  /** Cell (i, j) of `g` once the opponent stones among the first `k`
      cells beyond `pos` along `d` are turned to `c`. */
  ghost function Turned(g: Grid, c: Cell, pos: Pos, d: Pos, k: int, i: int, j: int): Cell
    requires IsGrid(g) && 0 <= i < SIZE && 0 <= j < SIZE
  {
    if Within(pos, d, (i, j), k) && g[i][j] == Opp(c) then c else g[i][j]
  }

  /** The copy `a` is the grid `g` with the opponent stones among the
      first `k` cells beyond `pos` along `d` turned to `c`. */
  ghost predicate FlippedUpTo(a: array2<Cell>, g: Grid, c: Cell, pos: Pos, d: Pos, k: int)
    reads a
  {
    a.Length0 == SIZE && a.Length1 == SIZE && IsGrid(g) &&
    forall i, j {:trigger Turned(g, c, pos, d, k, i, j)} :: 0 <= i < SIZE && 0 <= j < SIZE ==>
      a[i, j] == Turned(g, c, pos, d, k, i, j)
  }

  /** A copy of the board has nothing turned yet. */
  lemma NothingTurned(a: array2<Cell>, g: Grid, c: Cell, pos: Pos, d: Pos)
    requires Mirrors(a, g)
    ensures FlippedUpTo(a, g, c, pos, d, 0)
  {
    forall i, j | 0 <= i < SIZE && 0 <= j < SIZE ensures a[i, j] == Turned(g, c, pos, d, 0, i, j) {
    }
  }

  /** `boardcopy[i, j] = self.turn` (line 113) on the cell `k` steps out,
      an opponent stone: one more cell of the ray is turned. */
  method TurnOver(a: array2<Cell>, ghost g: Grid, c: Cell, ghost pos: Pos, ghost d: Pos, ghost k: int, i: int, j: int)
    requires IsDirection(d) && 1 <= k && FlippedUpTo(a, g, c, pos, d, k - 1)
    requires i == Walk(pos, d, k).0 && j == Walk(pos, d, k).1 && 0 <= i < SIZE && 0 <= j < SIZE && g[i][j] == Opp(c)
    modifies a
    ensures FlippedUpTo(a, g, c, pos, d, k)
  {
    WithinStep(pos, d, k - 1);
    a[i, j] := c;
    forall x, y | 0 <= x < SIZE && 0 <= y < SIZE ensures a[x, y] == Turned(g, c, pos, d, k, x, y) {
      assert old(a[x, y]) == Turned(g, c, pos, d, k - 1, x, y);
    }
  }

  /** The cell `k` steps out is still as in `g` while the copy is turned
      only up to `k - 1` steps. */
  lemma NotYetTurned(a: array2<Cell>, g: Grid, c: Cell, pos: Pos, d: Pos, k: int)
    requires InBounds(pos) && -1 <= d.0 <= 1 && -1 <= d.1 <= 1 && 1 <= k && FlippedUpTo(a, g, c, pos, d, k - 1)
    requires 0 <= Walk(pos, d, k).0 < SIZE && 0 <= Walk(pos, d, k).1 < SIZE
    requires At(g, pos) != Opp(c) && Scanning(ScanRay(g, pos, d), c, k - 1)
    ensures k <= |ScanRay(g, pos, d)|
    ensures a[Walk(pos, d, k).0, Walk(pos, d, k).1] == ScanRay(g, pos, d)[k - 1]
  {
    ScanCell(g, c, pos, d, k);
    if IsDirection(d) {
      WalkGeometry(pos, d, k);
    }
    assert a[Walk(pos, d, k).0, Walk(pos, d, k).1] == Turned(g, c, pos, d, k - 1, Walk(pos, d, k).0, Walk(pos, d, k).1);
  }

  /** A cell `k` steps out that is not an opponent stone stays as it is. */
  lemma PassOver(a: array2<Cell>, g: Grid, c: Cell, pos: Pos, d: Pos, k: int)
    requires IsDirection(d) && 1 <= k && FlippedUpTo(a, g, c, pos, d, k - 1)
    requires 0 <= Walk(pos, d, k).0 < SIZE && 0 <= Walk(pos, d, k).1 < SIZE
    requires g[Walk(pos, d, k).0][Walk(pos, d, k).1] != Opp(c)
    ensures FlippedUpTo(a, g, c, pos, d, k)
  {
    WithinStep(pos, d, k - 1);
    forall x, y | 0 <= x < SIZE && 0 <= y < SIZE ensures a[x, y] == Turned(g, c, pos, d, k, x, y) {
      assert a[x, y] == Turned(g, c, pos, d, k - 1, x, y);
    }
  }

  /** A copy turned up to the first stone of `c` on a capturing ray holds
      the grid after the scan along `d`. */
  lemma CommitFlips(a: array2<Cell>, g: Grid, c: Cell, pos: Pos, d: Pos)
    requires IsGrid(g) && InBounds(pos) && IsDirection(d) && Captures(Ray(g, pos, d), c)
    requires FlippedUpTo(a, g, c, pos, d, IndexOf(Ray(g, pos, d), c))
    ensures Mirrors(a, FlipToward(g, c, pos, d))
  {
    var r := FlipToward(g, c, pos, d);
    forall i, j | 0 <= i < SIZE && 0 <= j < SIZE ensures a[i, j] == r[i][j] {
      assert a[i, j] == Turned(g, c, pos, d, IndexOf(Ray(g, pos, d), c), i, j);
    }
  }

  /** Lines 102-119 for one entry `d` of `DIR` on the board `a`: the scan
      on a copy, then `self.board = boardcopy.copy()` when the scan commits.
      The result holds `FlipToward` of the old grid for a direction, and the
      old grid for the null offset, whose scan starts on `pos` itself (not
      an opponent stone) and commits nothing. It is `a` itself when nothing
      was committed and a fresh array otherwise. */
  method ReverseToward(a: array2<Cell>, ghost g: Grid, c: Cell, pos: Pos, d: Pos) returns (b: array2<Cell>, ghost r: Grid)
    requires Mirrors(a, g) && IsSide(c) && InBounds(pos) && -1 <= d.0 <= 1 && -1 <= d.1 <= 1
    requires At(g, pos) != Opp(c)
    ensures IsDirection(d) ==> r == FlipToward(g, c, pos, d)
    ensures !IsDirection(d) ==> r == g
    ensures Mirrors(b, r) && (b == a || fresh(b)) && At(r, pos) == At(g, pos)
  {
    var boardcopy, commit := FlipOnCopy(a, g, c, pos, d);
    ScanRayCaptures(g, c, pos, d);
    r := if IsDirection(d) then FlipToward(g, c, pos, d) else g;
    if commit {
      CommitFlips(boardcopy, g, c, pos, d);
      b := CopyBoard(boardcopy, r);
    } else {
      if IsDirection(d) {
        FlipTowardNone(g, c, pos, d);
      }
      b := a;
    }
    if IsDirection(d) {
      FlipTowardElsewhere(g, c, pos, d, pos);
    }
  }

  /** The `while` loop of `do_reverse` (lines 104-119) on the fresh copy
      `boardcopy` of the board `a`: step while on the board; an opponent
      stone sets `flag` and is turned on the copy; leaving the board, or a
      first cell that is not an opponent stone, stops the scan; the mover's
      stone after an opponent stone stops it with the copy to be committed.
      The copy is committed exactly when `d` is a direction whose ray
      captures, and it then holds the board with the opponent stones before
      that stone turned. From the null offset the first step lands on `pos`
      again, which is not an opponent stone, so that scan stops at once. */
  method FlipOnCopy(a: array2<Cell>, ghost g: Grid, c: Cell, pos: Pos, d: Pos) returns (boardcopy: array2<Cell>, commit: bool)
    requires Mirrors(a, g) && IsSide(c) && InBounds(pos) && -1 <= d.0 <= 1 && -1 <= d.1 <= 1
    requires At(g, pos) != Opp(c)
    ensures fresh(boardcopy)
    ensures commit <==> Captures(ScanRay(g, pos, d), c)
    ensures commit ==> FlippedUpTo(boardcopy, g, c, pos, d, IndexOf(ScanRay(g, pos, d), c))
  {
    var opp := if c == White then Black else White;
    boardcopy := CopyBoard(a, g);
    NothingTurned(boardcopy, g, c, pos, d);
    var i, j := pos.0, pos.1;
    var flag := false;
    ghost var k := 0;
    ghost var ray := ScanRay(g, pos, d);
    while 0 <= i < SIZE && 0 <= j < SIZE
      invariant fresh(boardcopy) && FlippedUpTo(boardcopy, g, c, pos, d, k)
      invariant 0 <= i < SIZE && 0 <= j < SIZE && i == Walk(pos, d, k).0 && j == Walk(pos, d, k).1
      invariant Scanning(ray, c, k) && (flag <==> k >= 1)
      decreases |ray| - k
    {
      WalkNext(pos, d, k, i, j);
      i, j := i + d.0, j + d.1;
      k := k + 1;
      ScanCell(g, c, pos, d, k);
      if 0 <= i < SIZE && 0 <= j < SIZE {
        NotYetTurned(boardcopy, g, c, pos, d, k);
      }
      if 0 <= i < SIZE && 0 <= j < SIZE && boardcopy[i, j] == opp {
        flag := true;
        TurnOver(boardcopy, g, c, pos, d, k, i, j);
        ScanContinues(ray, c, k);
      } else if !(0 <= i < SIZE && 0 <= j < SIZE) || (!flag && boardcopy[i, j] != opp) {
        ScanFails(ray, c, k - 1);
        return boardcopy, false;
      } else if boardcopy[i, j] == c && flag {
        ScanSucceeds(ray, c, k - 1);
        return boardcopy, true;
      } else {
        PassOver(boardcopy, g, c, pos, d, k);
        ScanContinues(ray, c, k);
      }
    }
    assert false;
  }

  /** The scan of `is_available` along one entry `d` of `DIR` (lines
      137-149) on the board `a` from an empty cell, for the mover `c`: step
      while on the board; an opponent stone sets `flag`; a cell other than
      an opponent stone before any has been seen, or leaving the board,
      stops the scan; the mover's stone after an opponent stone reports a
      capture. It decides `Captures` on the ray; from the null offset the
      first step lands on `pos` again, an empty cell, so that scan reports
      nothing. */
  method ScanDirection(a: array2<Cell>, ghost g: Grid, c: Cell, pos: Pos, d: Pos) returns (found: bool)
    requires Mirrors(a, g) && IsSide(c) && InBounds(pos) && At(g, pos) == Empty && -1 <= d.0 <= 1 && -1 <= d.1 <= 1
    ensures found <==> Captures(ScanRay(g, pos, d), c)
  {
    var opp := if c == White then Black else White;
    var i, j := pos.0, pos.1;
    var flag := false;
    ghost var k := 0;
    ghost var ray := ScanRay(g, pos, d);
    while 0 <= i < SIZE && 0 <= j < SIZE
      invariant 0 <= i < SIZE && 0 <= j < SIZE
      invariant i == Walk(pos, d, k).0 && j == Walk(pos, d, k).1
      invariant Scanning(ray, c, k) && (flag <==> k >= 1)
      decreases |ray| - k
    {
      WalkNext(pos, d, k, i, j);
      i, j := i + d.0, j + d.1;
      k := k + 1;
      ScanCell(g, c, pos, d, k);
      if 0 <= i < SIZE && 0 <= j < SIZE && a[i, j] == opp {
        flag := true;
        ScanContinues(ray, c, k);
      } else if !(0 <= i < SIZE && 0 <= j < SIZE) || (!flag && a[i, j] != opp) {
        ScanFails(ray, c, k - 1);
        break;
      } else if a[i, j] == c && flag {
        ScanSucceeds(ray, c, k - 1);
        return true;
      } else {
        ScanContinues(ray, c, k);
      }
    }
    return false;
  }

  class Board {
    var board: array2<Cell>
    var winner: Cell
    var turn: Cell
    var gameEnd: bool
    var pss: int
    var nofb: int
    var nofw: int
    var availablePos: seq<Pos>
    /** The contents of `board`, row by row. */
    ghost var cells: Grid

    /** `board` holds `cells`; the side to move is BLACK or WHITE. */
    ghost predicate Valid()
      reads this, board
    {
      Mirrors(board, cells) && IsSide(turn)
    }

    /** `available_pos` is the move list of the side to move. */
    ghost predicate Synced()
      reads this
    {
      IsGrid(cells) && availablePos == LegalMoves(cells, turn)
    }

    /** The fields `end_check` writes. */
    ghost function Status(): Verdict
      reads this
    {
      Verdict(gameEnd, winner, nofb, nofw)
    }

    /** `__init__` (lines 51-52): a board in the start position. */
    constructor ()
      ensures Valid() && Synced()
      ensures IsStart(cells) && turn == Black
      ensures Status() == Verdict(false, Empty, 0, 0) && pss == 0
      ensures fresh(board)
    {
      board := new Cell[SIZE, SIZE]((i, j) => Empty);
      new;
      BoardReset();
    }

    /** `board_reset` (lines 55-70): an empty board with WHITE on (mid-1,
        mid-1) and (mid, mid) and BLACK on the other two central cells,
        BLACK to move, no pass, no winner, and the move list searched. */
    method BoardReset()
      modifies this
      ensures Valid() && Synced() && fresh(board)
      ensures IsStart(cells) && turn == Black
      ensures Status() == Verdict(false, Empty, 0, 0) && pss == 0
    {
      ResetFields();
      availablePos := SearchPositions();
    }

    /** Lines 56-69 of `board_reset`: every field but the move list. */
    method ResetFields()
      modifies this
      ensures Valid() && fresh(board)
      ensures IsStart(cells) && turn == Black
      ensures Status() == Verdict(false, Empty, 0, 0) && pss == 0
    {
      board, cells := StartBoard();
      winner, turn, gameEnd, pss, nofb, nofw := Empty, Black, false, 0, 0, 0;
    }

    /** `is_available(pos)` (lines 132-150): false on an occupied cell,
        otherwise true as soon as the scan in some entry of `DIR` captures.
        It decides `Legal` exactly. */
    method IsAvailable(pos: Pos) returns (ok: bool)
      requires Valid() && InBounds(pos)
      ensures ok == Legal(cells, turn, pos)
    {
      if board[pos.0, pos.1] != Empty {
        return false;
      }
      DirIsProduct();
      for t := 0 to |DIR|
        invariant forall u :: 0 <= u < t ==> !CapturesToward(cells, turn, pos, u)
      {
        var found := ScanDirection(board, cells, turn, pos, DIR[t]);
        ScanRayCaptures(cells, turn, pos, DIR[t]);
        if found {
          assert CapturesToward(cells, turn, pos, t);
          return true;
        }
      }
      return false;
    }

    /** `search_positions` (lines 122-129): the empty cells in row-major
        order, kept when `is_available` holds. The result is the move list
        `LegalMoves` of the side to move. */
    method SearchPositions() returns (pos: seq<Pos>)
      requires Valid()
      ensures pos == LegalMoves(cells, turn)
    {
      pos := [];
      for i := 0 to SIZE
        invariant pos == MovesBefore(cells, turn, i, 0)
      {
        for j := 0 to SIZE
          invariant pos == MovesBefore(cells, turn, i, j)
        {
          pos := Consider(pos, (i, j));
        }
      }
    }

    /** Lines 126-128 for one cell of `np.where(board == 0)`: an empty cell
        at which `is_available` holds is appended; any other cell leaves
        the list as it is. The list of the legal cells before `p` in
        row-major order becomes the list of those up to `p`. */
    method Consider(pos: seq<Pos>, p: Pos) returns (pos': seq<Pos>)
      requires Valid() && InBounds(p) && pos == MovesBefore(cells, turn, p.0, p.1)
      ensures pos' == MovesBefore(cells, turn, p.0, p.1 + 1)
    {
      pos' := pos;
      if board[p.0, p.1] == Empty {
        var ok := IsAvailable(p);
        if ok {
          pos' := pos' + [p];
        }
      }
    }

    /** The scan of `do_reverse` along one entry `d` of `DIR` (lines
        102-119) from a cell that holds no opponent stone: the grid becomes
        `FlipToward` of the old one for a direction and stays as it is for
        the null offset, on the same array when nothing is committed and on
        a fresh one otherwise. The cell `pos` keeps its stone. */
    method ReverseDirection(pos: Pos, d: Pos)
      requires Valid() && InBounds(pos) && At(cells, pos) != Opp(turn) && -1 <= d.0 <= 1 && -1 <= d.1 <= 1
      modifies this
      ensures Valid() && (board == old(board) || fresh(board))
      ensures cells == if IsDirection(d) then FlipToward(old(cells), turn, pos, d) else old(cells)
      ensures At(cells, pos) == At(old(cells), pos)
      ensures turn == old(turn) && pss == old(pss) && availablePos == old(availablePos) && Status() == old(Status())
    {
      board, cells := ReverseToward(board, cells, turn, pos, d);
    }

    /** `do_reverse(pos)` (lines 100-119): the scan of every entry of
        `DIR` in order, each on the board the previous ones left. */
    method DoReverse(pos: Pos)
      requires Valid() && InBounds(pos) && At(cells, pos) != Opp(turn)
      modifies this
      ensures Valid() && (board == old(board) || fresh(board))
      ensures cells == FlipDirs(old(cells), turn, pos, |DIR|)
      ensures turn == old(turn) && pss == old(pss) && availablePos == old(availablePos) && Status() == old(Status())
    {
      DirAtIsDir();
      for t := 0 to |DIR|
        invariant Valid() && (board == old(board) || fresh(board))
        invariant cells == FlipDirs(old(cells), turn, pos, t)
        invariant turn == old(turn) && pss == old(pss) && availablePos == old(availablePos) && Status() == old(Status())
        invariant At(cells, pos) == At(old(cells), pos)
      {
        ReverseDirection(pos, DIR[t]);
      }
    }

    /** `put_stone(pos)` (lines 72-78): when `is_available(pos)` holds, the
        mover's stone is written at `pos` and `do_reverse` turns the
        captured stones, which yields `Place`; otherwise nothing changes. */
    method PutStone(pos: Pos) returns (ok: bool)
      requires Valid() && InBounds(pos)
      modifies this, board
      ensures Valid() && (board == old(board) || fresh(board))
      ensures ok == Legal(old(cells), turn, pos)
      ensures cells == if ok then Place(old(cells), turn, pos) else old(cells)
      ensures !ok ==> board == old(board)
      ensures turn == old(turn) && pss == old(pss) && availablePos == old(availablePos) && Status() == old(Status())
    {
      ok := IsAvailable(pos);
      if ok {
        PlaceStone(pos);
        ReverseIsPlace(old(cells), turn, pos);
      }
    }

    /** Lines 75-76 of `put_stone`: `board[pos] = turn`, then `do_reverse`. */
    method PlaceStone(pos: Pos)
      requires Valid() && InBounds(pos)
      modifies this, board
      ensures Valid() && (board == old(board) || fresh(board))
      ensures cells == FlipDirs(Set(old(cells), pos, turn), turn, pos, |DIR|)
      ensures turn == old(turn) && pss == old(pss) && availablePos == old(availablePos) && Status() == old(Status())
    {
      cells := Store(board, cells, pos, turn);
      DoReverse(pos);
    }

    /** `change_turn` (lines 81-84): the other side moves, and the move
        list is searched for it. */
    method ChangeTurn()
      requires Valid()
      modifies this
      ensures Valid() && Synced()
      ensures turn == Opp(old(turn)) && board == old(board) && cells == old(cells)
      ensures pss == old(pss) && Status() == old(Status())
    {
      turn := if turn == Black then White else Black;
      availablePos := SearchPositions();
    }

    /** `end_check` (lines 153-160): when no cell is empty or both sides
        passed, the game ends with the stone counts and BLACK as the winner
        only with strictly more stones; the verdict is `Judge`. */
    method EndCheck()
      requires Valid()
      modifies this
      ensures Valid() && Status() == Judge(cells, pss, old(Status()))
      ensures board == old(board) && cells == old(cells) && turn == old(turn)
      ensures pss == old(pss) && availablePos == old(availablePos)
    {
      // `np.count_nonzero(self.board)`: the cells holding a stone.
      var filled := CountOnBoard(board, Black, SIZE) + CountOnBoard(board, White, SIZE);
      CountsAgree(board, cells);
      if filled == SIZE * SIZE || pss == 2 {
        gameEnd := true;
        nofb := CountOnBoard(board, Black, SIZE);
        nofw := CountOnBoard(board, White, SIZE);
        winner := if CountOnBoard(board, Black, SIZE) > CountOnBoard(board, White, SIZE) then Black else White;
      }
    }

    /** `random_action` (lines 87-92) with `random.choice` replaced by the
        index `k` of the chosen move: the move as a flat index, or `False`,
        which is the integer 0, when there is no move. */
    function RandomAction(k: int): (a: int)
      reads this
      requires |availablePos| > 0 ==> 0 <= k < |availablePos|
      ensures |availablePos| == 0 ==> a == 0
      ensures |availablePos| > 0 ==> Unflatten(a) == availablePos[k] || !(0 <= availablePos[k].1 < SIZE)
    {
      if |availablePos| > 0 then
        var pos := availablePos[k];
        pos.0 * SIZE + pos.1
      else 0
    }

    /** `agent_action(pos)` (lines 95-97): `put_stone`, whose result is
        ignored, then `end_check`. */
    method AgentAction(pos: Pos)
      requires Valid() && InBounds(pos)
      modifies this, board
      ensures Valid() && (board == old(board) || fresh(board))
      ensures cells == if Legal(old(cells), turn, pos) then Place(old(cells), turn, pos) else old(cells)
      ensures Status() == Judge(cells, pss, old(Status()))
      ensures turn == old(turn) && pss == old(pss) && availablePos == old(availablePos)
    {
      var _ := PutStone(pos);
      EndCheck();
    }
  }

  /** With a move list in sync with the board, the action `random_action`
      picks is a legal move of the side to move. */
  lemma RandomActionLegal(b: Board, k: int)
    requires b.Synced() && 0 <= k < |b.availablePos|
    ensures 0 <= b.RandomAction(k) < SIZE * SIZE
    ensures Legal(b.cells, b.turn, Unflatten(b.RandomAction(k)))
  {
    LegalMoveAt(b.cells, b.turn, k);
    FlattenRoundTrip(b.availablePos[k]);
  }

  /** The action 0 that stands for "no move" is also the flat index of the
      corner (0, 0): a picked move reads as 0 exactly when it is that corner. */
  lemma RandomActionZero(b: Board, k: int)
    requires b.Synced() && 0 <= k < |b.availablePos|
    ensures b.RandomAction(k) == 0 <==> b.availablePos[k].0 == 0 && b.availablePos[k].1 == 0
  {
    LegalMoveAt(b.cells, b.turn, k);
  }
}

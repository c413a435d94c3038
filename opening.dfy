/** The start position of a game of the 4 x 4 engine and the moves it
    offers: `board_reset` (ch4/train_reversi_DNN.py:55-70) puts WHITE on the
    diagonal cells (mid-1, mid-1) and (mid, mid) and BLACK on the two others,
    with mid = SIZE // 2 = 2, and BLACK moves first. */
module Opening {
  import opened Geometry
  import opened Coordinates
  import opened Rules

  /** The grid `board_reset` builds. */
  const StartGrid: Grid :=
    [[Empty, Empty, Empty, Empty],
     [Empty, White, Black, Empty],
     [Empty, Black, White, Empty],
     [Empty, Empty, Empty, Empty]]

  /** The four writes of `board_reset` on an empty grid build `StartGrid`:
      WHITE on (mid, mid) and (mid-1, mid-1), BLACK on (mid-1, mid) and
      (mid, mid-1), with mid = SIZE / 2. */
  lemma StartGridBuilt()
    ensures var mid := SIZE / 2;
      Set(Set(Set(Set(EmptyGrid(), (mid, mid), White), (mid - 1, mid - 1), White), (mid - 1, mid), Black), (mid, mid - 1), Black) == StartGrid
  {
    var g := Set(Set(Set(Set(EmptyGrid(), (2, 2), White), (1, 1), White), (1, 2), Black), (2, 1), Black);
    forall q | InBounds(q) ensures At(g, q) == At(StartGrid, q) {
    }
    GridExt(g, StartGrid);
  }

  /** The four cells BLACK can play at the start, in row-major order. */
  const StartMoves: seq<Pos> := [(0, 1), (1, 0), (2, 3), (3, 2)]

  // One lemma per cell decides whether BLACK may play there at the start;
  // a legal cell is shown by the direction whose ray is WHITE then BLACK.

  lemma Start00()
    ensures !Legal(StartGrid, Black, (0, 0))
  {
    DirIsProduct();
  }

  lemma Start01()
    ensures Legal(StartGrid, Black, (0, 1))
  {
    DirIsProduct();
    var ray := Ray(StartGrid, (0, 1), DIR[7]);
    assert ray[0] == White && ray[1] == Black;
    assert CapturesToward(StartGrid, Black, (0, 1), 7);
  }

  lemma Start02()
    ensures !Legal(StartGrid, Black, (0, 2))
  {
    DirIsProduct();
  }

  lemma Start03()
    ensures !Legal(StartGrid, Black, (0, 3))
  {
    DirIsProduct();
  }

  lemma Start10()
    ensures Legal(StartGrid, Black, (1, 0))
  {
    DirIsProduct();
    var ray := Ray(StartGrid, (1, 0), DIR[5]);
    assert ray[0] == White && ray[1] == Black;
    assert CapturesToward(StartGrid, Black, (1, 0), 5);
  }

  lemma Start11()
    ensures !Legal(StartGrid, Black, (1, 1))
  {
    DirIsProduct();
  }

  lemma Start12()
    ensures !Legal(StartGrid, Black, (1, 2))
  {
    DirIsProduct();
  }

  lemma Start13()
    ensures !Legal(StartGrid, Black, (1, 3))
  {
    DirIsProduct();
  }

  lemma Start20()
    ensures !Legal(StartGrid, Black, (2, 0))
  {
    DirIsProduct();
  }

  lemma Start21()
    ensures !Legal(StartGrid, Black, (2, 1))
  {
    DirIsProduct();
  }

  lemma Start22()
    ensures !Legal(StartGrid, Black, (2, 2))
  {
    DirIsProduct();
  }

  lemma Start23()
    ensures Legal(StartGrid, Black, (2, 3))
  {
    DirIsProduct();
    var ray := Ray(StartGrid, (2, 3), DIR[3]);
    assert ray[0] == White && ray[1] == Black;
    assert CapturesToward(StartGrid, Black, (2, 3), 3);
  }

  lemma Start30()
    ensures !Legal(StartGrid, Black, (3, 0))
  {
    DirIsProduct();
  }

  lemma Start31()
    ensures !Legal(StartGrid, Black, (3, 1))
  {
    DirIsProduct();
  }

  lemma Start32()
    ensures Legal(StartGrid, Black, (3, 2))
  {
    DirIsProduct();
    var ray := Ray(StartGrid, (3, 2), DIR[1]);
    assert ray[0] == White && ray[1] == Black;
    assert CapturesToward(StartGrid, Black, (3, 2), 1);
  }

  lemma Start33()
    ensures !Legal(StartGrid, Black, (3, 3))
  {
    DirIsProduct();
  }

  /** At the start BLACK may play exactly at the four cells of `StartMoves`. */
  lemma StartLegal(p: Pos)
    requires InBounds(p)
    ensures Legal(StartGrid, Black, p) <==> p in StartMoves
  {
    if p == (0, 0) { Start00(); }
    else if p == (0, 1) { Start01(); }
    else if p == (0, 2) { Start02(); }
    else if p == (0, 3) { Start03(); }
    else if p == (1, 0) { Start10(); }
    else if p == (1, 1) { Start11(); }
    else if p == (1, 2) { Start12(); }
    else if p == (1, 3) { Start13(); }
    else if p == (2, 0) { Start20(); }
    else if p == (2, 1) { Start21(); }
    else if p == (2, 2) { Start22(); }
    else if p == (2, 3) { Start23(); }
    else if p == (3, 0) { Start30(); }
    else if p == (3, 1) { Start31(); }
    else if p == (3, 2) { Start32(); }
    else if p == (3, 3) { Start33(); }
  }

  /** `search_positions` on the start grid for BLACK gives `StartMoves`. */
  lemma StartMovesListed()
    ensures IsGrid(StartGrid)
    ensures LegalMoves(StartGrid, Black) == StartMoves
  {
    forall p ensures p in StartMoves <==> Legal(StartGrid, Black, p) {
      if InBounds(p) {
        StartLegal(p);
      }
    }
    LegalMovesAre(StartGrid, Black, StartMoves);
  }

  /** `g` holds the start position, cell by cell. */
  ghost predicate IsStart(g: Grid) {
    IsGrid(g) && forall q :: InBounds(q) ==> At(g, q) == At(StartGrid, q)
  }

  /** On any grid holding the start position, BLACK's move list is
      `StartMoves`. */
  lemma StartPositionMoves(g: Grid)
    requires IsStart(g)
    ensures LegalMoves(g, Black) == StartMoves
  {
    StartMovesListed();
    GridExt(g, StartGrid);
  }

  /** Opening at (0, 1), BLACK turns over the stone at (1, 1) only. */
  lemma FirstMoveFlips(q: Pos)
    requires InBounds(q)
    ensures Flipped(StartGrid, Black, (0, 1), q) <==> q == (1, 1)
  {
    if q == (1, 1) {
      var ray := Ray(StartGrid, (0, 1), (1, 0));
      assert ray[0] == White && ray[1] == Black;
    } else if q != (2, 2) {
      assert At(StartGrid, q) != White;
    }
  }

  /** Placing BLACK at (0, 1) on the start grid puts BLACK at (0, 1) and
      (1, 1) and leaves every other cell as it was
      (ch4/train_reversi_DNN.py:73-76, 100-119). */
  lemma FirstMove()
    ensures forall q :: InBounds(q) ==>
      At(Place(StartGrid, Black, (0, 1)), q) == if q == (0, 1) || q == (1, 1) then Black else At(StartGrid, q)
  {
    var r := Place(StartGrid, Black, (0, 1));
    forall q | InBounds(q) ensures At(r, q) == if q == (0, 1) || q == (1, 1) then Black else At(StartGrid, q) {
      FirstMoveFlips(q);
    }
  }
}

/** One turn of the self-play training loop of `main`
    (ch4/train_reversi_DNN.py:230-274). The two DQN agents are replaced by
    the sequence of actions they propose, one per attempt; the learning
    calls that only feed the agents are not part of this model. */
module SelfPlay {
  import opened Geometry
  import opened Coordinates
  import opened Rules
  import opened Opening
  import opened Boards

  /** The rewards of a win and a loss (lines 22-23). */
  const REWARD_WIN: int := 1
  const REWARD_LOSE: int := -1

  /** The state of the game that one turn reads and writes: the grid, the
      side to move, the pass counter, the `end_check` fields and the move
      list. */
  datatype Game = Game(cells: Grid, turn: Cell, pss: int, status: Verdict, moves: seq<Pos>)

  /** The counters `win`, `lose` and `draw` of the episode loop, from
      BLACK's point of view. */
  datatype Tally = Tally(win: int, lose: int, draw: int)

  ghost function Snapshot(b: Board): Game
    reads b
  {
    Game(b.cells, b.turn, b.pss, b.Status(), b.availablePos)
  }

  /** The attempt at which the `while True` retry of lines 238-245 stops:
      the first proposal whose cell `is_available` accepts, or the number
      of proposals when none is accepted. */
  function Accepted(g: Grid, c: Cell, proposals: seq<int>): (k: nat)
    requires IsGrid(g)
    ensures k <= |proposals|
    ensures k < |proposals| ==> Legal(g, c, Unflatten(proposals[k]))
    ensures forall j :: 0 <= j < k ==> !Legal(g, c, Unflatten(proposals[j]))
  {
    if |proposals| == 0 then 0
    else if Legal(g, c, Unflatten(proposals[0])) then 0
    else 1 + Accepted(g, c, proposals[1..])
  }

  /** What the agent must do for the turn to end: propose an available
      cell at some attempt when there is a move. */
  predicate Answers(s: Game, proposals: seq<int>)
    requires IsGrid(s.cells)
  {
    s.moves != [] ==> Accepted(s.cells, s.turn, proposals) < |proposals|
  }

  /** The game after lines 233-247, before the turn changes: with no move
      the side passes and `end_check` runs with the incremented counter;
      otherwise the accepted proposal is placed, `end_check` runs, and a
      pass counter of 1 is reset to 0. */
  function Acted(s: Game, proposals: seq<int>): (r: Game)
    requires IsGrid(s.cells) && IsSide(s.turn) && Answers(s, proposals)
    ensures IsGrid(r.cells) && r.turn == s.turn && r.moves == s.moves
  {
    if s.moves == [] then
      s.(pss := s.pss + 1, status := Judge(s.cells, s.pss + 1, s.status))
    else
      var g := Place(s.cells, s.turn, Unflatten(proposals[Accepted(s.cells, s.turn, proposals)]));
      s.(cells := g, pss := if s.pss == 1 then 0 else s.pss, status := Judge(g, s.pss, s.status))
  }

  /** The game after one whole turn (lines 233-274): `Acted`, then
      `change_turn`. */
  function Step(s: Game, proposals: seq<int>): (r: Game)
    requires IsGrid(s.cells) && IsSide(s.turn) && Answers(s, proposals)
    ensures IsGrid(r.cells) && r.turn == Opp(s.turn) && r.moves == LegalMoves(r.cells, r.turn)
  {
    var a := Acted(s, proposals);
    a.(turn := Opp(a.turn), moves := LegalMoves(a.cells, Opp(a.turn)))
  }

  /** `rewards[turn] = REWARD_LOSE` for each rejected proposal (line 245). */
  function Penalized(rewards: seq<int>, c: Cell, rejected: bool): (r: seq<int>)
    requires |rewards| == 3
    ensures |r| == 3 && r[Code(c)] == (if rejected then REWARD_LOSE else rewards[Code(c)])
    ensures forall i :: 0 <= i < 3 && i != Code(c) ==> r[i] == rewards[i]
  {
    if rejected then rewards[Code(c) := REWARD_LOSE] else rewards
  }

  /** The terminal rewards of lines 253-263, indexed by side: the winner
      gets REWARD_WIN and the loser REWARD_LOSE; the draw branch leaves
      them as they are. */
  function Rewarded(rewards: seq<int>, v: Verdict): (r: seq<int>)
    requires |rewards| == 3
    ensures |r| == 3 && r[0] == rewards[0]
    ensures v.gameEnd && IsSide(v.winner) ==>
      r[Code(v.winner)] == REWARD_WIN && r[Code(Opp(v.winner))] == REWARD_LOSE
    ensures !v.gameEnd || v.winner == Empty ==> r == rewards
  {
    if !v.gameEnd then rewards
    else if v.winner == Black then rewards[Code(Black) := REWARD_WIN][Code(White) := REWARD_LOSE]
    else if v.winner == Empty then rewards
    else rewards[Code(Black) := REWARD_LOSE][Code(White) := REWARD_WIN]
  }

  /** The counters after the turn (lines 255-263). */
  function Tallied(t: Tally, v: Verdict): (r: Tally)
    ensures r.win + r.lose + r.draw == t.win + t.lose + t.draw + (if v.gameEnd then 1 else 0)
    ensures v.gameEnd && v.winner == Black ==> r.win == t.win + 1
    ensures v.gameEnd && v.winner == White ==> r.lose == t.lose + 1
    ensures v.gameEnd && v.winner == Empty ==> r.draw == t.draw + 1
    ensures r.win >= t.win && r.lose >= t.lose && r.draw >= t.draw
  {
    if !v.gameEnd then t
    else if v.winner == Black then t.(win := t.win + 1)
    else if v.winner == Empty then t.(draw := t.draw + 1)
    else t.(lose := t.lose + 1)
  }

  /** One pass of `while not board.game_end` (lines 232-274) on the board
      `b`: the board, side, pass counter, verdict and move list become
      `Step` of the old ones; `rewards` takes the penalty for rejected
      proposals and then the terminal rewards, and the counters count the
      finished game. The learning calls of lines 265-272 are not modelled. */
  method Turn(b: Board, proposals: seq<int>, rewards: seq<int>, tally: Tally) returns (rewards': seq<int>, tally': Tally)
    requires b.Valid() && b.Synced() && !b.gameEnd && |rewards| == 3
    requires forall k :: 0 <= k < |proposals| ==> 0 <= proposals[k] < SIZE * SIZE
    requires Answers(Snapshot(b), proposals)
    modifies b, b.board
    ensures b.Valid() && b.Synced() && (b.board == old(b.board) || fresh(b.board))
    ensures Snapshot(b) == Step(old(Snapshot(b)), proposals)
    ensures rewards' == Rewarded(Penalized(rewards, old(b.turn),
      old(b.availablePos) != [] && Accepted(old(b.cells), old(b.turn), proposals) > 0), b.Status())
    ensures tally' == Tallied(tally, b.Status())
  {
    rewards' := Act(b, proposals, rewards);
    rewards', tally' := Settle(b, rewards', tally);
    b.ChangeTurn();
  }

  /** Lines 233-247: with an empty move list the side passes, otherwise
      the accepted proposal is played; the state becomes `Acted` of the old
      one and `rewards` takes the penalty for rejected proposals. */
  method Act(b: Board, proposals: seq<int>, rewards: seq<int>) returns (rewards': seq<int>)
    requires b.Valid() && b.Synced() && |rewards| == 3
    requires forall k :: 0 <= k < |proposals| ==> 0 <= proposals[k] < SIZE * SIZE
    requires Answers(Snapshot(b), proposals)
    modifies b, b.board
    ensures b.Valid() && (b.board == old(b.board) || fresh(b.board))
    ensures Snapshot(b) == Acted(old(Snapshot(b)), proposals)
    ensures rewards' == Penalized(rewards, old(b.turn),
      old(b.availablePos) != [] && Accepted(old(b.cells), old(b.turn), proposals) > 0)
  {
    if |b.availablePos| == 0 {
      Pass(b, proposals);
      rewards' := rewards;
    } else {
      rewards' := Move(b, proposals, rewards);
    }
  }

  /** Lines 233-235: `pss += 1`, then `end_check`. */
  method Pass(b: Board, ghost proposals: seq<int>)
    requires b.Valid() && b.Synced() && b.availablePos == []
    modifies b
    ensures b.Valid() && b.board == old(b.board)
    ensures Snapshot(b) == Acted(old(Snapshot(b)), proposals)
  {
    b.pss := b.pss + 1;
    b.EndCheck();
  }

  /** Lines 237-247: the accepted proposal is played by `agent_action`,
      and a pass counter of 1 is reset. */
  method Move(b: Board, proposals: seq<int>, rewards: seq<int>) returns (rewards': seq<int>)
    requires b.Valid() && b.Synced() && b.availablePos != [] && |rewards| == 3
    requires forall k :: 0 <= k < |proposals| ==> 0 <= proposals[k] < SIZE * SIZE
    requires Answers(Snapshot(b), proposals)
    modifies b, b.board
    ensures b.Valid() && (b.board == old(b.board) || fresh(b.board))
    ensures Snapshot(b) == Acted(old(Snapshot(b)), proposals)
    ensures rewards' == Penalized(rewards, old(b.turn), Accepted(old(b.cells), old(b.turn), proposals) > 0)
  {
    var pos;
    pos, rewards' := Ask(b, proposals, rewards);
    b.AgentAction(pos);
    ResetPass(b);
  }

  /** Lines 246-247: after a move, a pass counter of 1 goes back to 0. */
  method ResetPass(b: Board)
    requires b.Valid()
    modifies b
    ensures b.Valid() && b.pss == (if old(b.pss) == 1 then 0 else old(b.pss))
    ensures b.board == old(b.board) && b.cells == old(b.cells) && b.turn == old(b.turn)
    ensures b.Status() == old(b.Status()) && b.availablePos == old(b.availablePos)
  {
    if b.pss == 1 {
      b.pss := 0;
    }
  }

  /** Lines 237-244: proposals are asked for until `is_available` accepts
      one, each rejection setting `rewards[turn]` to REWARD_LOSE. The board
      is not changed. */
  method Ask(b: Board, proposals: seq<int>, rewards: seq<int>) returns (pos: Pos, rewards': seq<int>)
    requires b.Valid() && |rewards| == 3
    requires forall k :: 0 <= k < |proposals| ==> 0 <= proposals[k] < SIZE * SIZE
    requires Accepted(b.cells, b.turn, proposals) < |proposals|
    ensures pos == Unflatten(proposals[Accepted(b.cells, b.turn, proposals)])
    ensures Legal(b.cells, b.turn, pos)
    ensures rewards' == Penalized(rewards, b.turn, Accepted(b.cells, b.turn, proposals) > 0)
  {
    rewards' := rewards;
    var k := 0;
    pos := Unflatten(proposals[0]);
    while true
      invariant 0 <= k <= Accepted(b.cells, b.turn, proposals) < |proposals|
      invariant rewards' == Penalized(rewards, b.turn, k > 0)
      decreases Accepted(b.cells, b.turn, proposals) - k
    {
      // `divmod(pos, SIZE)`: the proposal as a cell.
      pos := Unflatten(proposals[k]);
      var ok := b.IsAvailable(pos);
      if ok {
        return;
      }
      rewards' := rewards'[Code(b.turn) := REWARD_LOSE];
      k := k + 1;
    }
  }

  /** Lines 250-263 on an ended game: the terminal rewards and the
      counters; on a running game nothing changes. */
  method Settle(b: Board, rewards: seq<int>, tally: Tally) returns (rewards': seq<int>, tally': Tally)
    requires |rewards| == 3
    ensures rewards' == Rewarded(rewards, b.Status())
    ensures tally' == Tallied(tally, b.Status())
  {
    rewards', tally' := rewards, tally;
    if b.gameEnd {
      if b.winner == Black {
        rewards' := rewards'[Code(Black) := REWARD_WIN][Code(White) := REWARD_LOSE];
        tally' := tally.(win := tally.win + 1);
      } else if b.winner == Empty {
        tally' := tally.(draw := tally.draw + 1);
      } else {
        rewards' := rewards'[Code(Black) := REWARD_LOSE][Code(White) := REWARD_WIN];
        tally' := tally.(lose := tally.lose + 1);
      }
    }
  }

  // ---------------------------------------------------------------------
  // What one turn preserves and guarantees

  /** The states the loop runs through: a grid, a side to move with its
      move list, a pass counter between 0 and 2 that reaches 2 only in an
      ended game, and a winner that is a side once the game has ended. */
  ghost predicate Inv(s: Game) {
    IsGrid(s.cells) && IsSide(s.turn) && s.moves == LegalMoves(s.cells, s.turn) &&
    0 <= s.pss <= 2 && (s.pss == 2 ==> s.status.gameEnd) &&
    (s.status.gameEnd ==> IsSide(s.status.winner))
  }

  /** The state `board_reset` leaves satisfies the invariant. */
  lemma StartInv(g: Grid)
    requires IsStart(g)
    ensures Inv(Game(g, Black, 0, Verdict(false, Empty, 0, 0), LegalMoves(g, Black)))
  {
  }

  /** A turn of a running game keeps the invariant. */
  lemma StepInv(s: Game, proposals: seq<int>)
    requires Inv(s) && !s.status.gameEnd && Answers(s, proposals)
    ensures Inv(Step(s, proposals))
  {
    if s.moves != [] {
      MoveInv(s, proposals);
    } else {
      PassInv(s, proposals);
    }
  }

  lemma MoveInv(s: Game, proposals: seq<int>)
    requires Inv(s) && !s.status.gameEnd && s.moves != [] && Answers(s, proposals)
    ensures Inv(Step(s, proposals))
  {
    var g := Place(s.cells, s.turn, Unflatten(proposals[Accepted(s.cells, s.turn, proposals)]));
    NoDraw(g, s.pss, s.status);
  }

  lemma PassInv(s: Game, proposals: seq<int>)
    requires Inv(s) && !s.status.gameEnd && s.moves == []
    ensures Inv(Step(s, proposals))
  {
    NoDraw(s.cells, s.pss + 1, s.status);
  }

  /** The number of turns a running game can still last is bounded:
      3 * (empty cells) + 2 - pss is never negative and every turn of a
      running game lowers it, so the episode loop ends. */
  function Remaining(s: Game): int
    requires IsGrid(s.cells)
  {
    3 * Count(s.cells, Empty) + 2 - s.pss
  }

  lemma StepProgress(s: Game, proposals: seq<int>)
    requires Inv(s) && !s.status.gameEnd && Answers(s, proposals)
    ensures Remaining(s) > 0
    ensures Remaining(Step(s, proposals)) < Remaining(s)
  {
    if s.moves != [] {
      MoveProgress(s, proposals);
    }
  }

  lemma MoveProgress(s: Game, proposals: seq<int>)
    requires Inv(s) && !s.status.gameEnd && s.moves != [] && Answers(s, proposals)
    ensures Remaining(Step(s, proposals)) < Remaining(s)
  {
    var k := Accepted(s.cells, s.turn, proposals);
    PlaceCounts(s.cells, s.turn, Unflatten(proposals[k]));
  }

  /** Two passes in a row end the game: a side without a move after the
      other side passed makes `pss` reach 2. */
  lemma DoublePassEnds(s: Game, proposals: seq<int>)
    requires Inv(s) && !s.status.gameEnd && s.moves == [] && s.pss == 1
    ensures Step(s, proposals).status.gameEnd && Step(s, proposals).pss == 2
  {
  }

  /** A turn with a move puts exactly one more stone on the board, and the
      opponent does not gain stones. */
  lemma MoveAddsOneStone(s: Game, proposals: seq<int>)
    requires Inv(s) && !s.status.gameEnd && s.moves != [] && Answers(s, proposals)
    ensures var r := Step(s, proposals);
      Count(r.cells, Black) + Count(r.cells, White) == Count(s.cells, Black) + Count(s.cells, White) + 1 &&
      Count(r.cells, Opp(s.turn)) < Count(s.cells, Opp(s.turn))
  {
    var k := Accepted(s.cells, s.turn, proposals);
    PlaceCounts(s.cells, s.turn, Unflatten(proposals[k]));
  }

  /** A pass leaves the board as it is and only raises the pass counter. */
  lemma PassKeepsBoard(s: Game, proposals: seq<int>)
    requires Inv(s) && !s.status.gameEnd && s.moves == []
    ensures Step(s, proposals).cells == s.cells && Step(s, proposals).pss == s.pss + 1
  {
  }

  /** A move of a running game leaves the pass counter at 0: it was 0 or
      1 (2 only in an ended game), and 1 is reset. */
  lemma MoveResetsPass(s: Game, proposals: seq<int>)
    requires Inv(s) && !s.status.gameEnd && s.moves != [] && Answers(s, proposals)
    ensures Step(s, proposals).pss == 0
  {
  }

  /** The draw counter never moves: a finished game always has a winner,
      so the draw branch of line 258 is dead. */
  lemma NeverDraw(s: Game, proposals: seq<int>, t: Tally)
    requires Inv(s) && !s.status.gameEnd && Answers(s, proposals)
    ensures Tallied(t, Step(s, proposals).status).draw == t.draw
  {
    StepInv(s, proposals);
  }
}

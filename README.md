# Reversi engine of the DQN self-play trainer

This project models the Reversi engine of `ch4/train_reversi_DNN.py` in Dafny.
That engine is the 4 x 4 board, its rules and one turn of the self-play
training loop. The project proves properties of the model.

The modules follow the structure of the program:

- `Geometry` (geometry.dfy) holds the constants `SIZE` and `DIR`. It also defines the walk `i += di; j += dj` that both direction scans perform, and the facts about rays from a cell.
- `Coordinates` (coordinates.dfy) holds:
  - the column tables `ROWLABEL` and `N2L`;
  - `convert_coordinate`, which is built on a model of Python's `str.split` and `int`;
  - the flat action index `i * SIZE + j` and its inverse `divmod(pos, SIZE)`.
- `Rules` (rules.dfy) is the game as pure functions of a grid:
  - the ray beyond a cell along a direction;
  - the capture test as the code performs it;
  - legality, the grid after a placement, and the grid after the scan of one direction of `do_reverse`;
  - stone counts, the terminal verdict of `end_check`, and the move list of `search_positions`.
- `Opening` (opening.dfy) covers the start position: the grid `board_reset` builds, BLACK's four opening moves, and the first move at (0, 1).
- `Boards` (boards.dfy) is the `Board` class:
  - It holds an `array2<Cell>` together with the fields `turn`, `pss`, `gameEnd`, `winner`, `nofb`, `nofw` and `availablePos`.
  - Every method has a loop or an in-place update wherever the source has one.
  - Each method is proved against the functions of `Rules` through a ghost grid `cells`, which `Valid()` keeps equal to the array.
  - `do_reverse` scans each direction on a fresh copy and replaces `board` by a copy of it when the scan commits, as the source does.
- `SelfPlay` (selfplay.dfy) is one pass of the episode loop of `main`:
  - the pass;
  - the retry with a penalty on a rejected proposal;
  - `agent_action` and the reset of the pass counter;
  - the terminal rewards and the win/lose/draw counters;
  - `change_turn`.

  Every turn is proved to keep an invariant and to lower a bound on the number of turns that remain.

The model follows the code where it departs from the usual description of the game:

- **An empty cell does not end a scan.** Once one opponent stone has been seen, the scans of `is_available` and `do_reverse` pass over empty cells. The test `== None` at line 146 never holds for a numpy value, and line 114 only stops the scan on an empty cell before the first opponent stone. So the ray "opponent, empty, own" captures (`Rules.EmptyGapCaptures`). On rays without empty cells, the coded rule is the usual sandwich (`Rules.SandwichWithoutGaps`). A description that stops the scan at an empty cell disagrees with the code; the model follows the code.
- **A tie goes to WHITE.** `end_check` (lines 159-160) names BLACK the winner only with strictly more stones. A finished game therefore always has a winner, and the draw branch at line 258 cannot run (`Rules.NoDraw`, `SelfPlay.NeverDraw`). A description that calls equal counts a draw disagrees with the code; the model follows the code.
- **`pss` is reset only from 1.** After a move, `pss` goes back to 0 only when it is 1 (lines 246-247). In a running game `pss` is 0 or 1, so this is the same as resetting it to 0 (`SelfPlay.Inv`).
- **`DIR` contains (0, 0).** Its scan steps onto the starting cell itself:
  - In `is_available` that cell is empty.
  - In `do_reverse` it holds the mover's stone.
  - Either way the scan stops at once. `IsAvailable` and `DoReverse` run the scan of all nine entries, as the source does. The cells the null offset's scan reads are `Rules.ScanRay`, and `Rules.ScanRayCaptures` proves that this scan never captures. `DoReverse` requires that the cell is not an opponent stone, which `put_stone` guarantees.

## Model

| member | source | states |
|---|---|---|
| Geometry.DirIsProduct | ch4/train_reversi_DNN.py:25 | `DIR` has nine entries, each offset with components in -1..1 occurs exactly once at index `DirIndex`, and (0, 0) is entry 4 |
| Geometry.DirAtIsDir | ch4/train_reversi_DNN.py:25 | entry `t` of `DIR` is the offset computed from `t` by row and column |
| Geometry.RayLenBounds | ch4/train_reversi_DNN.py:107-109 | the walk `i += di; j += dj` from a cell stays on the board for exactly `RayLen` steps, so both scans end |
| Geometry.WalkGeometry | ch4/train_reversi_DNN.py:107-109 | the cell reached after n >= 1 steps differs from the start, lies on a line through it, and has direction d and distance n from it |
| Geometry.AlignedIsWalk | ch4/train_reversi_DNN.py:107-109 | every other cell on a line through a cell is reached by walking from it in its direction for its distance |
| Geometry.WithinStep | ch4/train_reversi_DNN.py:107-113 | one more step of the scan adds exactly the cell it reaches to the cells already passed |
| Coordinates.LabelsRoundTrip | ch4/train_reversi_DNN.py:20-21 | `ROWLABEL` maps exactly the letters 'a'..'h', to 1..8 in order; `N2L` inverts it in both directions and has '' at index 0 |
| Coordinates.IndexOf | ch4/train_reversi_DNN.py:178 | the first occurrence of an element, or the length when there is none: the separator `split` cuts at, and also the first stone of the mover on a ray (lines 117 and 148) |
| Coordinates.Split | ch4/train_reversi_DNN.py:178 | `str.split(' ')`: at least one piece, no piece contains the separator, and joining the pieces gives the input back |
| Coordinates.SplitJoin | ch4/train_reversi_DNN.py:178 | splitting undoes joining for pieces without the separator |
| Coordinates.ParseInt | ch4/train_reversi_DNN.py:179 | `int(s)` on ASCII input: it succeeds exactly on a non-empty run of the digits '0'..'9', and a single digit reads as its value |
| Coordinates.ConvertCoordinate | ch4/train_reversi_DNN.py:177-181 | a successful conversion had a second piece that is a `ROWLABEL` key; on ASCII input, ValueError is returned exactly when the first piece is not a run of digits |
| Coordinates.ConvertedColumn | ch4/train_reversi_DNN.py:180-181 | a converted column lies in 0..7 |
| Coordinates.ConvertPrompted | ch4/train_reversi_DNN.py:177-181 | on an answer of the form digit, space, lower-case letter, the result is (digit-1, letter-'a') when the letter piece is a label, and KeyError otherwise |
| Coordinates.LabelValue | ch4/train_reversi_DNN.py:20 | a label is one letter and its column is its distance from 'a' plus one |
| Coordinates.PromptParts | ch4/train_reversi_DNN.py:178-179 | such an answer splits into the digit piece and more pieces, and the digit piece reads as the digit |
| Coordinates.ConvertRoundTrip | ch4/train_reversi_DNN.py:177-181 | the row digit, a space and the `N2L` letter of a column convert to (digit-1, column); the digit '0' gives row -1 |
| Coordinates.Unflatten | ch4/train_reversi_DNN.py:242 | `divmod(a, SIZE)` is the unique cell whose flat index is `a`, and it is on the board exactly when `a` is in [0, SIZE*SIZE) |
| Coordinates.FlattenRoundTrip | ch4/train_reversi_DNN.py:242 | `divmod(i*SIZE + j, SIZE) == (i, j)` for every column 0 <= j < SIZE, and a board cell flattens into [0, SIZE*SIZE) |
| Rules.Code | ch4/train_reversi_DNN.py:16-18 | the stored codes are 0..2, and 0 exactly for NONE |
| Rules.Set | ch4/train_reversi_DNN.py:75 | writing one cell changes that cell only |
| Rules.EmptyGrid | ch4/train_reversi_DNN.py:57 | `np.zeros` gives a grid of empty cells |
| Rules.GridExt | ch4/train_reversi_DNN.py:57 | two grids that agree on every cell are equal |
| Rules.Ray | ch4/train_reversi_DNN.py:107-111 | the cells the scans visit, nearest first, are exactly the on-board cells beyond the start along the direction |
| Rules.RayFrame | ch4/train_reversi_DNN.py:140-149 | a scan depends only on the cells along its ray |
| Rules.CapturesAsCoded | ch4/train_reversi_DNN.py:144-149 | a ray captures iff it has at least two cells, the first is an opponent stone, and a stone of the mover follows after only opponent stones and empty cells |
| Rules.ScanContinues | ch4/train_reversi_DNN.py:144-147 | the scan goes on over an opponent stone, and over an empty cell once an opponent stone has been seen |
| Rules.ScanFails | ch4/train_reversi_DNN.py:146-147 | leaving the board, or a first cell that is not an opponent stone, means no capture |
| Rules.ScanSucceeds | ch4/train_reversi_DNN.py:148-149 | reaching the mover's stone after an opponent stone means a capture at the first such stone |
| Rules.EmptyGapCaptures | ch4/train_reversi_DNN.py:146 | "opponent, empty, own" captures |
| Rules.SandwichWithoutGaps | ch4/train_reversi_DNN.py:144-149 | on a ray with no empty cell, capture iff one or more opponent stones are directly followed by the mover's stone |
| Rules.ScanRayCaptures | ch4/train_reversi_DNN.py:135-149 | from a cell without an opponent stone, the (0, 0) entry of `DIR` steps onto that cell forever and its scan never captures, so scanning all nine entries captures exactly along the eight directions |
| Rules.ScanCell | ch4/train_reversi_DNN.py:140-143 | the cell a scan reaches at step `k` is on the board exactly while `k` is within the cells it reads, and then holds that cell |
| Rules.LegalMoveFlips | ch4/train_reversi_DNN.py:132-150 | every legal move turns over at least one stone |
| Rules.FlipsOnlyOwnRay | ch4/train_reversi_DNN.py:107-119 | the stone n steps out flips iff its ray captures, it is an opponent stone, and it lies before the ray's first stone of the mover |
| Rules.FlippedOnRay | ch4/train_reversi_DNN.py:107-119 | a flipped stone is an opponent stone on a capturing ray, before the first stone of the mover |
| Rules.FlippedFrame | ch4/train_reversi_DNN.py:103-119 | which stones flip in a direction depends only on the cells in that direction |
| Rules.FlippedIgnoresPos | ch4/train_reversi_DNN.py:75-76 | writing the mover's stone at `pos` first does not change which stones flip |
| Rules.FlipTowardIsFlipped | ch4/train_reversi_DNN.py:103-119 | the scan of one direction turns exactly the stones a placement flips in that direction and touches nothing else |
| Rules.FlipTowardAt | ch4/train_reversi_DNN.py:103-119 | the same statement, one cell at a time |
| Rules.FlipTowardElsewhere | ch4/train_reversi_DNN.py:103-119 | the scan of one direction leaves every cell off its ray unchanged |
| Rules.FlipTowardNone | ch4/train_reversi_DNN.py:114-115 | a scan that does not commit leaves the board unchanged |
| Rules.FlipDirsAt | ch4/train_reversi_DNN.py:100-119 | after the scans of the first t entries of `DIR`, a cell has turned iff a placement flips it in one of those directions |
| Rules.FlipDirsOff | ch4/train_reversi_DNN.py:101-119 | a scan in another direction, or in the null one, does not disturb that statement |
| Rules.FlipDirsOn | ch4/train_reversi_DNN.py:101-119 | the scan of a cell's own direction turns it exactly when a placement flips it |
| Rules.FlipDirsOnRay | ch4/train_reversi_DNN.py:101-119 | on its own ray, a scan that starts from an untouched ray turns what a placement flips |
| Rules.FlipTowardFrame | ch4/train_reversi_DNN.py:103-119 | grids with the same ray and the same cell agree at that cell after the scan |
| Rules.FlipDirsLater | ch4/train_reversi_DNN.py:101-119 | the scans of earlier entries leave every cell of a later direction unchanged |
| Rules.FlipDirsRay | ch4/train_reversi_DNN.py:101-119 | the rays from a cell are disjoint, so earlier scans leave a later ray unchanged |
| Rules.FlipDirsRayCell | ch4/train_reversi_DNN.py:101-119 | the same statement, one cell of the ray at a time |
| Rules.ReverseIsPlace | ch4/train_reversi_DNN.py:100-119 | writing the stone and then running `do_reverse` over all of `DIR` gives exactly `Place` |
| Rules.ReverseIsPlaceAt | ch4/train_reversi_DNN.py:100-119 | the same statement, one cell at a time |
| Rules.PlaceEffect | ch4/train_reversi_DNN.py:100-119 | `pos` gets the mover's stone; any other cell keeps its value or goes from opponent to mover, the latter only before the first stone of the mover on a capturing ray; empty cells stay empty |
| Rules.CountPartition | ch4/train_reversi_DNN.py:155-158 | the empty cells and the stones of both colours add up to SIZE*SIZE |
| Rules.CountMono | ch4/train_reversi_DNN.py:157-158 | counts are monotone under a cell-wise implication between two grids |
| Rules.CountSet | ch4/train_reversi_DNN.py:75 | writing one cell changes each count only by that cell's old and new value |
| Rules.PlaceCounts | ch4/train_reversi_DNN.py:100-119 | a legal placement adds exactly one stone and removes one empty cell; the mover gains at least two stones and the opponent loses at least one |
| Rules.Judge | ch4/train_reversi_DNN.py:153-160 | the game is over iff it already was, the board is full, or `pss == 2`; then the counts are recorded and BLACK wins iff it has strictly more stones, WHITE otherwise; if neither condition holds nothing changes |
| Rules.JudgeIdempotent | ch4/train_reversi_DNN.py:153-160 | checking twice is the same as checking once |
| Rules.NoDraw | ch4/train_reversi_DNN.py:153-160 | a game ended by `end_check` always has BLACK or WHITE as its winner |
| Rules.MovesBeforeMembers | ch4/train_reversi_DNN.py:122-129 | the cells enumerated before (i, j) are exactly the legal cells before it in row-major order |
| Rules.ConcatIncreasing | ch4/train_reversi_DNN.py:124-128 | appending a list whose cells all come later keeps a list in row-major order |
| Rules.MovesBeforeIncreasing | ch4/train_reversi_DNN.py:124-128 | the enumeration is in strictly increasing row-major order |
| Rules.LegalMovesExact | ch4/train_reversi_DNN.py:122-129 | the move list holds exactly the legal cells, in row-major order, with no duplicates |
| Rules.LegalMoveAt | ch4/train_reversi_DNN.py:122-129 | each entry of the move list is a legal cell on the board |
| Rules.SortedUnique | ch4/train_reversi_DNN.py:124-128 | two strictly increasing lists with the same members are equal |
| Rules.LegalMovesAre | ch4/train_reversi_DNN.py:122-129 | any strictly increasing list of exactly the legal cells is the move list |
| Rules.Observation | ch4/train_reversi_DNN.py:238 | the flattened board has SIZE*SIZE entries, and cell (i, j) is at index i*SIZE+j with its code |
| Opening.StartGridBuilt | ch4/train_reversi_DNN.py:57-63 | the four writes of `board_reset` on empty cells build the start grid |
| Opening.StartLegal | ch4/train_reversi_DNN.py:132-150 | at the start BLACK may play exactly at (0,1), (1,0), (2,3) and (3,2) |
| Opening.StartMovesListed | ch4/train_reversi_DNN.py:122-129 | `search_positions` on the start grid gives [(0,1),(1,0),(2,3),(3,2)] |
| Opening.StartPositionMoves | ch4/train_reversi_DNN.py:122-129 | any grid holding the start position has that move list |
| Opening.FirstMoveFlips | ch4/train_reversi_DNN.py:100-119 | BLACK at (0, 1) turns over (1, 1) and nothing else |
| Opening.FirstMove | ch4/train_reversi_DNN.py:100-119 | BLACK at (0, 1) leaves BLACK on (0, 1) and (1, 1) and every other cell unchanged |
| Boards.Store | ch4/train_reversi_DNN.py:75 | an array write `board[i, j] = v` sets the grid to `Set` of the old one |
| Boards.CopyBoard | ch4/train_reversi_DNN.py:103 | `board.copy()` is a fresh array with the same cells |
| Boards.StartBoard | ch4/train_reversi_DNN.py:57-63 | a fresh array holding the start position |
| Boards.CountsAgree | ch4/train_reversi_DNN.py:155-158 | the counts computed on the array equal `Count` on its grid, and `count_nonzero == SIZE*SIZE` iff the grid is full |
| Boards.NothingTurned | ch4/train_reversi_DNN.py:103 | a fresh copy has nothing turned yet |
| Boards.TurnOver | ch4/train_reversi_DNN.py:111-113 | turning the opponent stone k steps out extends the turned prefix by one cell |
| Boards.NotYetTurned | ch4/train_reversi_DNN.py:111 | the cell the scan reaches on the copy is still the original cell it reads |
| Boards.PassOver | ch4/train_reversi_DNN.py:114-119 | a cell that is not an opponent stone leaves the copy as it is |
| Boards.CommitFlips | ch4/train_reversi_DNN.py:117-118 | at the first stone of the mover, the copy holds `FlipToward` of the board |
| Boards.FlipOnCopy | ch4/train_reversi_DNN.py:102-119 | the scan of one entry of `DIR` on a fresh copy commits iff the cells it reads capture, and the committed copy has exactly the stones before the first stone of the mover turned |
| Boards.ReverseToward | ch4/train_reversi_DNN.py:102-119 | one entry of `DIR` in `do_reverse` leaves `FlipToward` of the old grid for a direction and the old grid for (0, 0), on the same array or a fresh copy, and `pos` keeps its stone |
| Boards.ScanDirection | ch4/train_reversi_DNN.py:137-149 | the scan of one entry of `DIR` from an empty cell reports a capture iff the cells it reads capture |
| Boards.Board.constructor | ch4/train_reversi_DNN.py:51-52 | a new board, on a fresh array, is in the start position with BLACK to move and its move list searched |
| Boards.Board.BoardReset | ch4/train_reversi_DNN.py:55-70 | the start position on a fresh array, BLACK to move, `pss` 0, no end and no winner, and a move list that matches the board |
| Boards.Board.ResetFields | ch4/train_reversi_DNN.py:56-69 | every field of `board_reset` except the move list |
| Boards.Board.IsAvailable | ch4/train_reversi_DNN.py:132-150 | the scans of all nine entries of `DIR` give `Legal`: false on an occupied cell, true iff some direction captures |
| Boards.Board.SearchPositions | ch4/train_reversi_DNN.py:122-129 | the result is the move list: exactly the legal cells, in row-major order, each once |
| Boards.Board.Consider | ch4/train_reversi_DNN.py:126-128 | the legal cells before `p` in row-major order become those up to `p`: `p` is appended iff it is empty and accepted by `is_available` |
| Boards.Board.ReverseDirection | ch4/train_reversi_DNN.py:102-119 | one entry of `DIR` in `do_reverse` leaves `FlipToward` of the old grid, or the old grid for (0, 0); `pos` and the other fields are kept |
| Boards.Board.DoReverse | ch4/train_reversi_DNN.py:100-119 | the scans of every entry of `DIR` in order leave `FlipDirs` of the old grid |
| Boards.Board.PutStone | ch4/train_reversi_DNN.py:72-79 | returns whether `pos` is available; if so the grid becomes `Place`, otherwise the board and every field are unchanged |
| Boards.Board.PlaceStone | ch4/train_reversi_DNN.py:75-76 | writing the stone and running `do_reverse` leaves `FlipDirs` of the written grid |
| Boards.Board.ChangeTurn | ch4/train_reversi_DNN.py:81-84 | the side to move swaps, the board is kept, and the move list becomes the new side's legal moves |
| Boards.Board.EndCheck | ch4/train_reversi_DNN.py:153-160 | the end-of-game fields become `Judge` of the board, the pass counter and the old fields |
| Boards.Board.RandomAction | ch4/train_reversi_DNN.py:87-92 | with moves, the chosen move as a flat index that `divmod` turns back into the move; without moves, 0 (`False`) |
| Boards.Board.AgentAction | ch4/train_reversi_DNN.py:95-97 | the board becomes `Place` when the move is legal and stays as it is otherwise, then `end_check` runs |
| Boards.RandomActionLegal | ch4/train_reversi_DNN.py:87-92 | the action `random_action` picks is in [0, SIZE*SIZE) and unflattens to a legal move |
| Boards.RandomActionZero | ch4/train_reversi_DNN.py:90-92 | a picked move reads as 0, the value of "no move", exactly when it is the corner (0, 0) |
| SelfPlay.Accepted | ch4/train_reversi_DNN.py:239-245 | the retry stops at the first legal proposal; every earlier proposal is illegal |
| SelfPlay.Penalized | ch4/train_reversi_DNN.py:245 | a rejected proposal sets the mover's reward to REWARD_LOSE and leaves the others |
| SelfPlay.Rewarded | ch4/train_reversi_DNN.py:251-263 | at the end the winner gets REWARD_WIN and the loser REWARD_LOSE; a running game or a draw leaves the rewards unchanged |
| SelfPlay.Tallied | ch4/train_reversi_DNN.py:255-263 | an ended game adds one to exactly one counter: win for BLACK, lose for WHITE, draw for NONE |
| SelfPlay.Turn | ch4/train_reversi_DNN.py:232-274 | the board's state becomes `Step` of the old one, with the penalty and terminal rewards and the counters updated; the array is the old one or a fresh one, so turns chain |
| SelfPlay.Act | ch4/train_reversi_DNN.py:233-247 | a pass or a move gives `Acted` of the old state, with the penalty for rejected proposals |
| SelfPlay.Pass | ch4/train_reversi_DNN.py:233-235 | the pass raises `pss` and runs `end_check`, giving `Acted` of the old state on the same array |
| SelfPlay.Move | ch4/train_reversi_DNN.py:237-247 | the accepted proposal is played and the pass counter reset, giving `Acted` of the old state on the old array or a fresh one |
| SelfPlay.ResetPass | ch4/train_reversi_DNN.py:246-247 | a pass counter of 1 goes back to 0, and nothing else changes |
| SelfPlay.Ask | ch4/train_reversi_DNN.py:239-245 | the retry returns the first legal proposal and the reward penalized iff a proposal was rejected |
| SelfPlay.Settle | ch4/train_reversi_DNN.py:250-263 | the terminal rewards and counters of the board's verdict |
| SelfPlay.StartInv | ch4/train_reversi_DNN.py:55-70 | the state `board_reset` leaves satisfies the loop invariant |
| SelfPlay.StepInv | ch4/train_reversi_DNN.py:232-274 | a turn of a running game keeps the loop invariant: a grid, a side with its move list, 0 <= pss <= 2, pss == 2 only at the end, and a winner once ended |
| SelfPlay.MoveInv | ch4/train_reversi_DNN.py:237-247 | the same statement for a turn with a move |
| SelfPlay.PassInv | ch4/train_reversi_DNN.py:234-235 | the same statement for a pass |
| SelfPlay.StepProgress | ch4/train_reversi_DNN.py:232-274 | 3*(empty cells) + 2 - pss is positive in a running game and every turn lowers it, so the episode loop ends |
| SelfPlay.MoveProgress | ch4/train_reversi_DNN.py:237-247 | a turn with a move lowers that bound |
| SelfPlay.DoublePassEnds | ch4/train_reversi_DNN.py:234-235 | a pass after a pass ends the game with `pss == 2` |
| SelfPlay.MoveAddsOneStone | ch4/train_reversi_DNN.py:237-247 | a turn with a move adds exactly one stone, and the opponent loses stones |
| SelfPlay.MoveResetsPass | ch4/train_reversi_DNN.py:246-247 | after a move of a running game the pass counter is 0 |
| SelfPlay.PassKeepsBoard | ch4/train_reversi_DNN.py:234-235 | a pass leaves the board unchanged and raises `pss` by one |
| SelfPlay.NeverDraw | ch4/train_reversi_DNN.py:256-258 | the draw counter never moves |

## Left out

- The learning machinery is not modelled: `QFunction`, the chainerrl DQN agents, the optimizer, the epsilon-greedy explorer and the replay buffers (lines 28-44, 200-217). Neither are the calls `act_and_train` and `stop_episode_and_train` (lines 239-240, 265-272) or the statistics and save/load code. These are foreign libraries and floating-point networks. An agent is modelled only as the sequence of actions it proposes, one per attempt, each in [0, SIZE*SIZE).
- Console I/O is not modelled: `show_board`, `judge`, and the `input()`/`print` flow of `main_play`.
- The outer loop over episodes and its periodic logging are not modelled. `SelfPlay.StepProgress` shows that each game ends.
- `random.choice` is modelled as a parameter: the index `k` of the chosen move.
- SelfPlay.Turn: requires that the agent proposes a legal cell at some attempt when the side has a move. The source would ask forever otherwise, so no finite result describes that case.
- Coordinates.ParseInt: models `int` on ASCII digit runs only. Python also accepts a sign, surrounding whitespace, `_` separators and non-ASCII digits, so "+3 a" converts to (2, 0) in the source and gives `Err(ValueError)` here. The prompt check at line 370 lets only one ASCII digit and a space through, so the only caller never passes such a piece.
- Coordinates.ConvertCoordinate: a digit 5-9 or a letter e-h converts to a cell off the 4 x 4 board. `is_available` (line 132, called at line 374) then raises IndexError on the numpy index. The model returns that cell and does not model the IndexError.
- Boards.Board.DoReverse: requires that `pos` does not hold an opponent stone. `put_stone` has just written the mover's stone there, so this always holds. With an opponent stone at `pos`, the (0, 0) entry of `DIR` would turn that stone.
- The `np.float32` storage of the board is not modelled: it only ever holds exact 0, 1 and 2, which become `Cell` values.
- `random_action` returns `False` when there is no move. That is the integer 0, which is also the flat index of the corner (0, 0). The model returns 0 in both cases, and `Boards.RandomActionZero` states the collision. `main_play`, which misreads it, is not part of this model.
- `convert_coordinate` on the digit '0' gives row -1, which numpy would wrap to the last row. The model returns row -1 (`Coordinates.ConvertRoundTrip`) and does not model numpy's negative indexing.
- The prefix-only input check of `main_play` is modelled as the predicate `Coordinates.MatchesPrompt`. The prompt loop itself is not modelled.

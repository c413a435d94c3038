/** Board geometry of the Reversi engine: the square board, the direction
    table and the walk along one direction, as the scans of `is_available`
    and `do_reverse` step `i += di; j += dj`. */
module Geometry {

  /** Board side length (ch4/train_reversi_DNN.py:15). */
  const SIZE: int := 4

  /** A board coordinate (row i, column j), as the source's tuples. */
  type Pos = (int, int)

  predicate InBounds(p: Pos) {
    0 <= p.0 < SIZE && 0 <= p.1 < SIZE
  }

  /** `itertools.product(range(-1, 2), range(-1, 2))`: the nine offsets in
      lexicographic order, including the null offset (0, 0). */
  const DIR: seq<Pos> := [(-1, -1), (-1, 0), (-1, 1), (0, -1), (0, 0), (0, 1), (1, -1), (1, 0), (1, 1)]

  /** A non-null offset with both components in -1..1. */
  predicate IsDirection(d: Pos) {
    -1 <= d.0 <= 1 && -1 <= d.1 <= 1 && d != (0, 0)
  }

  /** Position of the offset `d` in `DIR`. */
  function DirIndex(d: Pos): int {
    3 * (d.0 + 1) + (d.1 + 1)
  }

  /** `DIR` is exactly the product of -1..1 with itself: entry `t` sits at
      index `t`, and every offset with components in -1..1 occurs in it. */
  lemma DirIsProduct()
    ensures |DIR| == 9
    ensures forall t :: 0 <= t < |DIR| ==> -1 <= DIR[t].0 <= 1 && -1 <= DIR[t].1 <= 1 && DirIndex(DIR[t]) == t
    ensures forall d: Pos :: -1 <= d.0 <= 1 && -1 <= d.1 <= 1 ==> 0 <= DirIndex(d) < |DIR| && DIR[DirIndex(d)] == d
    ensures forall t :: 0 <= t < |DIR| ==> (DIR[t] == (0, 0) <==> t == 4)
  {
  }

  /** Entry `t` of `DIR`, computed: row `t / 3 - 1`, column `t % 3 - 1`. */
  function DirAt(t: int): (d: Pos)
    ensures -1 <= d.0 <= 1 && -1 <= d.1 <= 1
    ensures 0 <= t < 9 ==> DirIndex(d) == t
  {
    var r := if t < 3 then 0 else if t < 6 then 1 else 2;
    (r - 1, if 0 <= t - 3 * r < 3 then t - 3 * r - 1 else 0)
  }

  /** `DIR` lists `DirAt(0)` to `DirAt(8)`. */
  lemma DirAtIsDir()
    ensures |DIR| == 9 && forall t :: 0 <= t < |DIR| ==> DIR[t] == DirAt(t)
  {
  }

  /** Coordinate `x` after `n` steps of size `dx` (with `dx` in -1..1),
      written without multiplication: it equals `x + n * dx`. */
  function Slide(x: int, dx: int, n: int): int {
    if dx > 0 then x + n else if dx < 0 then x - n else x
  }

  /** The cell reached from `p` after `n` steps in direction `d`. */
  function Walk(p: Pos, d: Pos, n: int): Pos {
    (Slide(p.0, d.0, n), Slide(p.1, d.1, n))
  }

  /** How many steps a coordinate can move before leaving 0..SIZE-1. */
  function Room(x: int, dx: int): int {
    if dx > 0 then SIZE - 1 - x else if dx < 0 then x else SIZE
  }

  /** Number of cells strictly beyond `p` along `d` that lie on the board. */
  function RayLen(p: Pos, d: Pos): (n: int)
    requires InBounds(p) && IsDirection(d)
    ensures 0 <= n < SIZE
  {
    if Room(p.0, d.0) < Room(p.1, d.1) then Room(p.0, d.0) else Room(p.1, d.1)
  }

  /** The walk stays on the board for exactly `RayLen` steps. */
  lemma RayLenBounds(p: Pos, d: Pos, k: int)
    requires InBounds(p) && IsDirection(d) && 0 <= k
    ensures InBounds(Walk(p, d, k)) <==> k <= RayLen(p, d)
  {
  }

  function Sign(x: int): (s: int)
    ensures -1 <= s <= 1 && (s == 0 <==> x == 0)
  {
    if x > 0 then 1 else if x < 0 then -1 else 0
  }

  function Abs(x: int): int {
    if x < 0 then -x else x
  }

  /** `q` lies on one of the eight lines through `p`. */
  predicate Aligned(p: Pos, q: Pos) {
    q.0 == p.0 || q.1 == p.1 || Abs(q.0 - p.0) == Abs(q.1 - p.1)
  }

  /** The direction leading from `p` towards `q`. */
  function DirOf(p: Pos, q: Pos): Pos {
    (Sign(q.0 - p.0), Sign(q.1 - p.1))
  }

  /** The number of steps from `p` to `q` along that direction. */
  function DistOf(p: Pos, q: Pos): int {
    if Abs(q.0 - p.0) < Abs(q.1 - p.1) then Abs(q.1 - p.1) else Abs(q.0 - p.0)
  }

  /** Walking `n >= 1` steps along a direction reaches an aligned cell other
      than the start, whose direction and distance are `d` and `n`. */
  lemma WalkGeometry(p: Pos, d: Pos, n: int)
    requires IsDirection(d) && n >= 1
    ensures Walk(p, d, n) != p && Aligned(p, Walk(p, d, n))
    ensures DirOf(p, Walk(p, d, n)) == d && DistOf(p, Walk(p, d, n)) == n
  {
  }

  /** Conversely, every aligned cell other than `p` is reached from `p` by
      walking `DistOf` steps in direction `DirOf`. */
  lemma AlignedIsWalk(p: Pos, q: Pos)
    requires Aligned(p, q) && q != p
    ensures IsDirection(DirOf(p, q)) && DistOf(p, q) >= 1
    ensures Walk(p, DirOf(p, q), DistOf(p, q)) == q
  {
  }

  /** `q` is one of the first `k` cells beyond `p` along `d`: a cell
      other than `p` on a line through it, in direction `d` (compared
      component by component) and at most `k` steps away. */
  predicate Within(p: Pos, d: Pos, q: Pos, k: int) {
    (q.0 != p.0 || q.1 != p.1) && Aligned(p, q) &&
    Sign(q.0 - p.0) == d.0 && Sign(q.1 - p.1) == d.1 && DistOf(p, q) <= k
  }

  /** One more step along `d` adds exactly the cell it reaches. */
  lemma WithinStep(p: Pos, d: Pos, k: int)
    requires IsDirection(d) && 0 <= k
    ensures forall a, b :: Within(p, d, (a, b), k + 1) <==>
      Within(p, d, (a, b), k) || (a == Walk(p, d, k + 1).0 && b == Walk(p, d, k + 1).1)
  {
    WalkGeometry(p, d, k + 1);
    forall a, b | Within(p, d, (a, b), k + 1)
      ensures Within(p, d, (a, b), k) || (a == Walk(p, d, k + 1).0 && b == Walk(p, d, k + 1).1)
    {
      AlignedIsWalk(p, (a, b));
    }
  }

  /** One more step of `i += di; j += dj` from the cell `n` steps out. */
  lemma WalkNext(p: Pos, d: Pos, n: int, i: int, j: int)
    requires -1 <= d.0 <= 1 && -1 <= d.1 <= 1 && i == Walk(p, d, n).0 && j == Walk(p, d, n).1
    ensures i + d.0 == Walk(p, d, n + 1).0 && j + d.1 == Walk(p, d, n + 1).1
  {
  }
}

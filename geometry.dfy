/**
 * Grid geometry of the 16x16 board: positions, the Manhattan metric,
 * bounds checking, and the board itself as a grid of optional cells.
 */
module Geometry {
  import opened Wrappers

  const BOARD_SIZE: int := 16

  datatype Position = Position(x: int, y: int)

  function Abs(n: int): (r: nat)
    ensures r == n || r == -n
  {
    if n < 0 then -n else n
  }

  function Max(a: int, b: int): int
  {
    if a >= b then a else b
  }

  function Min(a: int, b: int): int
  {
    if a <= b then a else b
  }

  /** Manhattan distance between two cells. */
  function Distance(p: Position, q: Position): (d: nat)
    ensures d == 0 <==> p == q
    ensures Abs(p.x - q.x) <= d && Abs(p.y - q.y) <= d
  {
    Abs(p.x - q.x) + Abs(p.y - q.y)
  }

  lemma DistanceSymmetric(p: Position, q: Position)
    ensures Distance(p, q) == Distance(q, p)
  {
  }

  lemma DistanceTriangle(p: Position, q: Position, r: Position)
    ensures Distance(p, r) <= Distance(p, q) + Distance(q, r)
  {
  }

  /** A cell of the board: both coordinates in [0, 16). */
  predicate IsValidPosition(p: Position)
  {
    0 <= p.x < BOARD_SIZE && 0 <= p.y < BOARD_SIZE
  }

  /** The board: rows indexed by y, cells by x, each cell empty or occupied. */
  type Grid<T> = seq<seq<Option<T>>>

  predicate IsGrid<T>(g: Grid<T>)
  {
    |g| == BOARD_SIZE && forall y :: 0 <= y < |g| ==> |g[y]| == BOARD_SIZE
  }

  function At<T>(g: Grid<T>, p: Position): Option<T>
    requires IsGrid(g) && IsValidPosition(p)
  {
    g[p.y][p.x]
  }

  /** The board with cell `p` (row `p.y`, column `p.x`) set to `v`, on a copy. */
  function Put<T>(g: Grid<T>, p: Position, v: Option<T>): (h: Grid<T>)
    requires IsGrid(g) && IsValidPosition(p)
    ensures IsGrid(h)
    ensures At(h, p) == v
    ensures forall q :: IsValidPosition(q) && q != p ==> At(h, q) == At(g, q)
  {
    g[p.y := g[p.y][p.x := v]]
  }

  function EmptyRow<T>(): (row: seq<Option<T>>)
    ensures |row| == BOARD_SIZE && forall x :: 0 <= x < |row| ==> row[x] == None
  {
    seq(BOARD_SIZE, _ => None)
  }

  /** A 16 by 16 board with every cell empty. */
  function EmptyGrid<T>(): (g: Grid<T>)
    ensures IsGrid(g)
    ensures forall p :: IsValidPosition(p) ==> At(g, p) == None
  {
    seq(BOARD_SIZE, _ => EmptyRow())
  }

  /** Cells as a sequence index: cell k is (k % 16, k / 16). */
  function CellAt(k: nat): (p: Position)
    requires k < BOARD_SIZE * BOARD_SIZE
    ensures IsValidPosition(p)
  {
    Position(k % BOARD_SIZE, k / BOARD_SIZE)
  }

  lemma {:induction false} CellsBelow(n: nat)
    requires n <= BOARD_SIZE * BOARD_SIZE
    ensures |set k | 0 <= k < n :: CellAt(k)| == n
  {
    if n > 0 {
      CellsBelow(n - 1);
      var prev := set k | 0 <= k < n - 1 :: CellAt(k);
      assert CellAt(n - 1) !in prev;
      assert (set k | 0 <= k < n :: CellAt(k)) == prev + {CellAt(n - 1)};
    }
  }

  /**
   * Pigeonhole on the board: whenever fewer than 256 cells are taken,
   * a free cell exists (this is what makes the source's retry loops end).
   */
  lemma FreeCellExists(taken: set<Position>)
    requires |taken| < BOARD_SIZE * BOARD_SIZE
    ensures exists p :: IsValidPosition(p) && p !in taken
  {
    var all := set k | 0 <= k < BOARD_SIZE * BOARD_SIZE :: CellAt(k);
    CellsBelow(BOARD_SIZE * BOARD_SIZE);
    if all <= taken {
      assert |all| <= |taken| by { SubsetCard(all, taken); }
      assert false;
    }
    var p :| p in all && p !in taken;
  }

  lemma SubsetCard<T>(a: set<T>, b: set<T>)
    requires a <= b
    ensures |a| <= |b|
  {
    assert b == a + (b - a);
  }
}

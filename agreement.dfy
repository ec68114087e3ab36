/**
 * Facts about the board/team agreement invariant that every state change of
 * the engine relies on: a change that keeps every character's id and cell and
 * only ever kills characters keeps the agreement, once the cells of the
 * characters that died are cleared.
 */
module Agreement {
  import opened Wrappers
  import opened Geometry
  import opened Types

  /** Two grids with the same cells are the same grid. */
  lemma GridsEqual<T>(g: Grid<T>, h: Grid<T>)
    requires IsGrid(g) && IsGrid(h)
    requires forall p :: IsValidPosition(p) ==> At(g, p) == At(h, p)
    ensures g == h
  {
    forall y | 0 <= y < BOARD_SIZE
      ensures g[y] == h[y]
    {
      forall x | 0 <= x < BOARD_SIZE
        ensures g[y][x] == h[y][x]
      {
        assert At(g, Position(x, y)) == At(h, Position(x, y));
      }
    }
  }

  /** Writing a cell's own content back leaves the grid unchanged. */
  lemma PutSame<T>(g: Grid<T>, p: Position)
    requires IsGrid(g) && IsValidPosition(p)
    ensures Put(g, p, At(g, p)) == g
  {
    GridsEqual(Put(g, p, At(g, p)), g);
  }

  /** Same ids and same cells, position by position. */
  predicate SameFootprint(a: seq<Character>, b: seq<Character>)
  {
    |a| == |b| && forall i :: 0 <= i < |a| ==> b[i].id == a[i].id && b[i].position == a[i].position
  }

  lemma {:induction false} IndexOfIdSameIds(a: seq<Character>, b: seq<Character>, id: string)
    requires |a| == |b| && forall i :: 0 <= i < |a| ==> b[i].id == a[i].id
    ensures IndexOfId(a, id) == IndexOfId(b, id)
  {
    if |a| > 0 {
      IndexOfIdSameIds(a[1..], b[1..], id);
    }
  }

  /**
   * The general preservation step: `b` keeps the ids and cells of `a`, nobody
   * comes back to life, and the new board clears exactly the cells of those
   * who died.
   */
  lemma AgreementAfterDeaths(board: Grid<string>, a: seq<Character>, b: seq<Character>, board': Grid<string>)
    requires BoardAgrees(board, a) && SameFootprint(a, b)
    requires forall i :: 0 <= i < |b| && b[i].isAlive ==> a[i].isAlive
    requires IsGrid(board')
    requires forall p :: IsValidPosition(p) ==>
               At(board', p) == if At(board, p).Some? && !b[IndexOfId(a, At(board, p).value)].isAlive then None else At(board, p)
    ensures BoardAgrees(board', b)
  {
    forall id ensures IndexOfId(a, id) == IndexOfId(b, id) {
      IndexOfIdSameIds(a, b, id);
    }
    forall c | c in b
      ensures IsValidPosition(c.position)
      ensures c.isAlive ==> At(board', c.position) == Some(c.id)
    {
      var i :| 0 <= i < |b| && b[i] == c;
      assert a[i] in a;
      if c.isAlive {
        FindMember(a, i);
      }
    }
    forall p | IsValidPosition(p) && At(board', p).Some?
      ensures var k := IndexOfId(b, At(board', p).value); k >= 0 && b[k].isAlive && b[k].position == p
    {
    }
  }

  /** The special case where nobody dies: the board stays as it is. */
  lemma AgreementSameFootprint(board: Grid<string>, a: seq<Character>, b: seq<Character>)
    requires BoardAgrees(board, a) && SameFootprint(a, b)
    requires forall i :: 0 <= i < |b| ==> b[i].isAlive == a[i].isAlive
    ensures BoardAgrees(board, b)
  {
    forall p | IsValidPosition(p)
      ensures At(board, p) == if At(board, p).Some? && !b[IndexOfId(a, At(board, p).value)].isAlive then None else At(board, p)
    {
    }
    AgreementAfterDeaths(board, a, b, board);
  }

  /** Replacing by id on both teams is replacing by id on the joined list when the other team lacks `id`. */
  lemma ReplaceInTeam(p: seq<Character>, e: seq<Character>, id: string, u: Character)
    requires forall c :: c in e ==> c.id != id
    ensures ReplaceById(p, id, u) + e == ReplaceById(p + e, id, u)
  {
    var l, r := ReplaceById(p, id, u) + e, ReplaceById(p + e, id, u);
    forall i | 0 <= i < |r|
      ensures l[i] == r[i]
    {
      if i >= |p| {
        assert e[i - |p|] in e;
      }
    }
  }

  lemma ReplaceInOtherTeam(p: seq<Character>, e: seq<Character>, id: string, u: Character)
    requires forall c :: c in p ==> c.id != id
    ensures p + ReplaceById(e, id, u) == ReplaceById(p + e, id, u)
  {
    var l, r := p + ReplaceById(e, id, u), ReplaceById(p + e, id, u);
    forall i | 0 <= i < |r|
      ensures l[i] == r[i]
    {
      if i < |p| {
        assert p[i] in p;
      }
    }
  }

  /** Replacing the member with id `id` by a member with the same id, cell and liveness keeps the agreement. */
  lemma AgreementReplace(board: Grid<string>, a: seq<Character>, id: string, u: Character)
    requires BoardAgrees(board, a)
    requires forall c :: c in a && c.id == id ==> u.id == id && u.position == c.position && u.isAlive == c.isAlive
    ensures BoardAgrees(board, ReplaceById(a, id, u))
  {
    var b := ReplaceById(a, id, u);
    forall i | 0 <= i < |a|
      ensures b[i].id == a[i].id && b[i].position == a[i].position && b[i].isAlive == a[i].isAlive
    {
      assert a[i] in a;
    }
    AgreementSameFootprint(board, a, b);
  }
}

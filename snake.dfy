/** The snake's body, head first, and the invariant the game keeps on it:
    non-empty, every cell on the board, no cell twice. Also the counting
    argument that a body shorter than the board leaves a cell free. */
module Snake {
  import opened Grid

  predicate Distinct(s: seq<Point>) {
    forall i, j :: 0 <= i < j < |s| ==> s[i] != s[j]
  }

  predicate AllInGrid(s: seq<Point>, grid: int) {
    forall i :: 0 <= i < |s| ==> InGrid(s[i], grid)
  }

  predicate WellFormed(body: seq<Point>, grid: int) {
    |body| > 0 && AllInGrid(body, grid) && Distinct(body)
  }

  /** A move without eating: the new head in front, the tail cell dropped. */
  function Advance(body: seq<Point>, head: Point): (r: seq<Point>)
    requires |body| > 0
    ensures |r| == |body| && r[0] == head
    ensures forall i :: 0 < i < |r| ==> r[i] == body[i - 1]
  {
    [head] + body[..|body| - 1]
  }

  /** A move onto the food: the new head in front, the tail kept. */
  function Grow(body: seq<Point>, head: Point): (r: seq<Point>)
    ensures |r| == |body| + 1 && r[0] == head
    ensures forall i :: 0 < i < |r| ==> r[i] == body[i - 1]
    ensures |body| > 0 ==> r[..|body|] == Advance(body, head)
  {
    [head] + body
  }

  /** Advancing onto a free cell of the board keeps the body well formed and
      its length, and leaves every cell off the old body off the new one
      unless it is the new head. */
  lemma AdvanceKeepsWellFormed(body: seq<Point>, head: Point, grid: int)
    requires WellFormed(body, grid) && InGrid(head, grid) && head !in body
    ensures WellFormed(Advance(body, head), grid)
    ensures |Advance(body, head)| == |body|
    ensures forall c :: c !in body && c != head ==> c !in Advance(body, head)
  {
    var r := Advance(body, head);
    forall i, j | 0 <= i < j < |r| ensures r[i] != r[j] {
      if i == 0 {
        assert r[j] == body[j - 1];
      } else {
        assert r[i] == body[i - 1] && r[j] == body[j - 1];
      }
    }
  }

  /** Growing onto a free cell of the board keeps the body well formed and
      adds exactly one cell. */
  lemma GrowKeepsWellFormed(body: seq<Point>, head: Point, grid: int)
    requires WellFormed(body, grid) && InGrid(head, grid) && head !in body
    ensures WellFormed(Grow(body, head), grid)
    ensures |Grow(body, head)| == |body| + 1
  {
    var r := Grow(body, head);
    forall i, j | 0 <= i < j < |r| ensures r[i] != r[j] {
      if i == 0 {
        assert r[j] == body[j - 1];
      } else {
        assert r[i] == body[i - 1] && r[j] == body[j - 1];
      }
    }
  }

  /** Every cell of the board, row by row. */
  function Cells(grid: nat): seq<Point> {
    seq(grid * grid, i requires 0 <= i < grid * grid => Point(i % grid, i / grid))
  }

  lemma CellAt(grid: nat, c: Point)
    requires InGrid(c, grid)
    ensures 0 <= c.y * grid + c.x < grid * grid
    ensures Cells(grid)[c.y * grid + c.x] == c
  {
    var i := c.y * grid + c.x;
    assert c.y * grid <= (grid - 1) * grid by {
      MulLeq(c.y, grid - 1, grid);
    }
    DivModUnique(i, grid, c.y, c.x);
  }

  /** A repetition-free sequence whose elements all lie in `s` is no longer
      than `s` is large. */
  lemma {:induction false} DistinctFitsIn(a: seq<Point>, s: set<Point>)
    requires Distinct(a)
    requires forall i :: 0 <= i < |a| ==> a[i] in s
    ensures |a| <= |s|
  {
    if |a| > 0 {
      var rest := s - {a[0]};
      forall i | 0 <= i < |a| - 1 ensures a[1..][i] in rest {
        assert a[1..][i] == a[i + 1];
      }
      DistinctFitsIn(a[1..], rest);
    }
  }

  function Elements(s: seq<Point>): set<Point> {
    set p | p in s
  }

  lemma {:induction false} ElementsFewer(s: seq<Point>)
    ensures |Elements(s)| <= |s|
  {
    if |s| > 0 {
      assert Elements(s) == {s[0]} + Elements(s[1..]);
      ElementsFewer(s[1..]);
    }
  }

  /** Pigeonhole: a body with fewer cells than the board leaves a board cell
      free. */
  lemma FreeCellExists(body: seq<Point>, grid: nat)
    requires |body| < grid * grid
    ensures exists c :: InGrid(c, grid) && c !in body
  {
    if forall c :: InGrid(c, grid) ==> c in body {
      var cs := Cells(grid);
      forall i | 0 <= i < |cs| ensures cs[i] in Elements(body) {
        CellOf(grid, i);
      }
      forall i, j | 0 <= i < j < |cs| ensures cs[i] != cs[j] {
        CellOf(grid, i);
        CellAt(grid, cs[i]);
        CellOf(grid, j);
      }
      DistinctFitsIn(cs, Elements(body));
      ElementsFewer(body);
      assert false;
    }
  }

  lemma CellOf(grid: nat, i: int)
    requires 0 <= i < grid * grid
    ensures InGrid(Cells(grid)[i], grid)
    ensures Cells(grid)[i].y * grid + Cells(grid)[i].x == i
  {
  }

  /** A well-formed body never holds more cells than the board has. */
  lemma WellFormedFits(body: seq<Point>, grid: nat)
    requires WellFormed(body, grid)
    ensures |body| <= grid * grid
  {
    var board := Elements(Cells(grid));
    forall i | 0 <= i < |body| ensures body[i] in board {
      CellAt(grid, body[i]);
    }
    DistinctFitsIn(body, board);
    ElementsFewer(Cells(grid));
  }
}

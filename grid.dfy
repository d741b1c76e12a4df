/** Shape matrices: the rectangular 0/1 grids every piece of the arena is made of.
    A cell is addressed as (x, y) with x the column and y the row, exactly as the
    Python tuples do; a filled cell is a 1 in the matrix. */
module Grid {

  type Cell = (int, int)
  type Shape = seq<seq<bool>>

  datatype Option<T> = None | Some(value: T)

  function Abs(n: int): nat { if n < 0 then -n else n }
  function Min(a: int, b: int): int { if a <= b then a else b }
  function Max(a: int, b: int): int { if a >= b then a else b }

  /** Every row has the width of the first one. */
  predicate IsGrid(s: Shape) {
    forall y :: 0 <= y < |s| ==> |s[y]| == |s[0]|
  }

  /** The width the source reads as len(shape[0]). */
  function Width(s: Shape): nat {
    if s == [] then 0 else |s[0]|
  }

  /** The cell c lies inside the matrix and holds a 1. */
  predicate Filled(s: Shape, c: Cell) {
    0 <= c.1 < |s| && 0 <= c.0 < |s[c.1]| && s[c.1][c.0]
  }

  /** The set of filled cells, in local coordinates. */
  ghost function Cells(s: Shape): (cs: set<Cell>)
    ensures forall c :: c in cs <==> Filled(s, c)
  {
    set x, y | 0 <= y < |s| && 0 <= x < |s[y]| && s[y][x] :: (x, y)
  }

  /** Some row holds a filled cell. */
  predicate HasFilled(s: Shape) {
    exists y | 0 <= y < |s| :: exists x | 0 <= x < |s[y]| :: s[y][x]
  }

  lemma HasFilledCell(s: Shape, c: Cell)
    requires Filled(s, c)
    ensures HasFilled(s)
  {
    assert s[c.1][c.0];
  }

  /** The shape every live entity has: at least one row, rectangular, and
      at least one filled cell (so also at least one column). */
  predicate WellFormed(s: Shape) {
    |s| > 0 && IsGrid(s) && HasFilled(s)
  }

  /** The all-zero matrix of h rows of w cells. */
  function Blank(w: nat, h: nat): (r: Shape)
    ensures |r| == h && IsGrid(r) && forall y :: 0 <= y < h ==> |r[y]| == w
    ensures forall c :: !Filled(r, c)
  {
    seq(h, _ => seq(w, _ => false))
  }

  /** Orthogonal touch: one apart on one axis and equal on the other.
      Overlapping and diagonal cells do not touch. */
  predicate Touch(p: Cell, q: Cell) {
    (Abs(p.0 - q.0) == 1 && p.1 == q.1) || (Abs(p.1 - q.1) == 1 && p.0 == q.0)
  }

  lemma TouchSymmetric(p: Cell, q: Cell)
    ensures Touch(p, q) <==> Touch(q, p)
  {
  }

  /** The four cells pushed by the flood fill, in the order it pushes them. */
  function Neighbours(c: Cell): (r: seq<Cell>)
    ensures forall q :: q in r <==> Touch(c, q)
  {
    [(c.0 + 1, c.1), (c.0 - 1, c.1), (c.0, c.1 + 1), (c.0, c.1 - 1)]
  }

  /** The clockwise quarter turn: rows reversed, then transposed. Row i of the result is
      column i of the input read from the bottom row up. */
  function Rotated(s: Shape): (r: Shape)
    requires IsGrid(s)
    ensures IsGrid(r) && |r| == Width(s)
    ensures forall i :: 0 <= i < |r| ==> |r[i]| == |s|
    ensures forall i, j :: 0 <= i < |r| && 0 <= j < |s| ==> r[i][j] == s[|s| - 1 - j][i]
  {
    if s == [] then []
    else seq(|s[0]|, i requires 0 <= i < |s[0]| => seq(|s|, j requires 0 <= j < |s| => s[|s| - 1 - j][i]))
  }

  /** The shape after `n` quarter turns. */
  function RotatedN(s: Shape, n: nat): (r: Shape)
    requires IsGrid(s)
    ensures IsGrid(r)
  {
    if n == 0 then s else Rotated(RotatedN(s, n - 1))
  }

  /** A quarter turn keeps a well-formed shape well-formed: the filled cell
      (x, y) lands at (H - 1 - y, x). */
  lemma RotatedWellFormed(s: Shape)
    requires WellFormed(s)
    ensures WellFormed(Rotated(s))
  {
    var y :| 0 <= y < |s| && exists x | 0 <= x < |s[y]| :: s[y][x];
    var x :| 0 <= x < |s[y]| && s[y][x];
    var r := Rotated(s);
    assert r[x][|s| - 1 - y] == s[y][x];
    HasFilledCell(r, (|s| - 1 - y, x));
  }

  lemma {:induction false} RotatedNWellFormed(s: Shape, n: nat)
    requires WellFormed(s)
    ensures WellFormed(RotatedN(s, n))
  {
    if n > 0 {
      RotatedNWellFormed(s, n - 1);
      RotatedWellFormed(RotatedN(s, n - 1));
    }
  }

  /** Two quarter turns read the matrix backwards in both directions. */
  lemma RotatedTwice(s: Shape)
    requires IsGrid(s) && |s| > 0 && Width(s) > 0
    ensures var r := Rotated(Rotated(s));
            |r| == |s| && Width(r) == Width(s) &&
            forall i, j :: 0 <= i < |s| && 0 <= j < Width(s) ==> r[i][j] == s[|s| - 1 - i][Width(s) - 1 - j]
  {
    var r1 := Rotated(s);
    assert |r1| == Width(s) && Width(r1) == |s|;
    var r2 := Rotated(r1);
    forall i, j | 0 <= i < |s| && 0 <= j < Width(s)
      ensures r2[i][j] == s[|s| - 1 - i][Width(s) - 1 - j]
    {
      assert r2[i][j] == r1[|r1| - 1 - j][i];
    }
  }

  /** Four quarter turns give the original matrix back. */
  lemma RotatedFourTimes(s: Shape)
    requires IsGrid(s) && |s| > 0 && Width(s) > 0
    ensures RotatedN(s, 4) == s
  {
    FourTurnsUnfold(s);
    HalfTurnTwice(s);
  }

  lemma FourTurnsUnfold(s: Shape)
    requires IsGrid(s)
    ensures RotatedN(s, 4) == Rotated(Rotated(Rotated(Rotated(s))))
  {
    assert RotatedN(s, 0) == s;
    assert RotatedN(s, 1) == Rotated(s);
    assert RotatedN(s, 2) == Rotated(Rotated(s));
    assert RotatedN(s, 3) == Rotated(Rotated(Rotated(s)));
  }

  lemma HalfTurnTwice(s: Shape)
    requires IsGrid(s) && |s| > 0 && Width(s) > 0
    ensures Rotated(Rotated(Rotated(Rotated(s)))) == s
  {
    RotatedTwice(s);
    var h := Rotated(Rotated(s));
    RotatedTwice(h);
    var r4 := Rotated(Rotated(h));
    forall i | 0 <= i < |s| ensures r4[i] == s[i] {
      forall j | 0 <= j < |s[i]| ensures r4[i][j] == s[i][j] {
        assert r4[i][j] == h[|s| - 1 - i][Width(s) - 1 - j];
      }
    }
  }
}

/** The seven canonical tetrominoes with their colours (the SHAPES table), the
    colour list the player cycles through (COLORS), and the exact-orientation
    catalog lookup used when fragments are re-emitted. */
module Catalog {
  import opened Grid

  /** The colours the game logic compares; WHITE marks a merged cluster. */
  datatype Colour = Cyan | Yellow | Purple | Green | Red | Blue | Orange | White

  const PieceI: Shape := [[true, true, true, true]]
  const PieceO: Shape := [[true, true], [true, true]]
  const PieceT: Shape := [[true, true, true], [false, true, false]]
  const PieceL: Shape := [[true, true, true], [true, false, false]]
  const PieceJ: Shape := [[true, true, true], [false, false, true]]
  const PieceS: Shape := [[true, true, false], [false, true, true]]
  const PieceZ: Shape := [[false, true, true], [true, true, false]]

  /** The shape half of SHAPES, in table order. */
  const Shapes: seq<Shape> := [PieceI, PieceO, PieceT, PieceL, PieceJ, PieceS, PieceZ]

  /** The colour half of the shape table, in table order. */
  const Colours: seq<Colour> := [Cyan, Yellow, Purple, Orange, Blue, Green, Red]

  const CatalogSize := 7

  /** Every catalog entry is well-formed and has exactly four filled cells; no
      entry is WHITE; entries are pairwise different in shape and in colour. */
  lemma CatalogFacts()
    ensures |Shapes| == |Colours| == CatalogSize
    ensures forall k :: 0 <= k < CatalogSize ==> WellFormed(Shapes[k]) && |Cells(Shapes[k])| == 4
    ensures White !in Colours
    ensures forall i, j :: 0 <= i < j < CatalogSize ==> Shapes[i] != Shapes[j] && Colours[i] != Colours[j]
  {
    forall k | 0 <= k < CatalogSize ensures WellFormed(Shapes[k]) && |Cells(Shapes[k])| == 4 {
      PieceFacts(k);
    }
    forall i, j | 0 <= i < j < CatalogSize ensures Shapes[i] != Shapes[j] {
      ShapesDiffer(i, j);
    }
  }

  lemma PieceFacts(k: nat)
    requires k < CatalogSize
    ensures WellFormed(Shapes[k]) && |Cells(Shapes[k])| == 4
  {
    if k == 0 {
      PieceIFacts();
    } else if k == 1 {
      PieceOFacts();
    } else if k == 2 {
      PieceTFacts();
    } else if k == 3 {
      PieceLFacts();
    } else if k == 4 {
      PieceJFacts();
    } else if k == 5 {
      PieceSFacts();
    } else {
      PieceZFacts();
    }
  }

  lemma PieceIFacts()
    ensures WellFormed(PieceI) && |Cells(PieceI)| == 4
  {
    HasFilledCell(PieceI, (1, 0));
    ExactCells(PieceI, {(0, 0), (1, 0), (2, 0), (3, 0)});
    FourCells((0, 0), (1, 0), (2, 0), (3, 0));
  }

  lemma PieceOFacts()
    ensures WellFormed(PieceO) && |Cells(PieceO)| == 4
  {
    HasFilledCell(PieceO, (1, 0));
    ExactCells(PieceO, {(0, 0), (1, 0), (0, 1), (1, 1)});
    FourCells((0, 0), (1, 0), (0, 1), (1, 1));
  }

  lemma PieceTFacts()
    ensures WellFormed(PieceT) && |Cells(PieceT)| == 4
  {
    HasFilledCell(PieceT, (1, 0));
    ExactCells(PieceT, {(0, 0), (1, 0), (2, 0), (1, 1)});
    FourCells((0, 0), (1, 0), (2, 0), (1, 1));
  }

  lemma PieceLFacts()
    ensures WellFormed(PieceL) && |Cells(PieceL)| == 4
  {
    HasFilledCell(PieceL, (1, 0));
    ExactCells(PieceL, {(0, 0), (1, 0), (2, 0), (0, 1)});
    FourCells((0, 0), (1, 0), (2, 0), (0, 1));
  }

  lemma PieceJFacts()
    ensures WellFormed(PieceJ) && |Cells(PieceJ)| == 4
  {
    HasFilledCell(PieceJ, (1, 0));
    ExactCells(PieceJ, {(0, 0), (1, 0), (2, 0), (2, 1)});
    FourCells((0, 0), (1, 0), (2, 0), (2, 1));
  }

  lemma PieceSFacts()
    ensures WellFormed(PieceS) && |Cells(PieceS)| == 4
  {
    HasFilledCell(PieceS, (1, 0));
    ExactCells(PieceS, {(0, 0), (1, 0), (1, 1), (2, 1)});
    FourCells((0, 0), (1, 0), (1, 1), (2, 1));
  }

  lemma PieceZFacts()
    ensures WellFormed(PieceZ) && |Cells(PieceZ)| == 4
  {
    HasFilledCell(PieceZ, (1, 0));
    ExactCells(PieceZ, {(1, 0), (2, 0), (0, 1), (1, 1)});
    FourCells((1, 0), (2, 0), (0, 1), (1, 1));
  }

  lemma FourCells(a: Cell, b: Cell, c: Cell, d: Cell)
    requires a != b && a != c && a != d && b != c && b != d && c != d
    ensures |{a, b, c, d}| == 4
  {
    assert {a, b, c, d} == {a, b, c} + {d};
    assert {a, b, c} == {a, b} + {c};
    assert {a, b} == {a} + {b};
  }

  /** The filled cells of a small literal shape, listed row by row. */
  lemma ExactCells(s: Shape, cells: set<Cell>)
    requires |s| <= 2 && forall y :: 0 <= y < |s| ==> |s[y]| <= 4
    requires forall c :: c in cells ==> Filled(s, c)
    requires forall y, x :: 0 <= y < |s| && 0 <= x < |s[y]| && s[y][x] ==> (x, y) in cells
    ensures Cells(s) == cells
  {
    forall c | c in Cells(s) ensures c in cells {
      assert s[c.1][c.0];
    }
  }

  lemma ShapesDiffer(i: nat, j: nat)
    requires i < j < CatalogSize
    ensures Shapes[i] != Shapes[j]
  {
    if i == 0 || j == 0 {
      assert |Shapes[0]| == 1 && |Shapes[0][0]| == 4;
    } else if i == 1 || j == 1 {
      assert |Shapes[1][0]| == 2;
    } else {
      var si, sj := Shapes[i], Shapes[j];
      assert si[0] == sj[0] == [true, true, true] ==> si[1] != sj[1];
      assert si[0] != sj[0] || si[1] != sj[1];
    }
  }

  /** The catalog search of handle_fragments: the colour of the first entry
      equal cell for cell to `fs`, scanning from entry `k`; no rotation or
      reflection is tried. */
  function MatchFrom(fs: Shape, k: nat): Option<Colour>
    requires k <= CatalogSize
    decreases CatalogSize - k
  {
    if k == CatalogSize then None
    else if Shapes[k] == fs then Some(Colours[k])
    else MatchFrom(fs, k + 1)
  }

  /** The colour of the first table entry whose shape equals the given one,
      or None when no entry does. */
  function Match(fs: Shape): Option<Colour> {
    MatchFrom(fs, 0)
  }

  lemma {:induction false} MatchFromFinds(fs: Shape, k: nat)
    requires k <= CatalogSize
    ensures MatchFrom(fs, k).Some? <==> exists i :: k <= i < CatalogSize && Shapes[i] == fs
    ensures MatchFrom(fs, k).Some? ==>
              exists i :: k <= i < CatalogSize && Shapes[i] == fs && MatchFrom(fs, k).value == Colours[i]
    decreases CatalogSize - k
  {
    if k < CatalogSize && Shapes[k] != fs {
      MatchFromFinds(fs, k + 1);
      assert forall i :: k <= i < CatalogSize && Shapes[i] == fs ==> k + 1 <= i;
    }
  }

  /** The lookup succeeds exactly for the catalog shapes, and then yields the
      colour of that entry (entries are distinct, so this is unambiguous). */
  lemma MatchSpec(fs: Shape)
    ensures Match(fs).Some? <==> fs in Shapes
    ensures forall k :: 0 <= k < CatalogSize && Shapes[k] == fs ==> Match(fs) == Some(Colours[k])
  {
    MatchFromFinds(fs, 0);
    CatalogFacts();
    if Match(fs).Some? {
      var i :| 0 <= i < CatalogSize && Shapes[i] == fs && Match(fs).value == Colours[i];
      forall k | 0 <= k < CatalogSize && Shapes[k] == fs ensures Match(fs) == Some(Colours[k]) {
        assert i == k;
      }
    }
    if fs in Shapes {
      var k :| 0 <= k < |Shapes| && Shapes[k] == fs;
    }
  }

  /** Exact-orientation matching: a quarter turn of any catalog piece other
      than O is never recognised again. (O is its own rotation.) */
  lemma RotatedPiecesUnmatched(k: nat)
    requires k < CatalogSize
    ensures k != 1 ==> Match(Rotated(Shapes[k])).None?
    ensures Rotated(PieceO) == PieceO
  {
    MatchSpec(Rotated(Shapes[k]));
    var r := Rotated(Shapes[k]);
    assert |r| == |Shapes[k][0]|;
    if k != 1 {
      assert |r| >= 3;
      forall i | 0 <= i < CatalogSize ensures Shapes[i] != r {
        assert |Shapes[i]| <= 2;
      }
    }
    var o := Rotated(PieceO);
    assert o[0] == PieceO[0] && o[1] == PieceO[1];
  }

  /** The position of the first occurrence of c in the colour list. */
  function IndexFrom(c: Colour, k: nat): (i: nat)
    requires k <= CatalogSize && c in Colours[k..]
    ensures k <= i < CatalogSize && Colours[i] == c
    ensures forall j :: k <= j < i ==> Colours[j] != c
    decreases CatalogSize - k
  {
    if Colours[k] == c then k else IndexFrom(c, k + 1)
  }

  function IndexOf(c: Colour): (i: nat)
    requires c in Colours
    ensures i < CatalogSize && Colours[i] == c
  {
    IndexFrom(c, 0)
  }

  /** The colour `step` places after c in the colour list, wrapping around:
      the Q (step -1) and E (step +1) colour change. Python's % and Dafny's agree here because the
      divisor is positive. */
  function Cycled(c: Colour, step: int): (r: Colour)
    requires c in Colours
    ensures r in Colours
  {
    Colours[(IndexOf(c) + step) % CatalogSize]
  }

  lemma IndexOfAt(k: nat)
    requires k < CatalogSize
    ensures IndexOf(Colours[k]) == k
  {
  }

  /** Cycling forward then back (or back then forward) returns the colour. */
  lemma CycleRoundTrip(c: Colour)
    requires c in Colours
    ensures Cycled(Cycled(c, 1), -1) == c
    ensures Cycled(Cycled(c, -1), 1) == c
  {
    ForwardThenBack(c);
    BackThenForward(c);
  }

  lemma ForwardThenBack(c: Colour)
    requires c in Colours
    ensures Cycled(Cycled(c, 1), -1) == c
  {
    var i := IndexOf(c);
    var up := if i == CatalogSize - 1 then 0 else i + 1;
    assert (i + 1) % CatalogSize == up;
    StepBack(up, i);
  }

  lemma BackThenForward(c: Colour)
    requires c in Colours
    ensures Cycled(Cycled(c, -1), 1) == c
  {
    var i := IndexOf(c);
    var down := if i == 0 then CatalogSize - 1 else i - 1;
    assert (i - 1) % CatalogSize == down;
    StepForward(down, i);
  }

  lemma StepBack(k: nat, j: nat)
    requires k < CatalogSize && j < CatalogSize && (k - 1) % CatalogSize == j
    ensures Cycled(Colours[k], -1) == Colours[j]
  {
    IndexOfAt(k);
  }

  lemma StepForward(k: nat, j: nat)
    requires k < CatalogSize && j < CatalogSize && (k + 1) % CatalogSize == j
    ensures Cycled(Colours[k], 1) == Colours[j]
  {
    IndexOfAt(k);
  }

  /** The colour reached after a run of changes depends only on the net
      number of steps: the index moves by exactly `step` modulo seven. */
  lemma CycledIndex(c: Colour, step: int)
    requires c in Colours
    ensures IndexOf(Cycled(c, step)) == (IndexOf(c) + step) % CatalogSize
  {
    IndexOfAt((IndexOf(c) + step) % CatalogSize);
  }
}

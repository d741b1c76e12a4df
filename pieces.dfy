/** Tetromino entities: a positioned shape with a colour and a movement
    cooldown, the greedy one-cell step towards (hunt) or away from (flee) the
    player, orthogonal adjacency between two entities, and the merge of two
    entities into one WHITE cluster. */
module Pieces {
  import opened Grid
  import opened Catalog

  const TetrominoSpeed := 1
  /** TETROMINO_SPEED * 60: the cooldown an entity gets after every step. */
  const MoveDelay := TetrominoSpeed * 60

  /** The value of a Tetromino object: its origin, shape, colour and cooldown. */
  datatype Entity = Entity(x: int, y: int, shape: Shape, colour: Colour, cooldown: int)

  class Tetromino {
    var x: int
    var y: int
    var shape: Shape
    var colour: Colour
    var moveCooldown: int

    /** Tetromino(x, y, shape, color) with an explicit shape and colour; the
        coordinates arrive already truncated to integers. */
    constructor (x0: int, y0: int, shape0: Shape, colour0: Colour)
      ensures Value() == Entity(x0, y0, shape0, colour0, 0)
    {
      x, y, shape, colour, moveCooldown := x0, y0, shape0, colour0, 0;
    }

    function Value(): Entity
      reads this
    {
      Entity(x, y, shape, colour, moveCooldown)
    }

    /** rotate(times): `times` clockwise quarter turns, one per iteration. The
        shape is rectangular: the only caller turns a catalog shape. */
    method Rotate(times: nat)
      requires IsGrid(shape)
      modifies this`shape
      ensures shape == RotatedN(old(shape), times)
    {
      for i := 0 to times
        invariant IsGrid(shape)
        invariant shape == RotatedN(old(shape), i)
      {
        shape := Rotated(shape);
      }
    }

    /** move_towards_player, with the player position in tenths of a cell. */
    method MoveTowardsPlayer(px: int, py: int)
      modifies this`x, this`y, this`moveCooldown
      ensures Value() == Hunted(old(Value()), px, py)
    {
      if moveCooldown > 0 {
        moveCooldown := moveCooldown - 1;
        return;
      }
      var dx := px - 10 * x;
      var dy := py - 10 * y;
      if Abs(dx) > Abs(dy) {
        x := x + if dx > 0 then 1 else -1;
      } else {
        y := y + if dy > 0 then 1 else -1;
      }
      moveCooldown := MoveDelay;
    }

    /** repel, with the player position in tenths of a cell. */
    method Repel(px: int, py: int)
      modifies this`x, this`y, this`moveCooldown
      ensures Value() == Fled(old(Value()), px, py)
    {
      if moveCooldown > 0 {
        moveCooldown := moveCooldown - 1;
        return;
      }
      var dx := 10 * x - px;
      var dy := 10 * y - py;
      if Abs(dx) > Abs(dy) {
        x := x + if dx > 0 then 1 else -1;
      } else {
        y := y + if dy > 0 then 1 else -1;
      }
      moveCooldown := MoveDelay;
    }
  }

  /** The values of a list of entity objects, position by position. */
  ghost function Vals(ts: seq<Tetromino>): (vs: seq<Entity>)
    reads ts
    ensures |vs| == |ts| && forall k :: 0 <= k < |ts| ==> vs[k] == ts[k].Value()
  {
    seq(|ts|, k requires 0 <= k < |ts| reads ts => ts[k].Value())
  }

  /** No object appears twice in the list. */
  predicate Distinct(ts: seq<Tetromino>) {
    forall a, b :: 0 <= a < |ts| && 0 <= b < |ts| && a != b ==> ts[a] != ts[b]
  }

  lemma ValsAppend(a: seq<Tetromino>, b: seq<Tetromino>)
    ensures Vals(a + b) == Vals(a) + Vals(b)
  {
  }

  /** The greedy step rule shared by hunting and fleeing, for the signed offset
      (dx, dy) the entity follows. While the cooldown runs only the cooldown
      counts down. Otherwise exactly one coordinate moves by one: x when
      |dx| > |dy|, in the direction of dx; otherwise y, down when dy > 0 and up
      when dy <= 0 (so also up in the degenerate case dx = dy = 0); the
      cooldown then restarts at MoveDelay. */
  function Step(e: Entity, dx: int, dy: int): (r: Entity)
    ensures r.shape == e.shape && r.colour == e.colour
    ensures e.cooldown > 0 ==> r == e.(cooldown := e.cooldown - 1)
    ensures e.cooldown <= 0 ==>
              && r.cooldown == MoveDelay
              && Abs(r.x - e.x) + Abs(r.y - e.y) == 1
              && (r.x != e.x <==> Abs(dx) > Abs(dy))
              && (r.x > e.x ==> dx > 0) && (r.x < e.x ==> dx < 0)
              && (r.y > e.y <==> r.x == e.x && dy > 0)
  {
    if e.cooldown > 0 then e.(cooldown := e.cooldown - 1)
    else if Abs(dx) > Abs(dy) then e.(x := e.x + (if dx > 0 then 1 else -1), cooldown := MoveDelay)
    else e.(y := e.y + (if dy > 0 then 1 else -1), cooldown := MoveDelay)
  }

  /** A hunting step towards the player at (px, py) tenths of a cell. */
  function Hunted(e: Entity, px: int, py: int): Entity {
    Step(e, px - 10 * e.x, py - 10 * e.y)
  }

  /** A fleeing step: the same rule with the offset negated. */
  function Fled(e: Entity, px: int, py: int): Entity {
    Step(e, 10 * e.x - px, 10 * e.y - py)
  }

  /** With the player standing on the grid cell (cx, cy) and the entity
      elsewhere, a hunting step shortens the Manhattan distance by one. */
  lemma HuntApproaches(e: Entity, cx: int, cy: int)
    requires e.cooldown <= 0 && (e.x, e.y) != (cx, cy)
    ensures var r := Hunted(e, 10 * cx, 10 * cy);
            Abs(cx - r.x) + Abs(cy - r.y) == Abs(cx - e.x) + Abs(cy - e.y) - 1
  {
    var dx, dy := 10 * cx - 10 * e.x, 10 * cy - 10 * e.y;
    assert dx == 10 * (cx - e.x) && dy == 10 * (cy - e.y);
    assert Abs(dx) > Abs(dy) ==> cx != e.x;
    assert Abs(dx) <= Abs(dy) ==> cy != e.y;
  }

  /** A fleeing step always adds exactly one cell (ten tenths) to the Manhattan
      distance from the player, wherever the player stands. */
  lemma FleeRecedes(e: Entity, px: int, py: int)
    requires e.cooldown <= 0
    ensures var r := Fled(e, px, py);
            Abs(10 * r.x - px) + Abs(10 * r.y - py) == Abs(10 * e.x - px) + Abs(10 * e.y - py) + 10
  {
  }

  /** Unless the player sits exactly on the entity's origin, fleeing steps the
      opposite way from hunting. On the origin both step up (y - 1). */
  lemma FleeOpposesHunt(e: Entity, px: int, py: int)
    requires e.cooldown <= 0
    ensures (px, py) != (10 * e.x, 10 * e.y) ==>
              Fled(e, px, py).x - e.x == e.x - Hunted(e, px, py).x &&
              Fled(e, px, py).y - e.y == e.y - Hunted(e, px, py).y
    ensures (px, py) == (10 * e.x, 10 * e.y) ==>
              Fled(e, px, py) == Hunted(e, px, py) == e.(y := e.y - 1, cooldown := MoveDelay)
  {
  }

  /** The entity covers global cell c: c minus the origin is a filled cell
      of its shape. */
  predicate Occupies(e: Entity, c: Cell) {
    Filled(e.shape, (c.0 - e.x, c.1 - e.y))
  }

  /** Some covered cell of a touches some covered cell of b orthogonally. */
  ghost predicate Touching(a: Entity, b: Entity) {
    exists p, q :: Occupies(a, p) && Occupies(b, q) && Touch(p, q)
  }

  /** check_adjacent: the nested search over both shapes for a filled cell of
      `a` and a filled cell of `b` whose global positions differ by exactly one
      on one axis and not at all on the other. */
  predicate CheckAdjacent(a: Entity, b: Entity) {
    exists y1 | 0 <= y1 < |a.shape| ::
      exists x1 | 0 <= x1 < |a.shape[y1]| ::
        a.shape[y1][x1] &&
        exists y2 | 0 <= y2 < |b.shape| ::
          exists x2 | 0 <= x2 < |b.shape[y2]| ::
            b.shape[y2][x2] && Touch((a.x + x1, a.y + y1), (b.x + x2, b.y + y2))
  }

  /** Adjacency is exactly orthogonal touching of the global footprints. */
  lemma AdjacentSpec(a: Entity, b: Entity)
    ensures CheckAdjacent(a, b) <==> Touching(a, b)
  {
    if CheckAdjacent(a, b) {
      AdjacentTouching(a, b);
    }
    if Touching(a, b) {
      TouchingAdjacent(a, b);
    }
  }

  lemma AdjacentTouching(a: Entity, b: Entity)
    requires CheckAdjacent(a, b)
    ensures Touching(a, b)
  {
    var y1, x1, y2, x2 :| 0 <= y1 < |a.shape| && 0 <= x1 < |a.shape[y1]| && a.shape[y1][x1] &&
      0 <= y2 < |b.shape| && 0 <= x2 < |b.shape[y2]| && b.shape[y2][x2] &&
      Touch((a.x + x1, a.y + y1), (b.x + x2, b.y + y2));
    TouchingAt(a, b, x1, y1, x2, y2);
  }

  /** A filled cell of each shape at touching global positions witnesses Touching. */
  lemma TouchingAt(a: Entity, b: Entity, x1: int, y1: int, x2: int, y2: int)
    requires Filled(a.shape, (x1, y1)) && Filled(b.shape, (x2, y2))
    requires Touch((a.x + x1, a.y + y1), (b.x + x2, b.y + y2))
    ensures Touching(a, b)
  {
    var p, q := (a.x + x1, a.y + y1), (b.x + x2, b.y + y2);
    OccupiesAt(a, p, (x1, y1));
    OccupiesAt(b, q, (x2, y2));
  }

  lemma TouchingAdjacent(a: Entity, b: Entity)
    requires Touching(a, b)
    ensures CheckAdjacent(a, b)
  {
    var p, q :| Occupies(a, p) && Occupies(b, q) && Touch(p, q);
    var x1, y1 := p.0 - a.x, p.1 - a.y;
    var x2, y2 := q.0 - b.x, q.1 - b.y;
    assert a.shape[y1][x1] && b.shape[y2][x2];
    assert (a.x + x1, a.y + y1) == p && (b.x + x2, b.y + y2) == q;
  }

  /** Adjacency is symmetric. */
  lemma AdjacentSymmetric(a: Entity, b: Entity)
    ensures CheckAdjacent(a, b) <==> CheckAdjacent(b, a)
  {
    AdjacentSpec(a, b);
    AdjacentSpec(b, a);
    if Touching(a, b) {
      var p, q :| Occupies(a, p) && Occupies(b, q) && Touch(p, q);
      TouchSymmetric(p, q);
    }
    if Touching(b, a) {
      var p, q :| Occupies(b, p) && Occupies(a, q) && Touch(p, q);
      TouchSymmetric(p, q);
    }
  }

  /** An entity overlapping another cell for cell is not adjacent to it by that
      overlap: a single-cell entity never touches itself. */
  lemma OverlapIsNotAdjacency(x: int, y: int, c1: Colour, c2: Colour)
    ensures !CheckAdjacent(Entity(x, y, [[true]], c1, 0), Entity(x, y, [[true]], c2, 0))
  {
  }

  /** The cell c lies inside the matrix (filled or not). */
  predicate InBounds(s: Shape, c: Cell) {
    0 <= c.1 < |s| && 0 <= c.0 < |s[c.1]|
  }

  /** `canvas` with every filled cell of `s`, shifted by (ox, oy), set to 1:
      what one of the overlay loops of merge_tetrominoes leaves behind. */
  function Overlay(canvas: Shape, s: Shape, ox: int, oy: int): (r: Shape)
    ensures |r| == |canvas| && forall i :: 0 <= i < |r| ==> |r[i]| == |canvas[i]|
  {
    seq(|canvas|, i requires 0 <= i < |canvas| =>
      seq(|canvas[i]|, j requires 0 <= j < |canvas[i]| => canvas[i][j] || Filled(s, (j - ox, i - oy))))
  }

  /** A cell of the overlay is set exactly when it was set in the canvas or
      it is inside the canvas and its shifted-back position is set in `s`. */
  lemma OverlayFilled(canvas: Shape, s: Shape, ox: int, oy: int, l: Cell)
    ensures Filled(Overlay(canvas, s, ox, oy), l) <==>
              Filled(canvas, l) || (InBounds(canvas, l) && Filled(s, (l.0 - ox, l.1 - oy)))
  {
  }

  /** The filled cells of `s`, shifted by (ox, oy), all land inside a w x h
      box: the condition under which the overlay loop never indexes out of
      range. */
  predicate FitsIn(s: Shape, w: int, h: int, ox: int, oy: int) {
    forall y, x :: 0 <= y < |s| && 0 <= x < |s[y]| && s[y][x] ==> 0 <= x + ox < w && 0 <= y + oy < h
  }

  /** The canvas has h rows of w cells. */
  predicate HasDims(canvas: Shape, w: int, h: int) {
    |canvas| == h && forall i :: 0 <= i < |canvas| ==> |canvas[i]| == w
  }

  /** One overlay loop of merge_tetrominoes: for every filled cell of `s`, set
      the cell at the same place shifted by (ox, oy). */
  method OverlayCells(canvas: Shape, s: Shape, ox: int, oy: int, ghost w: int, ghost h: int) returns (r: Shape)
    requires HasDims(canvas, w, h) && FitsIn(s, w, h, ox, oy)
    ensures r == Overlay(canvas, s, ox, oy)
  {
    r := canvas;
    for y := 0 to |s|
      invariant HasDims(r, w, h)
      invariant forall i, j :: 0 <= i < h && 0 <= j < w ==>
                  r[i][j] == (canvas[i][j] || (Filled(s, (j - ox, i - oy)) && i - oy < y))
    {
      ghost var r0, row := r, y + oy;
      for x := 0 to |s[y]|
        invariant HasDims(r, w, h)
        invariant forall i :: 0 <= i < h && i != row ==> r[i] == r0[i]
        invariant 0 <= row < h ==> forall j :: 0 <= j < w ==>
                    r[row][j] == (r0[row][j] || (Filled(s, (j - ox, y)) && j - ox < x))
      {
        if s[y][x] {
          r := r[y + oy := r[y + oy][x + ox := true]];
        }
      }
    }
    var o := Overlay(canvas, s, ox, oy);
    forall i | 0 <= i < |r| ensures r[i] == o[i] {
      forall j | 0 <= j < |r[i]| ensures r[i][j] == o[i][j] {
      }
    }
  }

  /** The merged box: from the minimum corner to the maximum far corner. */
  function MergedWidth(a: Entity, b: Entity): int {
    Max(a.x + Width(a.shape), b.x + Width(b.shape)) - Min(a.x, b.x)
  }

  function MergedHeight(a: Entity, b: Entity): int {
    Max(a.y + |a.shape|, b.y + |b.shape|) - Min(a.y, b.y)
  }

  /** The merged entity: origin at the minimum corner, the union bounding box
      of both shape boxes as its dimensions, WHITE, cooldown 0. */
  function Merged(a: Entity, b: Entity): (m: Entity)
    requires |a.shape| > 0 && |b.shape| > 0
    ensures m.x == Min(a.x, b.x) && m.y == Min(a.y, b.y)
    ensures HasDims(m.shape, MergedWidth(a, b), MergedHeight(a, b))
    ensures IsGrid(m.shape)
    ensures m.colour == White && m.cooldown == 0
  {
    var minX, minY := Min(a.x, b.x), Min(a.y, b.y);
    var canvas := Blank(MergedWidth(a, b), MergedHeight(a, b));
    Entity(minX, minY,
           Overlay(Overlay(canvas, a.shape, a.x - minX, a.y - minY), b.shape, b.x - minX, b.y - minY),
           White, 0)
  }

  /** Inside the merged box, each source shape fits at its offset. */
  lemma MergedFits(a: Entity, b: Entity)
    requires |a.shape| > 0 && |b.shape| > 0 && IsGrid(a.shape) && IsGrid(b.shape)
    ensures FitsIn(a.shape, MergedWidth(a, b), MergedHeight(a, b), a.x - Min(a.x, b.x), a.y - Min(a.y, b.y))
    ensures FitsIn(b.shape, MergedWidth(a, b), MergedHeight(a, b), b.x - Min(a.x, b.x), b.y - Min(a.y, b.y))
  {
  }

  /** When `s` fits the canvas box, the overlay sets exactly the canvas's
      cells and the shifted cells of `s` (k is l shifted back). */
  lemma OverlayFitting(canvas: Shape, s: Shape, ox: int, oy: int, w: int, h: int, l: Cell, k: Cell)
    requires HasDims(canvas, w, h) && FitsIn(s, w, h, ox, oy) && k == (l.0 - ox, l.1 - oy)
    ensures Filled(Overlay(canvas, s, ox, oy), l) <==> Filled(canvas, l) || Filled(s, k)
  {
    OverlayFilled(canvas, s, ox, oy, l);
    if Filled(s, k) {
      assert s[k.1][k.0];
    }
  }

  lemma OccupiesAt(e: Entity, c: Cell, l: Cell)
    requires l == (c.0 - e.x, c.1 - e.y)
    ensures Occupies(e, c) == Filled(e.shape, l)
  {
  }

  /** The merged shape, cell by cell, in local coordinates of the merged box. */
  lemma MergedShapeAt(a: Entity, b: Entity, l: Cell, ka: Cell, kb: Cell)
    requires |a.shape| > 0 && |b.shape| > 0 && IsGrid(a.shape) && IsGrid(b.shape)
    requires ka == (l.0 - (a.x - Min(a.x, b.x)), l.1 - (a.y - Min(a.y, b.y)))
    requires kb == (l.0 - (b.x - Min(a.x, b.x)), l.1 - (b.y - Min(a.y, b.y)))
    ensures Filled(Merged(a, b).shape, l) <==> Filled(a.shape, ka) || Filled(b.shape, kb)
  {
    MergedFits(a, b);
    OverlayTwice(MergedWidth(a, b), MergedHeight(a, b), a.shape, b.shape,
                 a.x - Min(a.x, b.x), a.y - Min(a.y, b.y), b.x - Min(a.x, b.x), b.y - Min(a.y, b.y), l, ka, kb);
  }

  /** Two shapes that fit a w x h box, overlaid in turn on an empty canvas
      of that size: a cell is set exactly when it is set in one of them. */
  lemma OverlayTwice(w: nat, h: nat, s1: Shape, s2: Shape, x1: int, y1: int, x2: int, y2: int,
                     l: Cell, k1: Cell, k2: Cell)
    requires FitsIn(s1, w, h, x1, y1) && FitsIn(s2, w, h, x2, y2)
    requires k1 == (l.0 - x1, l.1 - y1) && k2 == (l.0 - x2, l.1 - y2)
    ensures Filled(Overlay(Overlay(Blank(w, h), s1, x1, y1), s2, x2, y2), l) <==> Filled(s1, k1) || Filled(s2, k2)
  {
    var canvas := Blank(w, h);
    var c1 := Overlay(canvas, s1, x1, y1);
    OverlayFitting(canvas, s1, x1, y1, w, h, l, k1);
    OverlayFitting(c1, s2, x2, y2, w, h, l, k2);
  }

  lemma MergedCellAt(a: Entity, b: Entity, c: Cell)
    requires |a.shape| > 0 && |b.shape| > 0 && IsGrid(a.shape) && IsGrid(b.shape)
    ensures Occupies(Merged(a, b), c) <==> Occupies(a, c) || Occupies(b, c)
  {
    var m := Merged(a, b);
    var l := (c.0 - m.x, c.1 - m.y);
    var ka, kb := (c.0 - a.x, c.1 - a.y), (c.0 - b.x, c.1 - b.y);
    MergedShapeAt(a, b, l, ka, kb);
    OccupiesAt(a, c, ka);
    OccupiesAt(b, c, kb);
    OccupiesAt(m, c, l);
  }

  /** The merged entity covers exactly the cells either input covers;
      nothing else is set. */
  lemma MergedCells(a: Entity, b: Entity)
    requires |a.shape| > 0 && |b.shape| > 0 && IsGrid(a.shape) && IsGrid(b.shape)
    ensures forall c :: Occupies(Merged(a, b), c) <==> Occupies(a, c) || Occupies(b, c)
  {
    forall c: Cell ensures Occupies(Merged(a, b), c) <==> Occupies(a, c) || Occupies(b, c) {
      MergedCellAt(a, b, c);
    }
  }

  /** An entity is adjacent to a merged cluster exactly when it is adjacent to
      one of the two parts: the fact the merge pass rests on. */
  lemma AdjacentToMerged(c: Entity, a: Entity, b: Entity)
    requires |a.shape| > 0 && |b.shape| > 0 && IsGrid(a.shape) && IsGrid(b.shape)
    ensures CheckAdjacent(c, Merged(a, b)) <==> CheckAdjacent(c, a) || CheckAdjacent(c, b)
  {
    var m := Merged(a, b);
    MergedCells(a, b);
    AdjacentSpec(c, m);
    AdjacentSpec(c, a);
    AdjacentSpec(c, b);
    if Touching(c, m) {
      var p, q :| Occupies(c, p) && Occupies(m, q) && Touch(p, q);
      if Occupies(a, q) { assert Touching(c, a); } else { assert Touching(c, b); }
    }
    if Touching(c, a) {
      var p, q :| Occupies(c, p) && Occupies(a, q) && Touch(p, q);
      assert Occupies(m, q);
    }
    if Touching(c, b) {
      var p, q :| Occupies(c, p) && Occupies(b, q) && Touch(p, q);
      assert Occupies(m, q);
    }
  }

  /** A merge of two well-formed entities is well-formed. */
  lemma MergedWellFormed(a: Entity, b: Entity)
    requires WellFormed(a.shape) && WellFormed(b.shape)
    ensures WellFormed(Merged(a, b).shape)
  {
    var m := Merged(a, b);
    MergedCells(a, b);
    var y :| 0 <= y < |a.shape| && exists x | 0 <= x < |a.shape[y]| :: a.shape[y][x];
    var x :| 0 <= x < |a.shape[y]| && a.shape[y][x];
    var g := (a.x + x, a.y + y);
    assert Occupies(a, g);
    assert Occupies(m, g);
    HasFilledCell(m.shape, (g.0 - m.x, g.1 - m.y));
  }

  /** Merged, spelled out stage by stage. */
  lemma MergedIs(a: Entity, b: Entity, blank: Shape, first: Shape, second: Shape)
    requires |a.shape| > 0 && |b.shape| > 0
    requires blank == Blank(MergedWidth(a, b), MergedHeight(a, b))
    requires first == Overlay(blank, a.shape, a.x - Min(a.x, b.x), a.y - Min(a.y, b.y))
    requires second == Overlay(first, b.shape, b.x - Min(a.x, b.x), b.y - Min(a.y, b.y))
    ensures Merged(a, b) == Entity(Min(a.x, b.x), Min(a.y, b.y), second, White, 0)
  {
  }

  /** merge_tetrominoes: a zero-filled matrix of the union bounding box, both
      shapes overlaid at their offsets, as a fresh WHITE entity. */
  method MergeTetrominoes(t1: Tetromino, t2: Tetromino) returns (merged: Tetromino)
    requires |t1.shape| > 0 && |t2.shape| > 0 && IsGrid(t1.shape) && IsGrid(t2.shape)
    ensures fresh(merged)
    ensures merged.Value() == Merged(t1.Value(), t2.Value())
  {
    var a, b := t1.Value(), t2.Value();
    var minX, minY := Min(a.x, b.x), Min(a.y, b.y);
    var w := Max(a.x + |a.shape[0]|, b.x + |b.shape[0]|) - minX;
    var h := Max(a.y + |a.shape|, b.y + |b.shape|) - minY;
    assert w == MergedWidth(a, b) && h == MergedHeight(a, b);
    MergedFits(a, b);
    var blank := Blank(w, h);
    var first := OverlayCells(blank, a.shape, a.x - minX, a.y - minY, w, h);
    var second := OverlayCells(first, b.shape, b.x - minX, b.y - minY, w, h);
    MergedIs(a, b, blank, first, second);
    merged := new Tetromino(minX, minY, second, White);
  }
}

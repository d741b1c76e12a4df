/** The passes the main loop makes over the list of tetrominoes each tick,
    stated on the list of their values: every entity takes its movement step,
    adjacent entities are merged into clusters, clusters with full lines are
    cut and split, and the player is tested for contact. Spawning adds one
    catalog piece. */
module Passes {
  import opened Grid
  import opened Catalog
  import opened Pieces
  import opened Lines
  import opened Fragments
  import opened Controls

  /** Every entity in the list has a well-formed shape. */
  predicate AllWellFormed(es: seq<Entity>) {
    forall k :: 0 <= k < |es| ==> WellFormed(es[k].shape)
  }

  /** An entity of the player's colour flees; every other entity hunts. */
  function MoveOne(e: Entity, px: int, py: int, c: Colour): Entity {
    if e.colour == c then Fled(e, px, py) else Hunted(e, px, py)
  }

  /** The movement loop: every entity takes its step, in place. Shapes and
      colours are untouched, so the list stays well-formed. */
  function MovedAll(es: seq<Entity>, px: int, py: int, c: Colour): (r: seq<Entity>)
    ensures |r| == |es|
    ensures forall k :: 0 <= k < |es| ==> r[k].shape == es[k].shape && r[k].colour == es[k].colour
    ensures AllWellFormed(es) ==> AllWellFormed(r)
  {
    seq(|es|, k requires 0 <= k < |es| => MoveOne(es[k], px, py, c))
  }

  // ---------------------------------------------------------------------
  // The merge pass

  /** The inner scan of the merge pass: the first position from j on whose
      entity is adjacent to the entity at i. */
  function FirstAdjacent(es: seq<Entity>, i: nat, j: nat): (r: Option<nat>)
    requires i < |es|
    ensures r.Some? ==> j <= r.value < |es| && CheckAdjacent(es[i], es[r.value])
    ensures r.Some? ==> forall k :: j <= k < r.value ==> !CheckAdjacent(es[i], es[k])
    ensures r.None? ==> forall k :: j <= k < |es| ==> !CheckAdjacent(es[i], es[k])
    decreases |es| - j
  {
    if j >= |es| then None
    else if CheckAdjacent(es[i], es[j]) then Some(j)
    else FirstAdjacent(es, i, j + 1)
  }

  /** list.pop(k): the list without its element at k. */
  function Pop<T>(s: seq<T>, k: nat): (r: seq<T>)
    requires k < |s|
    ensures |r| == |s| - 1
    ensures forall m :: 0 <= m < k ==> r[m] == s[m]
    ensures forall m :: k <= m < |r| ==> r[m] == s[m + 1]
  {
    s[..k] + s[k + 1..]
  }

  /** append(merged); pop(j); pop(i): the pair leaves the list, the others
      keep their order, and the merged cluster goes to the end. */
  function Absorb(es: seq<Entity>, i: nat, j: nat): (r: seq<Entity>)
    requires i < j < |es| && |es[i].shape| > 0 && |es[j].shape| > 0
    ensures |r| == |es| - 1 && r[|r| - 1] == Merged(es[i], es[j])
    ensures forall k :: 0 <= k < i ==> r[k] == es[k]
    ensures forall k :: i <= k < j - 1 ==> r[k] == es[k + 1]
    ensures forall k :: j - 1 <= k < |es| - 2 ==> r[k] == es[k + 2]
  {
    Pop(Pop(es + [Merged(es[i], es[j])], j), i)
  }

  lemma AbsorbWellFormed(es: seq<Entity>, i: nat, j: nat)
    requires AllWellFormed(es) && i < j < |es|
    ensures AllWellFormed(Absorb(es, i, j))
  {
    MergedWellFormed(es[i], es[j]);
  }

  /** The merge pass from cursor i on. When the entity at i is adjacent to a
      later one, the two are merged and the scan restarts at the same i;
      otherwise the cursor advances. */
  function MergeFrom(es: seq<Entity>, i: nat): (r: seq<Entity>)
    requires AllWellFormed(es)
    ensures AllWellFormed(r) && |r| <= |es|
    decreases |es|, |es| - i
  {
    if i >= |es| then es
    else match FirstAdjacent(es, i, i + 1)
      case None => MergeFrom(es, i + 1)
      case Some(j) => AbsorbWellFormed(es, i, j); MergeFrom(Absorb(es, i, j), i)
  }

  /** No entity before position i is adjacent to any entity after it. */
  predicate SettledBefore(es: seq<Entity>, i: nat) {
    forall a, b :: 0 <= a < i && a < b < |es| ==> !CheckAdjacent(es[a], es[b])
  }

  /** No two entities of the list are adjacent. */
  predicate NoneAdjacent(es: seq<Entity>) {
    forall a, b :: 0 <= a < |es| && 0 <= b < |es| && a != b ==> !CheckAdjacent(es[a], es[b])
  }

  /** A merge at i keeps everything before i settled: a cluster is adjacent
      to an entity exactly when one of its two parts is. */
  lemma AbsorbSettled(es: seq<Entity>, i: nat, j: nat)
    requires AllWellFormed(es) && i < j < |es| && SettledBefore(es, i)
    ensures SettledBefore(Absorb(es, i, j), i)
  {
    var r := Absorb(es, i, j);
    forall a, b | 0 <= a < i && a < b < |r| ensures !CheckAdjacent(r[a], r[b]) {
      assert r[a] == es[a];
      if b == |r| - 1 {
        AdjacentToMerged(es[a], es[i], es[j]);
      } else if b < i {
        assert r[b] == es[b];
      } else if b < j - 1 {
        assert r[b] == es[b + 1];
      } else {
        assert r[b] == es[b + 2];
      }
    }
  }

  lemma {:induction false} MergeFromSettles(es: seq<Entity>, i: nat)
    requires AllWellFormed(es) && i <= |es| && SettledBefore(es, i)
    ensures SettledBefore(MergeFrom(es, i), |MergeFrom(es, i)|)
    decreases |es|, |es| - i
  {
    if i < |es| {
      match FirstAdjacent(es, i, i + 1)
      case None =>
        MergeFromSettles(es, i + 1);
      case Some(j) =>
        AbsorbWellFormed(es, i, j);
        AbsorbSettled(es, i, j);
        MergeFromSettles(Absorb(es, i, j), i);
    }
  }

  /** After the merge pass no two entities are adjacent (in either order,
      as adjacency is symmetric). */
  lemma MergePassSeparates(es: seq<Entity>)
    requires AllWellFormed(es)
    ensures NoneAdjacent(MergeFrom(es, 0))
  {
    var r := MergeFrom(es, 0);
    MergeFromSettles(es, 0);
    forall a, b | 0 <= a < |r| && 0 <= b < |r| && a != b ensures !CheckAdjacent(r[a], r[b]) {
      if b < a {
        AdjacentSymmetric(r[a], r[b]);
      }
    }
  }

  /** Some entity of the list covers the arena cell c. */
  ghost predicate Covered(es: seq<Entity>, c: Cell) {
    exists k :: 0 <= k < |es| && Occupies(es[k], c)
  }

  lemma CoveredBy(es: seq<Entity>, k: nat, e: Entity, c: Cell)
    requires k < |es| && es[k] == e && Occupies(e, c)
    ensures Covered(es, c)
  {
  }

  /** Every cell a merge result covers was covered before. */
  lemma AbsorbCoversOld(es: seq<Entity>, i: nat, j: nat, c: Cell)
    requires AllWellFormed(es) && i < j < |es| && Covered(Absorb(es, i, j), c)
    ensures Covered(es, c)
  {
    var r := Absorb(es, i, j);
    var k :| 0 <= k < |r| && Occupies(r[k], c);
    var e := r[k];
    if k == |r| - 1 {
      MergedCellAt(es[i], es[j], c);
      if Occupies(es[i], c) { CoveredBy(es, i, es[i], c); } else { CoveredBy(es, j, es[j], c); }
    } else {
      var m := if k < i then k else if k < j - 1 then k + 1 else k + 2;
      assert es[m] == e;
      CoveredBy(es, m, e, c);
    }
  }

  /** Every cell covered before a merge is covered after it. */
  lemma AbsorbCoversNew(es: seq<Entity>, i: nat, j: nat, c: Cell)
    requires AllWellFormed(es) && i < j < |es| && Covered(es, c)
    ensures Covered(Absorb(es, i, j), c)
  {
    var r := Absorb(es, i, j);
    var k :| 0 <= k < |es| && Occupies(es[k], c);
    var e := es[k];
    if k == i || k == j {
      MergedCellAt(es[i], es[j], c);
      CoveredBy(r, |r| - 1, r[|r| - 1], c);
    } else {
      var m := if k < i then k else if k < j then k - 1 else k - 2;
      assert r[m] == e;
      CoveredBy(r, m, e, c);
    }
  }

  lemma {:induction false} MergeFromCovers(es: seq<Entity>, i: nat, c: Cell)
    requires AllWellFormed(es)
    ensures Covered(MergeFrom(es, i), c) <==> Covered(es, c)
    decreases |es|, |es| - i
  {
    if i < |es| {
      match FirstAdjacent(es, i, i + 1)
      case None =>
        MergeFromCovers(es, i + 1, c);
      case Some(j) =>
        AbsorbWellFormed(es, i, j);
        if Covered(es, c) { AbsorbCoversNew(es, i, j, c); }
        if Covered(Absorb(es, i, j), c) { AbsorbCoversOld(es, i, j, c); }
        MergeFromCovers(Absorb(es, i, j), i, c);
    }
  }

  /** The merge pass neither creates nor loses a covered cell. */
  lemma MergePassCovers(es: seq<Entity>)
    requires AllWellFormed(es)
    ensures forall c :: Covered(MergeFrom(es, 0), c) <==> Covered(es, c)
  {
    forall c: Cell ensures Covered(MergeFrom(es, 0), c) <==> Covered(es, c) {
      MergeFromCovers(es, 0, c);
    }
  }

  // ---------------------------------------------------------------------
  // The line-clear pass

  /** The number of WHITE (cluster) entities in the list. */
  function Whites(es: seq<Entity>): nat {
    if es == [] then 0 else (if es[0].colour == White then 1 else 0) + Whites(es[1..])
  }

  lemma {:induction false} WhitesAppend(a: seq<Entity>, b: seq<Entity>)
    ensures Whites(a + b) == Whites(a) + Whites(b)
    decreases |a|
  {
    if a != [] {
      assert (a + b)[1..] == a[1..] + b;
      WhitesAppend(a[1..], b);
    } else {
      assert a + b == b;
    }
  }

  lemma WhitesAt(es: seq<Entity>, i: nat)
    requires i < |es|
    ensures Whites(es[i..]) == (if es[i].colour == White then 1 else 0) + Whites(es[i + 1..])
  {
    assert es[i..][1..] == es[i + 1..];
  }

  lemma {:induction false} NoWhites(es: seq<Entity>)
    requires forall k :: 0 <= k < |es| ==> es[k].colour != White
    ensures Whites(es) == 0
    decreases |es|
  {
    if es != [] {
      NoWhites(es[1..]);
    }
  }

  /** The tetrominoes re-emitted from a cluster are catalog pieces: well-formed
      and never WHITE. */
  lemma BornFacts(e: Entity, fs: seq<set<Cell>>)
    ensures AllWellFormed(Extracted(e, fs)) && Whites(Extracted(e, fs)) == 0
  {
    var born := Extracted(e, fs);
    CatalogFacts();
    forall j | 0 <= j < |born| ensures WellFormed(born[j].shape) && born[j].colour != White {
      var k := ExtractedSource(e, fs, j);
      FragmentEntityKind(e, fs[k]);
    }
    NoWhites(born);
  }

  /** A residual matrix with a filled cell is well-formed. */
  lemma ResidualWellFormed(s: Shape, fs: seq<set<Cell>>)
    requires HasFilled(Residual(s, fs))
    ensures WellFormed(Residual(s, fs))
  {
  }

  /** The list once the cluster at i has lost its full lines and its
      fragments, when some of it is left: the residue stays in place and the
      re-emitted tetrominoes are appended. */
  ghost function Retained(es: seq<Entity>, i: nat): (r: seq<Entity>)
    requires i < |es| && AllWellFormed(es)
    requires HasFilled(Residual(Cleared(es[i].shape), Fragmentation(Cleared(es[i].shape))))
    ensures |r| >= |es| && AllWellFormed(r) && Whites(r[i + 1..]) == Whites(es[i + 1..])
  {
    var s := Cleared(es[i].shape);
    KeptFacts(es, i, s, Fragmentation(s));
    es[i := es[i].(shape := Residual(s, Fragmentation(s)))] + Extracted(es[i].(shape := s), Fragmentation(s))
  }

  /** The same list when nothing of the cluster is left: it is popped and
      the re-emitted tetrominoes are appended. */
  ghost function Popped(es: seq<Entity>, i: nat): (r: seq<Entity>)
    requires i < |es| && AllWellFormed(es)
    ensures |r| >= i && AllWellFormed(r) && Whites(r[i..]) == Whites(es[i + 1..])
  {
    var s := Cleared(es[i].shape);
    PoppedFacts(es, i, s, Fragmentation(s));
    Pop(es + Extracted(es[i].(shape := s), Fragmentation(s)), i)
  }

  lemma KeptFacts(es: seq<Entity>, i: nat, s: Shape, fs: seq<set<Cell>>)
    requires i < |es| && AllWellFormed(es) && HasFilled(Residual(s, fs))
    ensures var r := es[i := es[i].(shape := Residual(s, fs))] + Extracted(es[i].(shape := s), fs);
            |r| >= |es| && AllWellFormed(r) && Whites(r[i + 1..]) == Whites(es[i + 1..])
  {
    var born := Extracted(es[i].(shape := s), fs);
    BornFacts(es[i].(shape := s), fs);
    WhitesAppend(es[i + 1..], born);
    ResidualWellFormed(s, fs);
    UpdateAppend(es, born, i, es[i].(shape := Residual(s, fs)));
  }

  lemma UpdateAppend(es: seq<Entity>, born: seq<Entity>, i: nat, e: Entity)
    requires i < |es| && AllWellFormed(es) && AllWellFormed(born) && WellFormed(e.shape)
    ensures AllWellFormed(es[i := e] + born) && (es[i := e] + born)[i + 1..] == es[i + 1..] + born
  {
    assert (es[i := e] + born)[i + 1..] == es[i + 1..] + born;
  }

  lemma PoppedFacts(es: seq<Entity>, i: nat, s: Shape, fs: seq<set<Cell>>)
    requires i < |es| && AllWellFormed(es)
    ensures var r := Pop(es + Extracted(es[i].(shape := s), fs), i);
            |r| >= i && AllWellFormed(r) && Whites(r[i..]) == Whites(es[i + 1..])
  {
    var born := Extracted(es[i].(shape := s), fs);
    BornFacts(es[i].(shape := s), fs);
    WhitesAppend(es[i + 1..], born);
    PopAppend(es, born, i);
  }

  /** Popping position i of a list with entities appended: the entities
      after i, then the appended ones, start at i. */
  lemma PopAppend(es: seq<Entity>, born: seq<Entity>, i: nat)
    requires i < |es| && AllWellFormed(es) && AllWellFormed(born)
    ensures |Pop(es + born, i)| >= i && AllWellFormed(Pop(es + born, i))
    ensures Pop(es + born, i)[i..] == es[i + 1..] + born
  {
    var s := es + born;
    assert s[..i] == es[..i];
    assert s[i + 1..] == es[i + 1..] + born;
    assert Pop(s, i)[i..] == s[i + 1..];
  }

  /** What the pass leaves behind: the entities, and the score. */
  datatype PassResult = Finished(es: seq<Entity>, score: int)

  /** One step of the pass: the list, the cursor and the score it goes on
      with. */
  datatype Step = Next(es: seq<Entity>, i: nat, score: int)

  /** The step of the line-clear pass at cursor i. A WHITE entity with a
      full line has its lines cut (scoring 100 each) and is split into
      fragments; the re-emitted tetrominoes are appended to the list, and the
      cluster is removed when nothing of it is left, the cursor then staying
      where it is. A cut of every row leaves a matrix without rows, which has
      no fragments and nothing left, so that cluster is removed too. Any other
      entity is passed over. Every step lowers the number of WHITE entities
      from the cursor on, or keeps it and shortens what is left to visit. */
  ghost function ClearStep(es: seq<Entity>, i: nat, score: int): (m: Step)
    requires i < |es| && AllWellFormed(es)
    ensures m.i <= |m.es| && AllWellFormed(m.es) && m.score >= score
    ensures || Whites(m.es[m.i..]) < Whites(es[i..])
            || (Whites(m.es[m.i..]) == Whites(es[i..]) && |m.es| - m.i < |es| - i)
  {
    WhitesAt(es, i);
    if es[i].colour != White || LinesFound(es[i].shape) == 0 then Next(es, i + 1, score)
    else
      var s := Cleared(es[i].shape);
      var total := score + PointsPerLine * LinesFound(es[i].shape);
      if HasFilled(Residual(s, Fragmentation(s))) then Next(Retained(es, i), i + 1, total)
      else Next(Popped(es, i), i, total)
  }

  /** The line-clear pass from cursor i on: the steps in turn, until the
      cursor reaches the end of the list. The pass always ends, with
      well-formed entities and a score that never drops. */
  ghost function ClearFrom(es: seq<Entity>, i: nat, score: int): (r: PassResult)
    requires i <= |es| && AllWellFormed(es)
    ensures AllWellFormed(r.es) && r.score >= score
    decreases Whites(es[i..]), |es| - i
  {
    if i == |es| then Finished(es, score)
    else
      var m := ClearStep(es, i, score);
      ClearFrom(m.es, m.i, m.score)
  }

  /** The step passes over an entity that is not a cluster with a full
      line. */
  lemma StepSkips(es: seq<Entity>, i: nat, score: int)
    requires i < |es| && AllWellFormed(es)
    requires es[i].colour != White || LinesFound(es[i].shape) == 0
    ensures ClearStep(es, i, score) == Next(es, i + 1, score)
  {
  }

  /** A cluster whose full lines include every row is removed and its
      lines are scored: the empty matrix has no fragments, so nothing is
      re-emitted and the cursor stays where it is. */
  lemma StepEmptied(es: seq<Entity>, i: nat, score: int)
    requires i < |es| && AllWellFormed(es)
    requires es[i].colour == White && LinesFound(es[i].shape) > 0 && Cleared(es[i].shape) == []
    ensures ClearStep(es, i, score) == Next(Pop(es, i), i, score + PointsPerLine * LinesFound(es[i].shape))
  {
    var s := Cleared(es[i].shape);
    assert Fragmentation(s) == [];
    assert Extracted(es[i].(shape := s), Fragmentation(s)) == [];
    assert es + [] == es;
  }

  /** A cluster of three I pieces laid end to end, one row of twelve
      cells: the row is full and no column is, so the cut leaves no row; the
      pass scores 100 and removes the cluster. */
  lemma OneRowClusterCleared(score: int)
    ensures var e := Entity(0, 0, [seq(12, _ => true)], White, 0);
            AllWellFormed([e]) && ClearFrom([e], 0, score) == Finished([], score + PointsPerLine)
  {
    var row := seq(12, _ => true);
    var s := [row];
    var e := Entity(0, 0, s, White, 0);
    CountBounds(row);
    assert Full(row);
    assert FullRows(s) == [0] by {
      assert FullRowsUpTo(s, 0) == [];
    }
    ShortNoFullColumns(s, 12);
    assert Without(s, [0]) == [] by {
      assert Without(s[..0], [0]) == [];
    }
    assert Cleared(s) == [];
    assert WellFormed(s) by {
      HasFilledCell(s, (0, 0));
    }
    StepEmptied([e], 0, score);
    assert Pop([e], 0) == [];
  }

  /** The step at a cluster with a full line of which something is left:
      the cluster stays in place and the cursor moves past it; the
      re-emitted tetrominoes are appended and the score grows by 100 per
      line. */
  lemma StepKeeps(es: seq<Entity>, i: nat, score: int, after: seq<Entity>, total: int)
    requires i < |es| && AllWellFormed(es)
    requires es[i].colour == White && LinesFound(es[i].shape) > 0
    requires HasFilled(Residual(Cleared(es[i].shape), Fragmentation(Cleared(es[i].shape))))
    requires after == Retained(es, i) && total == score + PointsPerLine * LinesFound(es[i].shape)
    ensures ClearStep(es, i, score) == Next(after, i + 1, total)
  {
  }

  /** As StepKeeps, when nothing of the cluster is left: it is popped and
      the cursor stays where it is. */
  lemma StepPops(es: seq<Entity>, i: nat, score: int, after: seq<Entity>, total: int)
    requires i < |es| && AllWellFormed(es)
    requires es[i].colour == White && LinesFound(es[i].shape) > 0
    requires !HasFilled(Residual(Cleared(es[i].shape), Fragmentation(Cleared(es[i].shape))))
    requires after == Popped(es, i) && total == score + PointsPerLine * LinesFound(es[i].shape)
    ensures ClearStep(es, i, score) == Next(after, i, total)
  {
  }

  /** A pass over clusters none of which has a full line changes nothing:
      fragment handling only ever follows a successful cut. */
  lemma {:induction false} ClearFromIdle(es: seq<Entity>, i: nat, score: int)
    requires i <= |es| && AllWellFormed(es)
    requires forall k :: i <= k < |es| && es[k].colour == White ==> LinesFound(es[k].shape) == 0
    ensures ClearFrom(es, i, score) == Finished(es, score)
    decreases |es| - i
  {
    if i < |es| {
      ClearFromIdle(es, i + 1, score);
    }
  }

  // ---------------------------------------------------------------------
  // Collision with the player

  /** The player as the collision test builds it: a one-cell entity at the
      player's truncated grid position. */
  function PlayerEntity(px: int, py: int, c: Colour): (p: Entity)
    ensures forall q :: Occupies(p, q) <==> q == (CellOf(px), CellOf(py))
  {
    Entity(CellOf(px), CellOf(py), [[true]], c, 0)
  }

  /** Some entity is adjacent to the player. */
  predicate Collision(es: seq<Entity>, p: Entity) {
    exists k :: 0 <= k < |es| && CheckAdjacent(es[k], p)
  }

  /** The game ends exactly when some entity covers a cell orthogonally next
      to the player's cell. An entity covering the player's own cell does not
      count. */
  lemma CollisionSpec(es: seq<Entity>, px: int, py: int, c: Colour)
    ensures Collision(es, PlayerEntity(px, py, c)) <==>
              exists k, q :: 0 <= k < |es| && Occupies(es[k], q) && Touch(q, (CellOf(px), CellOf(py)))
  {
    var p := PlayerEntity(px, py, c);
    var at := (CellOf(px), CellOf(py));
    if Collision(es, p) {
      var k :| 0 <= k < |es| && CheckAdjacent(es[k], p);
      AdjacentSpec(es[k], p);
      var q, r :| Occupies(es[k], q) && Occupies(p, r) && Touch(q, r);
      assert r == at;
    }
    if exists k, q :: 0 <= k < |es| && Occupies(es[k], q) && Touch(q, at) {
      var k, q :| 0 <= k < |es| && Occupies(es[k], q) && Touch(q, at);
      assert Occupies(p, at);
      AdjacentSpec(es[k], p);
    }
  }

  // ---------------------------------------------------------------------
  // Spawning

  /** The random choices of spawn_tetromino, taken as input: the offset
      (int(cos(angle) * 20), int(sin(angle) * 20)) from the player, the
      catalog entry, and the number of quarter turns. */
  datatype Spawn = Spawn(dx: int, dy: int, kind: nat, turns: nat)

  /** The spawned tetromino: the catalog entry's shape and colour, turned,
      at the player's position plus the offset, truncated to a cell. */
  function Spawned(px: int, py: int, sp: Spawn): (e: Entity)
    requires sp.kind < CatalogSize
    ensures WellFormed(e.shape) && e.colour == Colours[sp.kind] && e.colour != White && e.cooldown == 0
    ensures sp.turns % 4 == 0 ==> e.shape == Shapes[sp.kind]
  {
    CatalogFacts();
    RotatedNWellFormed(Shapes[sp.kind], sp.turns);
    FullTurns(Shapes[sp.kind], sp.turns);
    Entity(CellOf(px + Tenths * sp.dx), CellOf(py + Tenths * sp.dy),
           RotatedN(Shapes[sp.kind], sp.turns), Colours[sp.kind], 0)
  }

  /** A whole number of full turns gives the shape back. */
  lemma {:induction false} FullTurns(s: Shape, n: nat)
    requires WellFormed(s)
    ensures n % 4 == 0 ==> RotatedN(s, n) == s
  {
    if n >= 4 && n % 4 == 0 {
      assert (n - 4) % 4 == 0;
      FullTurns(s, n - 4);
      var r := RotatedN(s, n - 4);
      assert r == s;
      TurnsUnfold(s, n);
      assert RotatedN(s, n) == Rotated(Rotated(Rotated(Rotated(r))));
      HalfTurnTwice(s);
    }
  }

  lemma TurnsUnfold(s: Shape, n: nat)
    requires IsGrid(s) && n >= 4
    ensures RotatedN(s, n) == Rotated(Rotated(Rotated(Rotated(RotatedN(s, n - 4)))))
  {
    assert RotatedN(s, n - 1) == Rotated(RotatedN(s, n - 2));
    assert RotatedN(s, n - 2) == Rotated(RotatedN(s, n - 3));
    assert RotatedN(s, n - 3) == Rotated(RotatedN(s, n - 4));
  }
}

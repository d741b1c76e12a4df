/** The game state of main() and one iteration of its loop: the event loop,
    the stamina timers, the player's move, the difficulty and spawn schedule,
    the movement, merge and line-clear passes over the live tetrominoes, and
    the collision test. Drawing and the frame clock are not part of it. */
module Arena {
  import opened Grid
  import opened Catalog
  import opened Pieces
  import opened Lines
  import opened Fragments
  import opened Controls
  import opened Passes

  /** What one tick reads from outside: the pygame events, the movement keys
      held, and the random choices a spawn would make. */
  datatype Input = Input(events: seq<Event>, pressed: set<Key>, spawn: Spawn)

  /** The values of the globals of the game (and main's spawn counter). */
  datatype WorldState = WorldState(
    px: int, py: int, colour: Colour, es: seq<Entity>, gameOver: bool, score: int,
    spawnRate: int, gameTime: int, movement: map<Key, int>, cooldown: map<Key, int>,
    spawnCounter: int)

  /** How one tick ends: the window was closed, or the game went on to the
      given state. */
  datatype Outcome = Quitted | Played(next: WorldState)

  /** Both timer maps hold every movement key, in the range a tick leaves. */
  predicate GatesOk(movement: map<Key, int>, cooldown: map<Key, int>) {
    forall k: Key :: k in movement && k in cooldown && GateOk(Gate(movement[k], cooldown[k]))
  }

  /** The position of a key in the timer loop's order. */
  function KeyIndex(k: Key): (n: nat)
    ensures n < |Keys| && Keys[n] == k
  {
    match k
    case W => 0
    case A => 1
    case S => 2
    case D => 3
  }

  lemma KeyIndexAt(n: nat)
    requires n < |Keys|
    ensures KeyIndex(Keys[n]) == n
  {
    if n == 0 {
      assert Keys[0] == W;
    } else if n == 1 {
      assert Keys[1] == A;
    } else if n == 2 {
      assert Keys[2] == S;
    } else {
      assert Keys[3] == D;
    }
  }

  /** The timer update of one tick, key by key. */
  function Stepped(movement: map<Key, int>, cooldown: map<Key, int>, pressed: set<Key>): (r: (map<Key, int>, map<Key, int>))
    requires forall k: Key :: k in movement && k in cooldown
    ensures forall k: Key :: k in r.0 && k in r.1 &&
              Gate(r.0[k], r.1[k]) == GateStep(Gate(movement[k], cooldown[k]), k in pressed)
    ensures GatesOk(movement, cooldown) ==> GatesOk(r.0, r.1)
  {
    (map k | k in movement :: GateStep(Gate(movement[k], cooldown[k]), k in pressed).held,
     map k | k in cooldown :: GateStep(Gate(movement[k], cooldown[k]), k in pressed).cooldown)
  }

  /** The timer maps (m, c) once the loop has updated the first n keys of
      (m0, c0). */
  predicate TimersUpTo(m: map<Key, int>, c: map<Key, int>, m0: map<Key, int>, c0: map<Key, int>, pressed: set<Key>, n: nat) {
    && m.Keys == m0.Keys && c.Keys == c0.Keys
    && (forall k: Key :: k in m0 && k in c0)
    && forall k: Key :: Gate(m[k], c[k]) ==
         if KeyIndex(k) < n then GateStep(Gate(m0[k], c0[k]), k in pressed) else Gate(m0[k], c0[k])
  }

  lemma TimersStep(m: map<Key, int>, c: map<Key, int>, m0: map<Key, int>, c0: map<Key, int>, pressed: set<Key>, n: nat)
    requires n < |Keys| && TimersUpTo(m, c, m0, c0, pressed, n)
    ensures Keys[n] in m && Keys[n] in c
    ensures var key := Keys[n];
            var g := GateStep(Gate(m[key], c[key]), key in pressed);
            TimersUpTo(m[key := g.held], c[key := g.cooldown], m0, c0, pressed, n + 1)
  {
    var key := Keys[n];
    KeyIndexAt(n);
    var g := GateStep(Gate(m[key], c[key]), key in pressed);
    var m', c' := m[key := g.held], c[key := g.cooldown];
    forall k: Key
      ensures Gate(m'[k], c'[k]) ==
              if KeyIndex(k) < n + 1 then GateStep(Gate(m0[k], c0[k]), k in pressed) else Gate(m0[k], c0[k])
    {
      if k != key {
        assert Gate(m'[k], c'[k]) == Gate(m[k], c[k]);
        assert KeyIndex(k) != n;
      }
    }
  }

  lemma TimersDone(m: map<Key, int>, c: map<Key, int>, m0: map<Key, int>, c0: map<Key, int>, pressed: set<Key>)
    requires TimersUpTo(m, c, m0, c0, pressed, |Keys|)
    ensures (m, c) == Stepped(m0, c0, pressed)
  {
    var r := Stepped(m0, c0, pressed);
    assert m == r.0;
    assert c == r.1;
  }

  /** What every state between two ticks satisfies. */
  ghost predicate StateOk(w: WorldState) {
    && w.colour in Colours
    && GatesOk(w.movement, w.cooldown)
    && AllWellFormed(w.es)
    && w.gameTime >= 0 && w.spawnRate == RateAt(w.gameTime)
    && 0 <= w.spawnCounter < w.spawnRate
  }

  /** The timer maps at start-up: every key at zero. */
  function Zeroes(): (m: map<Key, int>)
    ensures forall k: Key :: k in m && m[k] == 0
  {
    KeysCovered(map[W := 0, A := 0, S := 0, D := 0]);
    map[W := 0, A := 0, S := 0, D := 0]
  }

  lemma KeysCovered<V>(m: map<Key, V>)
    requires W in m && A in m && S in m && D in m
    ensures forall k: Key :: k in m
  {
    forall k: Key ensures k in m {
      match k
      case W =>
      case A =>
      case S =>
      case D =>
    }
  }

  /** The state the game starts in. */
  function Initial(): (w: WorldState)
    ensures StateOk(w)
  {
    WorldState(0, 0, Cyan, [], false, 0, InitialSpawnRate, 0, Zeroes(), Zeroes(), 0)
  }

  /** One iteration of the main loop: the event loop; then, unless the
      window was closed, the timers, the player's move, the difficulty and
      spawn schedule, and the passes over the tetrominoes. */
  ghost function Ticked(w: WorldState, input: Input): (r: Outcome)
    requires StateOk(w) && input.spawn.kind < CatalogSize
    ensures r.Quitted? <==> Quit in input.events
    ensures r.Played? ==> StateOk(r.next)
    ensures r.Played? ==> r.next.gameTime == w.gameTime + 1 && r.next.score >= w.score
  {
    var (colour, quit) := ApplyEvents(w.colour, input.events);
    if quit then Quitted else Played(Advanced(w.(colour := colour), input.pressed, input.spawn))
  }

  /** The part of a tick that depends only on the input: the timers, the
      player's move (with the updated cooldowns), the difficulty step, and
      the spawn step (at the moved player's position). */
  function Prepared(w: WorldState, pressed: set<Key>, sp: Spawn): (r: WorldState)
    requires StateOk(w) && sp.kind < CatalogSize
    ensures StateOk(r)
    ensures r.gameTime == w.gameTime + 1
    ensures r.colour == w.colour && r.score == w.score && r.gameOver == w.gameOver
    ensures |r.es| == |w.es| + (if w.spawnCounter + 1 >= r.spawnRate then 1 else 0)
    ensures r.es[..|w.es|] == w.es
  {
    PreparedOk(w, pressed, sp);
    var r := SpawnedIn(Steered(w, pressed), sp);
    assert r.es[..|w.es|] == w.es;
    r
  }

  /** The bookkeeping keeps what every state between two ticks satisfies:
      the spawn interval follows the game time, and the counter stays below
      it although it shrinks. */
  lemma PreparedOk(w: WorldState, pressed: set<Key>, sp: Spawn)
    requires StateOk(w) && sp.kind < CatalogSize
    ensures StateOk(SpawnedIn(Steered(w, pressed), sp))
  {
    var s := Steered(w, pressed);
    RateAtClosed(w.gameTime);
    SpawnTickBounded(w.spawnCounter, w.spawnRate, s.gameTime);
    SpawnKeepsWellFormed(w.es, Spawned(s.px, s.py, sp));
    assert s.spawnRate == RateAt(s.gameTime);
  }

  /** The timer loop, the player's move (with the updated cooldowns) and
      the difficulty step. */
  function Steered(w: WorldState, pressed: set<Key>): (r: WorldState)
    requires GatesOk(w.movement, w.cooldown)
    ensures GatesOk(r.movement, r.cooldown)
    ensures r.gameTime == w.gameTime + 1 && r.spawnRate == NextSpawnRate(w.spawnRate, r.gameTime)
    ensures r.es == w.es && r.spawnCounter == w.spawnCounter
    ensures r.colour == w.colour && r.score == w.score && r.gameOver == w.gameOver
  {
    Harder(PlayerStepped(TimersTicked(w, pressed), pressed))
  }

  /** The timer loop over every key. */
  function TimersTicked(w: WorldState, pressed: set<Key>): (r: WorldState)
    requires forall k: Key :: k in w.movement && k in w.cooldown
    ensures GatesOk(w.movement, w.cooldown) ==> GatesOk(r.movement, r.cooldown)
  {
    var timers := Stepped(w.movement, w.cooldown, pressed);
    w.(movement := timers.0, cooldown := timers.1)
  }

  /** The player's move, with the cooldowns of this tick. */
  function PlayerStepped(w: WorldState, pressed: set<Key>): (r: WorldState)
    requires forall k: Key :: k in w.cooldown
  {
    var moved := PlayerMoved(w.px, w.py, pressed, w.cooldown);
    w.(px := moved.0, py := moved.1)
  }

  /** The difficulty step. */
  function Harder(w: WorldState): (r: WorldState) {
    w.(gameTime := w.gameTime + 1, spawnRate := NextSpawnRate(w.spawnRate, w.gameTime + 1))
  }

  /** The spawn step, at the player's position. */
  function SpawnedIn(w: WorldState, sp: Spawn): (r: WorldState)
    requires sp.kind < CatalogSize
  {
    var (counter, spawn) := SpawnTick(w.spawnCounter, w.spawnRate);
    w.(es := if spawn then w.es + [Spawned(w.px, w.py, sp)] else w.es, spawnCounter := counter)
  }

  /** The passes over the tetrominoes of a prepared state: movement,
      merging, line clearing, and the collision test. They keep what every
      state between two ticks satisfies, leave the clock alone and never
      lower the score. */
  ghost function Swept(p: WorldState): (r: WorldState)
    requires StateOk(p)
    ensures StateOk(r)
    ensures r.gameTime == p.gameTime && r.score >= p.score
  {
    var es := MergeFrom(MovedAll(p.es, p.px, p.py, p.colour), 0);
    Finish(p.(es := es), ClearFrom(es, 0, p.score))
  }

  /** The state after the line pass, and the collision test against the
      player, which sets game_over. */
  ghost function Finish(p: WorldState, r: PassResult): (q: WorldState)
  {
    var over := p.gameOver || Collision(r.es, PlayerEntity(p.px, p.py, p.colour));
    p.(es := r.es, score := r.score, gameOver := over)
  }

  /** A tick after the event loop: the bookkeeping, then the passes. */
  ghost function Advanced(w: WorldState, pressed: set<Key>, sp: Spawn): (r: WorldState)
    requires StateOk(w) && sp.kind < CatalogSize
    ensures StateOk(r)
    ensures r.gameTime == w.gameTime + 1 && r.score >= w.score
  {
    Swept(Prepared(w, pressed, sp))
  }

  lemma SpawnKeepsWellFormed(es: seq<Entity>, e: Entity)
    requires AllWellFormed(es) && WellFormed(e.shape)
    ensures AllWellFormed(es + [e])
  {
  }

  lemma ValsPop(ts: seq<Tetromino>, k: nat)
    requires k < |ts|
    ensures Vals(Pop(ts, k)) == Pop(Vals(ts), k)
  {
  }

  lemma ValsOne(t: Tetromino)
    ensures Vals([t]) == [t.Value()]
  {
  }

  /** spawn_tetromino: a random catalog piece (its shape and colour), placed
      at the player's position plus the offset and truncated to a cell, then
      turned a random number of quarter turns. */
  method SpawnTetromino(px: int, py: int, sp: Spawn) returns (t: Tetromino)
    requires sp.kind < CatalogSize
    ensures fresh(t) && t.Value() == Spawned(px, py, sp)
  {
    CatalogFacts();
    t := new Tetromino(CellOf(px + Tenths * sp.dx), CellOf(py + Tenths * sp.dy), Shapes[sp.kind], Colours[sp.kind]);
    t.Rotate(sp.turns);
  }

  class World {
    var playerX: int
    var playerY: int
    var playerColour: Colour
    var tetrominoes: seq<Tetromino>
    var gameOver: bool
    var score: int
    var spawnRate: int
    var gameTime: int
    var movementTimers: map<Key, int>
    var cooldownTimers: map<Key, int>
    var spawnCounter: int

    ghost function State(): WorldState
      reads this, tetrominoes
    {
      WorldState(playerX, playerY, playerColour, Vals(tetrominoes), gameOver, score,
                 spawnRate, gameTime, movementTimers, cooldownTimers, spawnCounter)
    }

    ghost predicate Valid()
      reads this, tetrominoes
    {
      StateOk(State()) && Distinct(tetrominoes)
    }

    /** The globals at start-up, and main's spawn_counter = 0. */
    constructor ()
      ensures Valid() && State() == Initial()
    {
      playerX, playerY, playerColour := 0, 0, Cyan;
      tetrominoes, gameOver, score := [], false, 0;
      spawnRate, gameTime := InitialSpawnRate, 0;
      movementTimers := Zeroes();
      cooldownTimers := Zeroes();
      spawnCounter := 0;
    }

    /** The event loop: Q and E cycle the player's colour; a quit event
        returns at once. */
    method HandleEvents(events: seq<Event>) returns (quit: bool)
      requires playerColour in Colours
      modifies this`playerColour
      ensures (playerColour, quit) == ApplyEvents(old(playerColour), events)
    {
      quit := false;
      var i := 0;
      while i < |events|
        invariant 0 <= i <= |events| && playerColour in Colours
        invariant ApplyEvents(old(playerColour), events) == ApplyEvents(playerColour, events[i..])
      {
        assert events[i..][1..] == events[i + 1..];
        match events[i] {
          case Quit =>
            quit := true;
            return;
          case CycleBack =>
            playerColour := Colours[(IndexOf(playerColour) - 1) % CatalogSize];
          case CycleForward =>
            playerColour := Colours[(IndexOf(playerColour) + 1) % CatalogSize];
        }
        i := i + 1;
      }
    }

    /** The body of the timer loop for one key. */
    method UpdateKey(key: Key, pressed: bool)
      requires key in movementTimers && key in cooldownTimers
      modifies this`movementTimers, this`cooldownTimers
      ensures var g := GateStep(Gate(old(movementTimers)[key], old(cooldownTimers)[key]), pressed);
              && movementTimers == old(movementTimers)[key := g.held]
              && cooldownTimers == old(cooldownTimers)[key := g.cooldown]
    {
      if pressed && cooldownTimers[key] == 0 {
        movementTimers := movementTimers[key := movementTimers[key] + HalfTicks];
        if movementTimers[key] >= MaxHalves {
          cooldownTimers := cooldownTimers[key := CooldownTime];
          movementTimers := movementTimers[key := 0];
        }
      } else {
        movementTimers := movementTimers[key := Max(0, movementTimers[key] - 1)];
      }
      if cooldownTimers[key] > 0 {
        cooldownTimers := cooldownTimers[key := cooldownTimers[key] - 1];
      }
    }

    /** The timer loop over W, A, S, D. */
    method UpdateTimers(pressed: set<Key>)
      requires forall k: Key :: k in movementTimers && k in cooldownTimers
      modifies this`movementTimers, this`cooldownTimers
      ensures (movementTimers, cooldownTimers) == Stepped(old(movementTimers), old(cooldownTimers), pressed)
      ensures State() == TimersTicked(old(State()), pressed)
    {
      for n := 0 to |Keys|
        invariant TimersUpTo(movementTimers, cooldownTimers, old(movementTimers), old(cooldownTimers), pressed, n)
      {
        TimersStep(movementTimers, cooldownTimers, old(movementTimers), old(cooldownTimers), pressed, n);
        UpdateKey(Keys[n], Keys[n] in pressed);
      }
      TimersDone(movementTimers, cooldownTimers, old(movementTimers), old(cooldownTimers), pressed);
    }

    /** The player's move, one key after the other. */
    method MovePlayer(pressed: set<Key>)
      requires forall k: Key :: k in cooldownTimers
      modifies this`playerX, this`playerY
      ensures State() == PlayerStepped(old(State()), pressed)
    {
      var x, y := playerX, playerY;
      if W in pressed && cooldownTimers[W] == 0 {
        y := y - PlayerSpeed;
      }
      if S in pressed && cooldownTimers[S] == 0 {
        y := y + PlayerSpeed;
      }
      if A in pressed && cooldownTimers[A] == 0 {
        x := x - PlayerSpeed;
      }
      if D in pressed && cooldownTimers[D] == 0 {
        x := x + PlayerSpeed;
      }
      playerX, playerY := x, y;
    }

    /** The difficulty step. */
    method IncreaseDifficulty()
      modifies this`gameTime, this`spawnRate
      ensures State() == Harder(old(State()))
    {
      gameTime := gameTime + 1;
      if gameTime % DifficultyInterval == 0 {
        spawnRate := Max(MinSpawnRate, spawnRate - 1);
      }
    }

    /** The spawn step: count the tick, and on reaching the interval append
        a new tetromino near the player and restart the count. */
    method SpawnStep(sp: Spawn)
      requires sp.kind < CatalogSize && Distinct(tetrominoes)
      modifies this`spawnCounter, this`tetrominoes
      ensures State() == SpawnedIn(old(State()), sp)
      ensures Distinct(tetrominoes)
      ensures forall k :: 0 <= k < |tetrominoes| ==> tetrominoes[k] in old(tetrominoes) || fresh(tetrominoes[k])
    {
      var counter := spawnCounter + 1;
      if counter >= spawnRate {
        ghost var vs := Vals(tetrominoes);
        var t := SpawnTetromino(playerX, playerY, sp);
        assert Vals(tetrominoes) == vs;
        ValsAppend(tetrominoes, [t]);
        ValsOne(t);
        tetrominoes, spawnCounter := tetrominoes + [t], 0;
        assert Vals(tetrominoes) == vs + [Spawned(playerX, playerY, sp)];
      } else {
        spawnCounter := counter;
      }
    }

    /** The movement loop: an entity of the player's colour is repelled,
        every other one moves towards the player. */
    method MoveAll()
      requires Distinct(tetrominoes)
      modifies tetrominoes
      ensures Vals(tetrominoes) == MovedAll(old(Vals(tetrominoes)), playerX, playerY, playerColour)
    {
      for n := 0 to |tetrominoes|
        invariant forall k :: 0 <= k < n ==>
                    tetrominoes[k].Value() == MoveOne(old(tetrominoes[k].Value()), playerX, playerY, playerColour)
        invariant forall k :: n <= k < |tetrominoes| ==> tetrominoes[k].Value() == old(tetrominoes[k].Value())
      {
        var t := tetrominoes[n];
        if t.colour == playerColour {
          t.Repel(playerX, playerY);
        } else {
          t.MoveTowardsPlayer(playerX, playerY);
        }
      }
    }

    /** The inner loop of the merge pass for cursor i: scan j > i for the
        first entity adjacent to the one at i; if there is one, append the
        merge of the two, pop j, pop i, and stop. */
    method MergeFirst(i: nat) returns (merged: bool)
      requires i < |tetrominoes| && AllWellFormed(Vals(tetrominoes)) && Distinct(tetrominoes)
      modifies this`tetrominoes
      ensures var vs := old(Vals(tetrominoes));
              match FirstAdjacent(vs, i, i + 1)
              case None => !merged && tetrominoes == old(tetrominoes)
              case Some(j) => merged && Vals(tetrominoes) == Absorb(vs, i, j)
      ensures Distinct(tetrominoes)
      ensures forall t :: t in tetrominoes ==> t in old(tetrominoes) || fresh(t)
    {
      ghost var vs := Vals(tetrominoes);
      var found := FindAdjacent(i);
      assert Vals(tetrominoes) == vs;
      merged := found.Some?;
      if merged {
        MergePair(i, found.value);
      }
    }

    /** The scan of the inner loop: the first j > i whose entity is adjacent
        to the one at i, if any. */
    method FindAdjacent(i: nat) returns (found: Option<nat>)
      requires i < |tetrominoes|
      ensures found == FirstAdjacent(Vals(tetrominoes), i, i + 1)
    {
      ghost var vs := Vals(tetrominoes);
      var j := i + 1;
      while j < |tetrominoes|
        invariant i + 1 <= j <= |tetrominoes|
        invariant FirstAdjacent(vs, i, i + 1) == FirstAdjacent(vs, i, j)
        decreases |tetrominoes| - j
      {
        if CheckAdjacent(tetrominoes[i].Value(), tetrominoes[j].Value()) {
          return Some(j);
        }
        j := j + 1;
      }
      return None;
    }

    /** append(merge_tetrominoes(i, j)); pop(j); pop(i). */
    method MergePair(i: nat, j: nat)
      requires i < j < |tetrominoes| && AllWellFormed(Vals(tetrominoes)) && Distinct(tetrominoes)
      modifies this`tetrominoes
      ensures Vals(tetrominoes) == Absorb(old(Vals(tetrominoes)), i, j)
      ensures Distinct(tetrominoes)
      ensures forall t :: t in tetrominoes ==> t in old(tetrominoes) || fresh(t)
    {
      ghost var before, vs := tetrominoes, Vals(tetrominoes);
      var m := MergeTetrominoes(tetrominoes[i], tetrominoes[j]);
      assert Vals(before) == vs;
      assert m.Value() == Merged(vs[i], vs[j]);
      assert m !in before;
      tetrominoes := Pop(Pop(tetrominoes + [m], j), i);
      AbsorbVals(before, m, i, j, vs);
      AbsorbDistinct(before, m, i, j);
    }

    /** The merge pass: on the first adjacent pair (i, j > i) the two are
        merged and the scan restarts from the same i; otherwise i advances. */
    method MergePass()
      requires AllWellFormed(Vals(tetrominoes)) && Distinct(tetrominoes)
      modifies this`tetrominoes
      ensures Vals(tetrominoes) == MergeFrom(old(Vals(tetrominoes)), 0)
      ensures Distinct(tetrominoes)
      ensures forall t :: t in tetrominoes ==> t in old(tetrominoes) || fresh(t)
    {
      var i: nat := 0;
      while i < |tetrominoes|
        invariant i <= |tetrominoes|
        invariant AllWellFormed(Vals(tetrominoes)) && Distinct(tetrominoes)
        invariant forall t :: t in tetrominoes ==> t in old(tetrominoes) || fresh(t)
        invariant MergeFrom(Vals(tetrominoes), i) == MergeFrom(old(Vals(tetrominoes)), 0)
        decreases |tetrominoes|, |tetrominoes| - i
      {
        i := MergeAt(i);
      }
    }

    /** One step of the merge pass at cursor i: the cursor stays after a
        merge and advances otherwise. */
    method MergeAt(i: nat) returns (next: nat)
      requires i < |tetrominoes| && AllWellFormed(Vals(tetrominoes)) && Distinct(tetrominoes)
      modifies this`tetrominoes
      ensures next <= |tetrominoes| && AllWellFormed(Vals(tetrominoes)) && Distinct(tetrominoes)
      ensures MergeFrom(Vals(tetrominoes), next) == MergeFrom(old(Vals(tetrominoes)), i)
      ensures |tetrominoes| < old(|tetrominoes|) || (|tetrominoes| == old(|tetrominoes|) && next == i + 1)
      ensures forall t :: t in tetrominoes ==> t in old(tetrominoes) || fresh(t)
    {
      ghost var vs := Vals(tetrominoes);
      MergeFromStep(vs, i);
      var merged := MergeFirst(i);
      next := if merged then i else i + 1;
    }

    /** One step of the line-clear pass at cursor i: a WHITE cluster with
        full lines loses them and is split; any other entity is passed
        over. */
    method ClearAt(i: nat) returns (next: nat)
      requires i < |tetrominoes| && AllWellFormed(Vals(tetrominoes)) && Distinct(tetrominoes)
      modifies this`tetrominoes, this`score, tetrominoes[i]
      ensures ClearStep(old(Vals(tetrominoes)), i, old(score)) == Next(Vals(tetrominoes), next, score)
      ensures Distinct(tetrominoes)
      ensures forall t :: t in tetrominoes ==> t in old(tetrominoes) || fresh(t)
    {
      ghost var vs, before, score0 := Vals(tetrominoes), tetrominoes, score;
      next := i + 1;
      var t := tetrominoes[i];
      if t.colour == White {
        var destroyed, newScore := CheckAndDestroyLines(t, score);
        score := newScore;
        CutVals(before, vs, i, t);
        if destroyed {
          next := SplitAt(i, vs, score0);
        } else {
          StepSkips(vs, i, score0);
        }
      } else {
        StepSkips(vs, i, score0);
      }
    }

    /** The rest of the step once the cluster at i has lost its full lines
        (the score already counts them): handle_fragments; the re-emitted
        tetrominoes join the list; a cluster with nothing left (also one that
        lost every row) is popped and the cursor stays, otherwise it
        advances. */
    method SplitAt(i: nat, ghost vs: seq<Entity>, ghost score0: int) returns (next: nat)
      requires i < |tetrominoes| == |vs| && AllWellFormed(vs) && Distinct(tetrominoes)
      requires vs[i].colour == White && LinesFound(vs[i].shape) > 0
      requires Vals(tetrominoes) == vs[i := vs[i].(shape := Cleared(vs[i].shape))]
      requires score == score0 + PointsPerLine * LinesFound(vs[i].shape)
      modifies this`tetrominoes, tetrominoes[i]
      ensures ClearStep(vs, i, score0) == Next(Vals(tetrominoes), next, score)
      ensures Distinct(tetrominoes)
      ensures forall t :: t in tetrominoes ==> t in old(tetrominoes) || fresh(t)
    {
      ghost var before := tetrominoes;
      var t := tetrominoes[i];
      ghost var s := Cleared(vs[i].shape);
      ClearedDims(vs[i].shape);
      assert IsGrid(t.shape);
      assert t.Value() == vs[i].(shape := s);
      var born, fragments := HandleFragments(t);
      assert t.Value() == vs[i].(shape := t.shape);
      CutVals(before, vs, i, t);
      ValsAppend(before, born);
      tetrominoes := tetrominoes + born;
      assert Vals(tetrominoes) == vs[i := vs[i].(shape := Residual(s, fragments))] + Extracted(vs[i].(shape := s), fragments);
      AppendDistinct(before, born);
      next := Regroup(i, vs, score0, s, fragments);
    }

    /** The end of the step: a cluster with nothing left is popped and the
        cursor stays on the entity that slid into its place; otherwise the
        cursor advances. */
    method Regroup(i: nat, ghost vs: seq<Entity>, ghost score0: int, ghost s: Shape, ghost fs: seq<set<Cell>>)
      returns (next: nat)
      requires i < |vs| && AllWellFormed(vs) && Distinct(tetrominoes)
      requires vs[i].colour == White && LinesFound(vs[i].shape) > 0
      requires s == Cleared(vs[i].shape) && fs == Fragmentation(s)
      requires Vals(tetrominoes) == vs[i := vs[i].(shape := Residual(s, fs))] + Extracted(vs[i].(shape := s), fs)
      requires score == score0 + PointsPerLine * LinesFound(vs[i].shape)
      modifies this`tetrominoes
      ensures ClearStep(vs, i, score0) == Next(Vals(tetrominoes), next, score)
      ensures Distinct(tetrominoes)
      ensures forall t :: t in tetrominoes ==> t in old(tetrominoes)
    {
      var t := tetrominoes[i];
      assert t.Value() == Vals(tetrominoes)[i];
      if !HasFilled(t.shape) {
        DropAt(i, vs, score0, s, fs);
        next := i;
      } else {
        StepKeeps(vs, i, score0, Vals(tetrominoes), score);
        next := i + 1;
      }
    }

    /** tetrominoes.pop(i) for a cluster with nothing left. */
    method DropAt(i: nat, ghost vs: seq<Entity>, ghost score0: int, ghost s: Shape, ghost fs: seq<set<Cell>>)
      requires i < |vs| && AllWellFormed(vs) && Distinct(tetrominoes)
      requires vs[i].colour == White && LinesFound(vs[i].shape) > 0
      requires s == Cleared(vs[i].shape) && fs == Fragmentation(s) && !HasFilled(Residual(s, fs))
      requires Vals(tetrominoes) == vs[i := vs[i].(shape := Residual(s, fs))] + Extracted(vs[i].(shape := s), fs)
      requires score == score0 + PointsPerLine * LinesFound(vs[i].shape)
      modifies this`tetrominoes
      ensures ClearStep(vs, i, score0) == Next(Vals(tetrominoes), i, score)
      ensures Distinct(tetrominoes)
      ensures forall t :: t in tetrominoes ==> t in old(tetrominoes)
    {
      ghost var ts := tetrominoes;
      tetrominoes := Pop(tetrominoes, i);
      ValsPop(ts, i);
      PopDistinct(ts, i);
      PoppedUpdate(vs, Extracted(vs[i].(shape := s), fs), i, vs[i].(shape := Residual(s, fs)));
      StepPops(vs, i, score0, Vals(tetrominoes), score);
    }

    /** The line-clear pass over the whole list. */
    method LinePass()
      requires AllWellFormed(Vals(tetrominoes)) && Distinct(tetrominoes)
      modifies this`tetrominoes, this`score, tetrominoes
      ensures var r := ClearFrom(old(Vals(tetrominoes)), 0, old(score));
              Vals(tetrominoes) == r.es && score == r.score
      ensures Distinct(tetrominoes)
      ensures forall t :: t in tetrominoes ==> t in old(tetrominoes) || fresh(t)
    {
      var i: nat := 0;
      while i < |tetrominoes|
        invariant i <= |tetrominoes|
        invariant AllWellFormed(Vals(tetrominoes)) && Distinct(tetrominoes)
        invariant forall t :: t in tetrominoes ==> t in old(tetrominoes) || fresh(t)
        invariant ClearFrom(Vals(tetrominoes), i, score) == ClearFrom(old(Vals(tetrominoes)), 0, old(score))
        decreases Whites(Vals(tetrominoes)[i..]), |tetrominoes| - i
      {
        assert tetrominoes[i] in tetrominoes;
        i := ClearAt(i);
      }
    }

    /** The collision test against a one-cell entity at the player's cell. */
    method PlayerHit() returns (hit: bool)
      ensures hit <==> Collision(Vals(tetrominoes), PlayerEntity(playerX, playerY, playerColour))
    {
      var p := PlayerEntity(playerX, playerY, playerColour);
      hit := false;
      for n := 0 to |tetrominoes|
        invariant forall k :: 0 <= k < n ==> !CheckAdjacent(tetrominoes[k].Value(), p)
      {
        if CheckAdjacent(tetrominoes[n].Value(), p) {
          hit := true;
          break;
        }
      }
    }

    /** The timer loop, the player's move and the difficulty step. */
    method Steer(pressed: set<Key>)
      requires GatesOk(movementTimers, cooldownTimers)
      modifies this`movementTimers, this`cooldownTimers, this`playerX, this`playerY, this`gameTime, this`spawnRate
      ensures State() == Steered(old(State()), pressed)
    {
      UpdateTimers(pressed);
      MovePlayer(pressed);
      IncreaseDifficulty();
    }

    /** The bookkeeping before the passes: the timer loop, the player's
        move, the difficulty step and the spawn step. */
    method Prepare(pressed: set<Key>, sp: Spawn)
      requires Valid() && sp.kind < CatalogSize
      modifies this`movementTimers, this`cooldownTimers, this`playerX, this`playerY
      modifies this`gameTime, this`spawnRate, this`spawnCounter, this`tetrominoes
      ensures State() == Prepared(old(State()), pressed, sp) && Distinct(tetrominoes)
      ensures forall k :: 0 <= k < |tetrominoes| ==> tetrominoes[k] in old(tetrominoes) || fresh(tetrominoes[k])
    {
      Steer(pressed);
      SpawnStep(sp);
    }

    /** The movement loop followed by the merge pass. */
    method Shuffle()
      requires AllWellFormed(Vals(tetrominoes)) && Distinct(tetrominoes)
      modifies this`tetrominoes, tetrominoes
      ensures State() == old(State()).(es := MergeFrom(MovedAll(old(Vals(tetrominoes)), playerX, playerY, playerColour), 0))
      ensures Distinct(tetrominoes)
      ensures forall k :: 0 <= k < |tetrominoes| ==> tetrominoes[k] in old(tetrominoes) || fresh(tetrominoes[k])
    {
      MoveAll();
      MergePass();
    }

    /** The line-clear pass and the collision test. */
    method Settle()
      requires AllWellFormed(Vals(tetrominoes)) && Distinct(tetrominoes)
      modifies this`tetrominoes, this`score, this`gameOver, tetrominoes
      ensures State() == Finish(old(State()), ClearFrom(old(Vals(tetrominoes)), 0, old(score)))
      ensures Distinct(tetrominoes)
    {
      LinePass();
      ghost var vs := Vals(tetrominoes);
      var hit := PlayerHit();
      assert Vals(tetrominoes) == vs;
      if hit {
        gameOver := true;
      }
      assert Vals(tetrominoes) == vs;
    }

    /** The passes over the tetrominoes: movement, merging, line clearing
        and the collision test. */
    method Advance()
      requires Valid()
      modifies this`tetrominoes, this`score, this`gameOver, tetrominoes
      ensures State() == Swept(old(State())) && Valid()
    {
      Shuffle();
      Settle();
    }

    /** Everything after the event loop. */
    method Play(pressed: set<Key>, sp: Spawn)
      requires Valid() && sp.kind < CatalogSize
      modifies this, tetrominoes
      ensures State() == Advanced(old(State()), pressed, sp) && Valid()
    {
      Prepare(pressed, sp);
      Advance();
    }

    /** One iteration of the main loop, up to the drawing: it reports
        whether the window was closed. */
    method Tick(input: Input) returns (closed: bool)
      requires Valid() && input.spawn.kind < CatalogSize
      modifies this, tetrominoes
      ensures var r := Ticked(old(State()), input);
              && (closed <==> r.Quitted?)
              && (!closed ==> State() == r.next && Valid())
    {
      closed := HandleEvents(input.events);
      if closed {
        return;
      }
      assert State() == old(State()).(colour := playerColour);
      Play(input.pressed, input.spawn);
    }
  }

  /** The list after one merge holds the values Absorb gives. */
  lemma AbsorbVals(ts: seq<Tetromino>, m: Tetromino, i: nat, j: nat, vs: seq<Entity>)
    requires i < j < |ts| && vs == Vals(ts) && AllWellFormed(vs)
    requires m.Value() == Merged(vs[i], vs[j])
    ensures Vals(Pop(Pop(ts + [m], j), i)) == Absorb(vs, i, j)
  {
    ValsAppend(ts, [m]);
    ValsOne(m);
    ValsPop(ts + [m], j);
    ValsPop(Pop(ts + [m], j), i);
  }

  /** One step of the merge pass, unfolded. */
  lemma MergeFromStep(vs: seq<Entity>, i: nat)
    requires AllWellFormed(vs) && i < |vs|
    ensures match FirstAdjacent(vs, i, i + 1)
            case None => MergeFrom(vs, i) == MergeFrom(vs, i + 1)
            case Some(j) => AllWellFormed(Absorb(vs, i, j)) && MergeFrom(vs, i) == MergeFrom(Absorb(vs, i, j), i)
  {
    match FirstAdjacent(vs, i, i + 1)
    case None =>
    case Some(j) => AbsorbWellFormed(vs, i, j);
  }

  /** After a change to the object at i alone, the list's values differ
      from the old ones at i alone. */
  lemma CutVals(ts: seq<Tetromino>, vs: seq<Entity>, i: nat, t: Tetromino)
    requires i < |ts| == |vs| && ts[i] == t
    requires forall k :: 0 <= k < |ts| && k != i ==> ts[k].Value() == vs[k]
    ensures Vals(ts) == vs[i := t.Value()]
  {
  }

  /** Popping the element at i forgets what it was. */
  lemma PoppedUpdate(vs: seq<Entity>, babies: seq<Entity>, i: nat, e: Entity)
    requires i < |vs|
    ensures Pop(vs[i := e] + babies, i) == Pop(vs + babies, i)
  {
  }

  lemma AppendDistinct(ts: seq<Tetromino>, us: seq<Tetromino>)
    requires Distinct(ts) && Distinct(us)
    requires forall a, b :: 0 <= a < |ts| && 0 <= b < |us| ==> ts[a] != us[b]
    ensures Distinct(ts + us)
  {
  }

  lemma PopDistinct(ts: seq<Tetromino>, k: nat)
    requires k < |ts| && Distinct(ts)
    ensures Distinct(Pop(ts, k)) && forall t :: t in Pop(ts, k) ==> t in ts
  {
  }

  /** A merge keeps the list free of repeats when the merged object is new;
      every object left is the new one or was there before. */
  lemma AbsorbDistinct(ts: seq<Tetromino>, m: Tetromino, i: nat, j: nat)
    requires i < j < |ts| && Distinct(ts) && m !in ts
    ensures Distinct(Pop(Pop(ts + [m], j), i))
    ensures forall t :: t in Pop(Pop(ts + [m], j), i) ==> t in ts || t == m
  {
    var us := ts + [m];
    assert Distinct(us);
    PopDistinct(us, j);
    PopDistinct(Pop(us, j), i);
  }
}

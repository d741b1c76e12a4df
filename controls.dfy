/** The per-tick bookkeeping of the main loop that depends only on the input:
    the stamina gate of each movement key, the player's position, the colour
    change events, and the spawn schedule that speeds up over time.

    Units: the player moves PLAYER_SPEED = 0.1 of a cell per tick, so its
    position is kept in tenths of a cell; the movement timers grow by 1 per
    held tick and decay by COOLDOWN_DECAY_RATE = 0.5, so they are kept in half
    ticks. */
module Controls {
  import opened Grid
  import opened Catalog

  const Fps := 60
  /** MAX_MOVEMENT_TIME, in ticks. */
  const MaxMovementTime := 5 * Fps
  /** COOLDOWN_TIME, in ticks. */
  const CooldownTime := 5 * Fps
  /** Half ticks per tick: the unit of the movement timers. */
  const HalfTicks := 2
  /** MAX_MOVEMENT_TIME in half ticks. */
  const MaxHalves := MaxMovementTime * HalfTicks
  /** PLAYER_SPEED, in tenths of a cell. */
  const PlayerSpeed := 1
  /** Tenths per cell. */
  const Tenths := 10

  const InitialSpawnRate := Fps
  const MinSpawnRate := 1
  const DifficultyInterval := 30 * Fps

  /** The four movement keys, in the order the timers are updated. */
  datatype Key = W | A | S | D

  const Keys: seq<Key> := [W, A, S, D]

  /** One key's pair of timers: movement_timers[key] in half ticks and
      cooldown_timers[key] in ticks. */
  datatype Gate = Gate(held: int, cooldown: int)

  /** The range both timers stay in at the end of every tick. */
  predicate GateOk(g: Gate) {
    0 <= g.held < MaxHalves && 0 <= g.cooldown < CooldownTime
  }

  /** One tick of one key's timers. Held with no cooldown: the movement timer
      grows by a tick, and on reaching MAX_MOVEMENT_TIME it is reset and the
      cooldown is set to COOLDOWN_TIME. Otherwise the movement timer decays
      by half a tick, floored at zero. Then a running cooldown counts down,
      including one that was set in this same tick. */
  function GateStep(g: Gate, pressed: bool): (r: Gate)
    ensures GateOk(g) ==> GateOk(r)
    ensures g.cooldown > 0 ==> r.cooldown == g.cooldown - 1 && r.held == Max(0, g.held - 1)
    ensures pressed && g.cooldown == 0 && g.held + HalfTicks >= MaxHalves ==> r == Gate(0, CooldownTime - 1)
    ensures pressed && g.cooldown == 0 && g.held + HalfTicks < MaxHalves ==> r == Gate(g.held + HalfTicks, 0)
    ensures !pressed && g.cooldown == 0 ==> r == Gate(Max(0, g.held - 1), 0)
  {
    var g1 :=
      if pressed && g.cooldown == 0 then
        if g.held + HalfTicks >= MaxHalves then Gate(0, CooldownTime) else Gate(g.held + HalfTicks, g.cooldown)
      else Gate(Max(0, g.held - 1), g.cooldown);
    if g1.cooldown > 0 then g1.(cooldown := g1.cooldown - 1) else g1
  }

  /** The key moves the player this tick: it is held and its cooldown is zero
      once the timers have been updated. */
  predicate Moves(g: Gate, pressed: bool) {
    pressed && GateStep(g, pressed).cooldown == 0
  }

  /** A held key moves the player exactly when its cooldown is at most one
      tick from running out and this tick does not exhaust its stamina. */
  lemma MovesSpec(g: Gate, pressed: bool)
    requires GateOk(g)
    ensures Moves(g, pressed) <==>
              pressed && (g.cooldown == 1 || (g.cooldown == 0 && g.held + HalfTicks < MaxHalves))
  {
  }

  /** The timers after a run of ticks, one input per tick. */
  function Run(g: Gate, inputs: seq<bool>): Gate
    decreases |inputs|
  {
    if inputs == [] then g else Run(GateStep(g, inputs[0]), inputs[1..])
  }

  /** The timers after holding the key for n consecutive ticks. */
  function Holding(g: Gate, n: nat): Gate {
    if n == 0 then g else GateStep(Holding(g, n - 1), true)
  }

  /** From rest, holding a key for n < MAX_MOVEMENT_TIME ticks moves the
      player on every one of those ticks and fills the timer by n ticks. */
  lemma {:induction false} HoldingFills(n: nat)
    requires n < MaxMovementTime
    ensures Holding(Gate(0, 0), n) == Gate(HalfTicks * n, 0)
    ensures n > 0 ==> Moves(Holding(Gate(0, 0), n - 1), true)
  {
    if n > 0 {
      HoldingFills(n - 1);
    }
  }

  /** Holding a key for MAX_MOVEMENT_TIME consecutive ticks from rest locks it:
      the timer is reset, the cooldown stands at COOLDOWN_TIME - 1 at the end
      of that tick, and the player does not move on that last tick. */
  lemma HoldingLocks()
    ensures Holding(Gate(0, 0), MaxMovementTime) == Gate(0, CooldownTime - 1)
    ensures !Moves(Holding(Gate(0, 0), MaxMovementTime - 1), true)
  {
    HoldingFills(MaxMovementTime - 1);
  }

  /** The timers after n consecutive ticks with the key released. */
  function Idle(g: Gate, n: nat): Gate {
    if n == 0 then g else GateStep(Idle(g, n - 1), false)
  }

  /** With the key released and no cooldown, the movement timer drains by
      half a tick per tick down to zero, and the cooldown stays at zero. */
  lemma {:induction false} IdleDrains(held: int, n: nat)
    requires held >= 0
    ensures Idle(Gate(held, 0), n) == Gate(Max(0, held - n), 0)
  {
    if n > 0 {
      IdleDrains(held, n - 1);
    }
  }

  /** While the cooldown runs, input is ignored: each tick takes one off the
      cooldown and half a tick off the movement timer, whatever is held. */
  lemma {:induction false} LockedRun(g: Gate, inputs: seq<bool>)
    requires 0 <= g.held && |inputs| < g.cooldown
    ensures Run(g, inputs) == Gate(Max(0, g.held - |inputs|), g.cooldown - |inputs|)
    decreases |inputs|
  {
    if inputs != [] {
      var next := GateStep(g, inputs[0]);
      assert next == Gate(Max(0, g.held - 1), g.cooldown - 1);
      LockedRun(next, inputs[1..]);
      assert Run(g, inputs) == Run(next, inputs[1..]);
      assert Max(0, Max(0, g.held - 1) - (|inputs| - 1)) == Max(0, g.held - |inputs|);
    }
  }

  /** A locked key does not move the player on any tick before the cooldown's
      last one, whatever the input on the ticks in between. */
  lemma LockoutBlocks(g: Gate, inputs: seq<bool>, pressed: bool)
    requires 0 <= g.held && |inputs| + 1 < g.cooldown
    ensures !Moves(Run(g, inputs), pressed)
  {
    LockedRun(g, inputs);
  }

  /** int(v) for a position of v tenths: truncation toward zero. */
  function CellOf(v: int): (c: int)
    ensures 0 <= v ==> 0 <= Tenths * c <= v < Tenths * c + Tenths
    ensures v < 0 ==> Tenths * c - Tenths < v <= Tenths * c <= 0
  {
    if v >= 0 then v / Tenths else -((-v) / Tenths)
  }

  /** The player's move: W up, S down, A left, D right, each by PLAYER_SPEED
      when its key is held and its cooldown, after the timer update, is zero.
      `cooldowns` holds the updated cooldown timers. */
  function PlayerMoved(px: int, py: int, pressed: set<Key>, cooldowns: map<Key, int>): (r: (int, int))
    requires forall k: Key :: k in cooldowns
    ensures r.0 - px == Push(pressed, cooldowns, D) - Push(pressed, cooldowns, A)
    ensures r.1 - py == Push(pressed, cooldowns, S) - Push(pressed, cooldowns, W)
  {
    var y1 := if W in pressed && cooldowns[W] == 0 then py - PlayerSpeed else py;
    var y2 := if S in pressed && cooldowns[S] == 0 then y1 + PlayerSpeed else y1;
    var x1 := if A in pressed && cooldowns[A] == 0 then px - PlayerSpeed else px;
    var x2 := if D in pressed && cooldowns[D] == 0 then x1 + PlayerSpeed else x1;
    (x2, y2)
  }

  /** How far a key moves the player this tick: the player's speed when
      the key is held and its cooldown has run out, nothing otherwise. */
  function Push(pressed: set<Key>, cooldowns: map<Key, int>, k: Key): int
    requires k in cooldowns
  {
    if k in pressed && cooldowns[k] == 0 then PlayerSpeed else 0
  }

  /** The input events of one tick that the game reacts to. */
  datatype Event = Quit | CycleBack | CycleForward

  /** The event loop: Q and E step the player's colour back and forward
      through COLORS; a quit event ends the game at once, and the events after
      it are not looked at. Returns the colour and whether the game quit. */
  function ApplyEvents(c: Colour, events: seq<Event>): (r: (Colour, bool))
    requires c in Colours
    ensures r.0 in Colours
    ensures r.1 <==> Quit in events
    decreases |events|
  {
    if events == [] then (c, false)
    else if events[0] == Quit then (c, true)
    else ApplyEvents(Cycled(c, StepOf(events[0])), events[1..])
  }

  /** The colour step of one event: +1 for E, -1 for Q. */
  function StepOf(e: Event): int {
    match e
    case CycleForward => 1
    case CycleBack => -1
    case Quit => 0
  }

  /** The net number of colour steps: forward changes minus backward ones. */
  function NetSteps(events: seq<Event>): int {
    if events == [] then 0 else StepOf(events[0]) + NetSteps(events[1..])
  }

  lemma ApplyEventsHead(c: Colour, events: seq<Event>)
    requires c in Colours && events != [] && Quit !in events
    ensures Quit !in events[1..]
    ensures ApplyEvents(c, events) == ApplyEvents(Cycled(c, StepOf(events[0])), events[1..])
  {
    assert events[0] in events;
    assert forall e :: e in events[1..] ==> e in events;
  }

  /** Without a quit, the colour reached depends only on the net number of
      changes: it is the colour whose index in COLORS is the starting one
      moved by forward minus backward steps, modulo seven. */
  lemma {:induction false} ApplyEventsNet(c: Colour, events: seq<Event>)
    requires c in Colours && Quit !in events
    ensures ApplyEvents(c, events).0 == Cycled(c, NetSteps(events))
    decreases |events|
  {
    if events != [] {
      var step, rest := StepOf(events[0]), events[1..];
      ApplyEventsHead(c, events);
      ApplyEventsNet(Cycled(c, step), rest);
      CycledTwice(c, step, NetSteps(rest), NetSteps(events));
    } else {
      CycledZero(c);
    }
  }

  /** A step of zero leaves the colour as it is. */
  lemma CycledZero(c: Colour)
    requires c in Colours
    ensures Cycled(c, 0) == c
  {
    assert (IndexOf(c) + 0) % CatalogSize == IndexOf(c);
  }

  /** Two colour changes by a and b make one change by a + b. */
  lemma CycledTwice(c: Colour, a: int, b: int, n: int)
    requires c in Colours && n == a + b
    ensures Cycled(Cycled(c, a), b) == Cycled(c, n)
  {
    var i := IndexOf(c);
    CycledIndex(c, a);
    ModShift(i + a, b);
    assert (IndexOf(Cycled(c, a)) + b) % CatalogSize == (i + n) % CatalogSize;
  }

  /** Reducing modulo seven before adding an offset changes nothing. */
  lemma ModShift(a: int, b: int)
    ensures (a % CatalogSize + b) % CatalogSize == (a + b) % CatalogSize
  {
    var q := a / CatalogSize;
    assert a == CatalogSize * q + a % CatalogSize;
    assert a + b == (a % CatalogSize + b) + CatalogSize * q;
  }

  /** The difficulty step: every DIFFICULTY_INCREASE_INTERVAL ticks of game
      time the spawn interval shrinks by one, never below MIN_SPAWN_RATE.
      `time` is game_time after this tick's increment. */
  function NextSpawnRate(rate: int, time: int): (r: int)
    ensures rate >= MinSpawnRate ==> MinSpawnRate <= r <= rate
    ensures time % DifficultyInterval != 0 ==> r == rate
    ensures time % DifficultyInterval == 0 && rate > MinSpawnRate ==> r == rate - 1
  {
    if time % DifficultyInterval == 0 then Max(MinSpawnRate, rate - 1) else rate
  }

  /** spawn_rate after n ticks from the start of the game. */
  function RateAt(n: nat): int {
    if n == 0 then InitialSpawnRate else NextSpawnRate(RateAt(n - 1), n)
  }

  /** The spawn interval starts at INITIAL_SPAWN_RATE and loses one every
      DIFFICULTY_INCREASE_INTERVAL ticks until it reaches MIN_SPAWN_RATE. */
  lemma {:induction false} RateAtClosed(n: nat)
    ensures RateAt(n) == Max(MinSpawnRate, InitialSpawnRate - n / DifficultyInterval)
  {
    if n > 0 {
      RateAtClosed(n - 1);
      DivStep(n);
    }
  }

  /** n / I grows by one exactly at the multiples of I. */
  lemma DivStep(n: nat)
    requires n > 0
    ensures n % DifficultyInterval == 0 ==> n / DifficultyInterval == (n - 1) / DifficultyInterval + 1
    ensures n % DifficultyInterval != 0 ==> n / DifficultyInterval == (n - 1) / DifficultyInterval
  {
    var q, r := (n - 1) / DifficultyInterval, (n - 1) % DifficultyInterval;
    assert n == DifficultyInterval * q + r + 1;
    if r + 1 == DifficultyInterval {
      assert n == DifficultyInterval * (q + 1);
    } else {
      assert n == DifficultyInterval * q + (r + 1);
    }
  }

  /** The spawn interval never grows and never drops below MIN_SPAWN_RATE. */
  lemma RateMonotone(n: nat, m: nat)
    requires n <= m
    ensures MinSpawnRate <= RateAt(m) <= RateAt(n)
  {
    RateAtClosed(n);
    RateAtClosed(m);
    assert n / DifficultyInterval <= m / DifficultyInterval;
  }

  /** The spawn counter: one more tick; once it reaches the interval a new
      tetromino is spawned and the counter starts again from zero. */
  function SpawnTick(counter: int, rate: int): (r: (int, bool))
    ensures r.1 <==> counter + 1 >= rate
    ensures r.1 ==> r.0 == 0
    ensures !r.1 ==> r.0 == counter + 1
    ensures 0 <= counter < rate ==> 0 <= r.0 < rate
  {
    if counter + 1 >= rate then (0, true) else (counter + 1, false)
  }

  /** The counter stays below the interval even though the interval shrinks:
      it shrinks by at most one per tick, and the counter grows by one. */
  lemma SpawnTickBounded(counter: int, rate: int, time: int)
    requires MinSpawnRate <= rate && 0 <= counter < rate
    ensures var next := NextSpawnRate(rate, time);
            0 <= SpawnTick(counter, next).0 < next
  {
  }
}

/**
 * The invader formation (src/invader.rs): an ordered army of invaders that
 * moves in lock-step, one column per due tick of a shared timer, and at the
 * edge it is heading for descends one row, turns round and speeds up.
 */
module Formation {
  import opened Config
  import opened Options
  import opened Timing
  import Sequences

  /** One invader. It has no identity besides its position. */
  datatype Invader = Invader(x: nat, y: nat)

  /** The shared direction of travel, `-1` (left) and `1` (right) in the source. */
  datatype Direction = Left | Right {
    /** The column offset of one step. */
    function Delta(): int {
      if Left? then -1 else 1
    }

    function Flip(): Direction {
      if Left? then Right else Left
    }
  }

  datatype Invaders = Invaders(army: seq<Invader>, moveTimer: Timer, direction: Direction)

  /** Move period of a new formation, in milliseconds. */
  const InitialPeriod: nat := 2000
  /** How much each turn at an edge shortens the move period. */
  const PeriodStep: nat := 250
  /** The move period never drops below this. */
  const MinPeriod: nat := 250
  /** Number of invaders in a new formation. */
  const SpawnCount: nat := 72

  // ---------------------------------------------------------------------------
  // Spawning
  // ---------------------------------------------------------------------------

  /** The cells of the field that hold an invader when a game starts. */
  predicate IsSpawnCell(x: int, y: int) {
    1 < x < NumCols - 2 && 0 < y < NumRows / 2 && x % 2 == 0 && y % 2 == 0
  }

  /** Columns that hold spawn cells. */
  predicate IsSpawnColumn(x: int) {
    1 < x < NumCols - 2 && x % 2 == 0
  }

  /**
   * The `i`-th invader of a new formation: four per column (rows 2, 4, 6, 8)
   * and one column for each even x from 2 to 36.
   */
  function SpawnSlot(i: nat): Invader {
    Invader(2 + 2 * (i / 4), 2 + 2 * (i % 4))
  }

  /** Column-major (x first, then y) order of positions. */
  predicate XMajorBefore(a: Invader, b: Invader) {
    a.x < b.x || (a.x == b.x && a.y < b.y)
  }

  /** Number of spawn columns strictly left of column `x`. */
  function ColumnsBefore(x: int): nat {
    if x <= 2 then 0 else if x > 38 then 18 else (x - 1) / 2
  }

  /** Number of spawn rows strictly above row `y`. */
  function RowsBefore(y: int): nat {
    if y <= 2 then 0 else if y > 10 then 4 else (y - 1) / 2
  }

  lemma SlotOf(c: nat, r: nat)
    requires r < 4
    ensures SpawnSlot(4 * c + r) == Invader(2 + 2 * c, 2 + 2 * r)
  {
  }

  /** Every spawn slot is a spawn cell. */
  lemma SlotsAreSpawnCells()
    ensures forall i :: 0 <= i < SpawnCount ==> IsSpawnCell(SpawnSlot(i).x, SpawnSlot(i).y)
  {
  }

  /** The spawn slots come in strictly increasing column-major order (so no cell twice). */
  lemma SlotsAreOrdered()
    ensures forall i, j :: 0 <= i < j < SpawnCount ==> XMajorBefore(SpawnSlot(i), SpawnSlot(j))
  {
  }

  /** Every spawn cell is one of the spawn slots. */
  lemma SpawnCellsAreSlots()
    ensures forall x: nat, y: nat :: IsSpawnCell(x, y) ==> exists i :: 0 <= i < SpawnCount && SpawnSlot(i) == Invader(x, y)
  {
    forall x: nat, y: nat | IsSpawnCell(x, y)
      ensures exists i :: 0 <= i < SpawnCount && SpawnSlot(i) == Invader(x, y)
    {
      var c, r := (x - 2) / 2, (y - 2) / 2;
      SlotOf(c, r);
      assert SpawnSlot(4 * c + r) == Invader(x, y);
    }
  }

  /** An army listing the spawn slots in order holds exactly the spawn cells, in column-major order. */
  lemma SpawnArmy(army: seq<Invader>)
    requires |army| == SpawnCount
    requires forall i :: 0 <= i < |army| ==> army[i] == SpawnSlot(i)
    ensures forall x: nat, y: nat :: Invader(x, y) in army <==> IsSpawnCell(x, y)
    ensures forall i, j :: 0 <= i < j < |army| ==> XMajorBefore(army[i], army[j])
    ensures forall i :: 0 <= i < |army| ==> IsSpawnCell(army[i].x, army[i].y)
  {
    SlotsAreSpawnCells();
    SlotsAreOrdered();
    SpawnCellsAreSlots();
  }

  /**
   * `Invaders::new`: scan the field column by column and place an invader on
   * every spawn cell; the formation starts heading right with a 2000 ms period.
   */
  method New() returns (s: Invaders)
    ensures |s.army| == SpawnCount
    ensures forall x: nat, y: nat :: Invader(x, y) in s.army <==> IsSpawnCell(x, y)
    ensures forall i, j :: 0 <= i < j < |s.army| ==> XMajorBefore(s.army[i], s.army[j])
    ensures s.direction == Right
    ensures s.moveTimer == FromMillis(InitialPeriod)
    ensures ValidInvaders(s) && !ReachedBottom(s)
  {
    var army: seq<Invader> := [];
    for x := 0 to NumCols
      invariant |army| == 4 * ColumnsBefore(x)
      invariant forall i :: 0 <= i < |army| ==> army[i] == SpawnSlot(i)
    {
      for y := 0 to NumRows
        invariant |army| == 4 * ColumnsBefore(x) + (if IsSpawnColumn(x) then RowsBefore(y) else 0)
        invariant forall i :: 0 <= i < |army| ==> army[i] == SpawnSlot(i)
      {
        if x > 1 && x < NumCols - 2 && y > 0 && y < NumRows / 2 && x % 2 == 0 && y % 2 == 0 {
          SlotOf(ColumnsBefore(x), RowsBefore(y));
          army := army + [Invader(x, y)];
        }
      }
    }
    SpawnArmy(army);
    s := Invaders(army, FromMillis(InitialPeriod), Right);
  }

  // ---------------------------------------------------------------------------
  // Extremes of the army: the least or greatest coordinate, or 0 when empty
  // ---------------------------------------------------------------------------

  function Xs(army: seq<Invader>): (xs: seq<nat>)
    ensures |xs| == |army|
    ensures forall i :: 0 <= i < |army| ==> xs[i] == army[i].x
  {
    seq(|army|, i requires 0 <= i < |army| => army[i].x)
  }

  function Ys(army: seq<Invader>): (ys: seq<nat>)
    ensures |ys| == |army|
    ensures forall i :: 0 <= i < |army| ==> ys[i] == army[i].y
  {
    seq(|army|, i requires 0 <= i < |army| => army[i].y)
  }

  /** The least element of `xs`, or 0 when `xs` is empty. */
  function MinOrZero(xs: seq<nat>): (m: nat)
    ensures xs == [] ==> m == 0
    ensures forall i :: 0 <= i < |xs| ==> m <= xs[i]
    ensures xs != [] ==> exists i :: 0 <= i < |xs| && xs[i] == m
  {
    if |xs| <= 1 then
      (if xs == [] then 0 else xs[0])
    else
      var m := MinOrZero(xs[1..]);
      if xs[0] <= m then xs[0] else m
  }

  /** The greatest element of `xs`, or 0 when `xs` is empty. */
  function MaxOrZero(xs: seq<nat>): (m: nat)
    ensures xs == [] ==> m == 0
    ensures forall i :: 0 <= i < |xs| ==> xs[i] <= m
    ensures xs != [] ==> exists i :: 0 <= i < |xs| && xs[i] == m
  {
    if |xs| <= 1 then
      (if xs == [] then 0 else xs[0])
    else
      var m := MaxOrZero(xs[1..]);
      if xs[0] >= m then xs[0] else m
  }

  // ---------------------------------------------------------------------------
  // Movement
  // ---------------------------------------------------------------------------

  /** The test of `Invaders::update`: has the army reached the edge it is heading for? */
  predicate AtEdge(s: Invaders) {
    match s.direction
    case Left => MinOrZero(Xs(s.army)) == 0
    case Right => MaxOrZero(Xs(s.army)) == NumCols - 1
  }

  /** The shortened move period after a turn, floored at `MinPeriod`. */
  function NextPeriod(ms: nat): (r: nat)
    requires ms >= PeriodStep
    ensures MinPeriod <= r <= ms
    ensures r == ms - PeriodStep || r == MinPeriod
    ensures r >= ms - PeriodStep
  {
    if ms - PeriodStep >= MinPeriod then ms - PeriodStep else MinPeriod
  }

  /** Every invader one row further down. */
  function Descend(army: seq<Invader>): seq<Invader> {
    seq(|army|, i requires 0 <= i < |army| => Invader(army[i].x, army[i].y + 1))
  }

  /** Every invader one column further in direction `d`. */
  function Shift(army: seq<Invader>, d: Direction): seq<Invader>
    requires d == Left ==> forall i :: 0 <= i < |army| ==> army[i].x >= 1
  {
    seq(|army|, i requires 0 <= i < |army| => Invader(army[i].x + d.Delta(), army[i].y))
  }

  /** Every invader lies on the field. */
  predicate InField(army: seq<Invader>) {
    forall i :: 0 <= i < |army| ==> army[i].x < NumCols && army[i].y < NumRows
  }

  /** Every invader lies in a column of the field. */
  predicate InColumns(army: seq<Invader>) {
    forall i :: 0 <= i < |army| ==> army[i].x < NumCols
  }

  /** The move period lies between its floor and its initial value. */
  predicate PeriodOk(t: Timer) {
    MinPeriod <= t.duration <= InitialPeriod
  }

  /** What every reachable formation satisfies until it reaches the bottom row. */
  predicate ValidInvaders(s: Invaders) {
    InField(s.army) && PeriodOk(s.moveTimer)
  }

  /**
   * `Invaders::update(delta)`, where `tick` is what `move_timer.update(delta)`
   * left in the timer. Returns the new formation and whether it moved.
   *
   * The subtraction `duration - 250` is on unsigned integers, so the source
   * needs the period to be at least 250 ms whenever the formation turns.
   */
  function Update(s: Invaders, tick: Tick): (r: (Invaders, bool))
    requires tick.ready && AtEdge(s) ==> s.moveTimer.duration >= PeriodStep
    // not due: nothing moves
    ensures !tick.ready ==> !r.1 && r.0.army == s.army && r.0.direction == s.direction
    ensures !tick.ready ==> r.0.moveTimer == Advance(s.moveTimer, tick)
    // due: the formation moves, and keeps its size and order
    ensures tick.ready ==> r.1 && |r.0.army| == |s.army|
    // heading left and touching column 0 (an empty army counts as touching it): turn and descend
    ensures tick.ready && s.direction == Left && (s.army == [] || exists i :: 0 <= i < |s.army| && s.army[i].x == 0) ==>
      && r.0.direction == Right
      && (forall i :: 0 <= i < |s.army| ==> r.0.army[i] == Invader(s.army[i].x, s.army[i].y + 1))
      && r.0.moveTimer == FromMillis(NextPeriod(s.moveTimer.duration))
    // heading right and touching the last column: turn and descend
    ensures tick.ready && s.direction == Right && InColumns(s.army) && (exists i :: 0 <= i < |s.army| && s.army[i].x == NumCols - 1) ==>
      && r.0.direction == Left
      && (forall i :: 0 <= i < |s.army| ==> r.0.army[i] == Invader(s.army[i].x, s.army[i].y + 1))
      && r.0.moveTimer == FromMillis(NextPeriod(s.moveTimer.duration))
    // away from the edge: one column sideways, same rows, same period
    ensures tick.ready && s.direction == Left && s.army != [] && (forall i :: 0 <= i < |s.army| ==> s.army[i].x > 0) ==>
      && r.0.direction == Left
      && (forall i :: 0 <= i < |s.army| ==> r.0.army[i] == Invader(s.army[i].x - 1, s.army[i].y))
      && r.0.moveTimer == Reset(Advance(s.moveTimer, tick))
    ensures tick.ready && s.direction == Right && (forall i :: 0 <= i < |s.army| ==> s.army[i].x < NumCols - 1) ==>
      && r.0.direction == Right
      && (forall i :: 0 <= i < |s.army| ==> r.0.army[i] == Invader(s.army[i].x + 1, s.army[i].y))
      && r.0.moveTimer == Reset(Advance(s.moveTimer, tick))
    // the period never grows and never falls below its floor
    ensures r.0.moveTimer.duration <= s.moveTimer.duration
    ensures s.moveTimer.duration >= MinPeriod ==> r.0.moveTimer.duration >= MinPeriod
  {
    var t := Advance(s.moveTimer, tick);
    if !t.ready then
      (s.(moveTimer := t), false)
    else if AtEdge(s) then
      (Invaders(Descend(s.army), FromMillis(NextPeriod(Reset(t).duration)), s.direction.Flip()), true)
    else
      (Invaders(Shift(s.army, s.direction), Reset(t), s.direction), true)
  }

  /**
   * An update keeps every invader within the columns of the field, and one
   * that starts above the bottom row keeps every invader within its rows.
   */
  lemma UpdateStaysInBounds(s: Invaders, tick: Tick)
    requires tick.ready && AtEdge(s) ==> s.moveTimer.duration >= PeriodStep
    ensures InColumns(s.army) ==> InColumns(Update(s, tick).0.army)
    ensures !ReachedBottom(s) ==> forall i :: 0 <= i < |Update(s, tick).0.army| ==> Update(s, tick).0.army[i].y < NumRows
  {
  }

  /** A valid formation can always be updated, and stays valid until it reaches the bottom row. */
  lemma UpdateKeepsValid(s: Invaders, tick: Tick)
    requires ValidInvaders(s) && !ReachedBottom(s)
    ensures tick.ready && AtEdge(s) ==> s.moveTimer.duration >= PeriodStep
    ensures ValidInvaders(Update(s, tick).0)
  {
    UpdateStaysInBounds(s, tick);
  }

  /**
   * The formation over successive game-loop ticks; the game stops as soon as
   * the formation has reached the bottom row.
   */
  function Run(s: Invaders, ticks: seq<Tick>): (r: Invaders)
    requires ValidInvaders(s)
    ensures ValidInvaders(r)
    ensures |r.army| == |s.army|
    ensures r.moveTimer.duration <= s.moveTimer.duration
    decreases |ticks|
  {
    if ticks == [] || ReachedBottom(s) then s
    else
      UpdateKeepsValid(s, ticks[0]);
      Run(Update(s, ticks[0]).0, ticks[1..])
  }

  // ---------------------------------------------------------------------------
  // Queries and removal
  // ---------------------------------------------------------------------------

  /** `Iterator::position`: the index of the first invader equal to `v`. */
  function Position(army: seq<Invader>, v: Invader): (r: Option<nat>)
    ensures r.None? <==> v !in army
    ensures r.Some? ==> r.value < |army| && army[r.value] == v
    ensures r.Some? ==> forall j :: 0 <= j < r.value ==> army[j] != v
  {
    if army == [] then None
    else if army[0] == v then Some(0)
    else
      match Position(army[1..], v)
      case None => None
      case Some(i) => Some(i + 1)
  }

  /**
   * `Invaders::kill_invader_at`: remove the first invader at `(x, y)` and
   * report whether there was one.
   */
  function KillInvaderAt(s: Invaders, x: nat, y: nat): (r: (Invaders, bool))
    ensures r.1 <==> Invader(x, y) in s.army
    ensures !r.1 ==> r.0 == s
    ensures r.1 ==> exists i :: 0 <= i < |s.army| && s.army[i] == Invader(x, y)
                                 && (forall j :: 0 <= j < i ==> s.army[j] != Invader(x, y))
                                 && r.0.army == s.army[..i] + s.army[i + 1..]
    ensures r.1 ==> multiset(r.0.army) + multiset{Invader(x, y)} == multiset(s.army)
    ensures r.0.moveTimer == s.moveTimer && r.0.direction == s.direction
  {
    match Position(s.army, Invader(x, y))
    case None => (s, false)
    case Some(i) =>
      assert s.army == s.army[..i] + [s.army[i]] + s.army[i + 1..];
      (s.(army := s.army[..i] + s.army[i + 1..]), true)
  }

  /** A kill leaves the surviving invaders in their order. */
  lemma KillKeepsOrder(s: Invaders, x: nat, y: nat)
    ensures Sequences.IsSubsequence(KillInvaderAt(s, x, y).0.army, s.army)
  {
    match Position(s.army, Invader(x, y))
    case None => Sequences.SubsequenceOfSelf(s.army);
    case Some(i) => Sequences.RemovalIsSubsequence(s.army, i);
  }

  /** A kill keeps a formation on the field with its period, and one above the bottom row stays above it. */
  lemma KillKeepsValid(s: Invaders, x: nat, y: nat)
    ensures ValidInvaders(s) ==> ValidInvaders(KillInvaderAt(s, x, y).0)
    ensures !ReachedBottom(s) ==> !ReachedBottom(KillInvaderAt(s, x, y).0)
  {
    var r := KillInvaderAt(s, x, y).0;
    forall k | 0 <= k < |r.army| ensures r.army[k] in s.army {
      assert r.army[k] in multiset(r.army);
    }
  }

  /** `Invaders::all_killed`: the win condition. */
  function AllKilled(s: Invaders): (r: bool)
    ensures r <==> forall v: Invader :: v !in s.army
  {
    var empty := s.army == [];
    assert !empty ==> s.army[0] in s.army;
    empty
  }

  /** `Invaders::reached_bottom`: the loss condition, via the greatest row (0 for an empty army). */
  function ReachedBottom(s: Invaders): (r: bool)
    ensures r <==> exists i :: 0 <= i < |s.army| && s.army[i].y >= NumRows - 1
  {
    MaxOrZero(Ys(s.army)) >= NumRows - 1
  }
}

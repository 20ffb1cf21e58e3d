/** The ant colony simulation: one state record per ant, moved one tick at a
    time through the open rooms of a maze while pheromone is laid down on the
    maze's cells and evaporates. */
module AntColony {
  import opened MazeModel
  import opened Randomness
  import opened AntTypes

  datatype Option<T> = None | Some(value: T)

  /** The per-ant state record. `direction` is a vector, kept as a `Pos`. */
  datatype AntState = AntState(position: Pos, path: seq<Pos>, hasReachedEnd: bool, moveProgress: real,
                               targetPosition: Option<Pos>, direction: Option<Pos>)

  const EvaporationRate: real := 0.02
  const PheromoneDeposit: real := 0.5
  const MoveSpeedFactor: real := 0.05

  // ---------------------------------------------------------------------
  // Speeds

  /** The speed multiplier of each ant type. */
  function SpeedMultiplier(ant: Ant): (m: real)
    ensures 0.6 <= m <= 2.0
    ensures ant.kind == Sprinter <==> m == 2.0
    ensures ant.kind == Patient <==> m == 0.6
  {
    match ant.kind
    case Sprinter => 2.0
    case Explorer => 1.5
    case Allrounder => 1.2
    case Elite => 1.0
    case Memory => 0.8
    case Patient => 0.6
  }

  /** The progress an ant makes per tick. */
  function Increment(ant: Ant): real {
    MoveSpeedFactor * SpeedMultiplier(ant)
  }

  /** The number of ticks a move from one room to the next takes: the first
      `n` with `n` increments reaching 1. */
  function TicksToSettle(ant: Ant): (n: nat)
    ensures n > 0
    ensures n as real * Increment(ant) >= 1.0
    ensures (n - 1) as real * Increment(ant) < 1.0
  {
    match ant.kind
    case Sprinter => 10
    case Explorer => 14
    case Allrounder => 17
    case Elite => 20
    case Memory => 25
    case Patient => 34
  }

  // ---------------------------------------------------------------------
  // Neighbour selection

  /** The candidate `q` of `getValidNeighbors`, two steps from `pos`: it is
      kept when it is in bounds and neither it nor the wall cell between them
      is a wall. */
  function ValidAt(pos: Pos, q: Pos, wall: array2<bool>): (r: seq<Pos>)
    reads wall
    ensures r == (if Open(wall, q) && Open(wall, Midpoint(pos, q)) then [q] else [])
  {
    var m := Midpoint(pos, q);
    if 0 <= q.x < wall.Length1 && 0 <= q.y < wall.Length0 && 0 <= m.x < wall.Length1 && 0 <= m.y < wall.Length0
       && !wall[q.y, q.x] && !wall[m.y, m.x]
    then [q] else []
  }

  /** The open rooms two steps away from `pos` (up, right, down, left) whose
      wall cell in between has been opened; by `MidpointsOfSteps` the wall
      cells are those `getValidNeighbors` inspects. */
  function ValidNeighbors(pos: Pos, wall: array2<bool>): (r: seq<Pos>)
    requires InGrid(pos, wall.Length1, wall.Length0)
    reads wall
    ensures |r| <= 4
    ensures forall k :: 0 <= k < |r| ==>
              Step2(pos, r[k]) && Open(wall, r[k]) && Open(wall, Midpoint(pos, r[k]))
  {
    var up := ValidAt(pos, Pos(pos.x, pos.y - 2), wall);
    var right := ValidAt(pos, Pos(pos.x + 2, pos.y), wall);
    var down := ValidAt(pos, Pos(pos.x, pos.y + 2), wall);
    var left := ValidAt(pos, Pos(pos.x - 2, pos.y), wall);
    var r := up + right + down + left;
    assert forall q :: q in r <==> q in up || q in right || q in down || q in left;
    forall k | 0 <= k < |r|
      ensures Step2(pos, r[k]) && Open(wall, r[k]) && Open(wall, Midpoint(pos, r[k]))
    {
      var q := r[k];
      assert q in r;
      if q in up {
        assert q == Pos(pos.x, pos.y - 2);
      } else if q in right {
        assert q == Pos(pos.x + 2, pos.y);
      } else if q in down {
        assert q == Pos(pos.x, pos.y + 2);
      } else {
        assert q == Pos(pos.x - 2, pos.y);
      }
    }
    r
  }

  /** Every open room two steps away from `pos` whose wall cell in between
      has been opened is listed by `ValidNeighbors`. */
  lemma ValidNeighborsComplete(pos: Pos, wall: array2<bool>, q: Pos)
    requires InGrid(pos, wall.Length1, wall.Length0)
    requires Step2(pos, q) && Open(wall, q) && Open(wall, Midpoint(pos, q))
    ensures q in ValidNeighbors(pos, wall)
  {
    var up := ValidAt(pos, Pos(pos.x, pos.y - 2), wall);
    var right := ValidAt(pos, Pos(pos.x + 2, pos.y), wall);
    var down := ValidAt(pos, Pos(pos.x, pos.y + 2), wall);
    var left := ValidAt(pos, Pos(pos.x - 2, pos.y), wall);
    assert ValidNeighbors(pos, wall) == up + right + down + left;
    if q.x == pos.x && q.y < pos.y {
      assert q in up;
    } else if q.x == pos.x {
      assert q in down;
    } else if q.x > pos.x {
      assert q in right;
    } else {
      assert q in left;
    }
  }

  /** The wall cell between `pos` and each room two steps away. */
  lemma MidpointsOfSteps(pos: Pos)
    ensures Midpoint(pos, Pos(pos.x, pos.y - 2)) == Pos(pos.x, pos.y - 1)
    ensures Midpoint(pos, Pos(pos.x + 2, pos.y)) == Pos(pos.x + 1, pos.y)
    ensures Midpoint(pos, Pos(pos.x, pos.y + 2)) == Pos(pos.x, pos.y + 1)
    ensures Midpoint(pos, Pos(pos.x - 2, pos.y)) == Pos(pos.x - 1, pos.y)
  {
  }

  /** The pheromone levels of the cells `ns`, in their order. */
  function Levels(ns: seq<Pos>, pheromone: array2<real>): (r: seq<real>)
    requires forall k :: 0 <= k < |ns| ==> 0 <= ns[k].x < pheromone.Length1 && 0 <= ns[k].y < pheromone.Length0
    reads pheromone
    ensures |r| == |ns|
    ensures forall k :: 0 <= k < |ns| ==> r[k] == pheromone[ns[k].y, ns[k].x]
  {
    seq(|ns|, k requires 0 <= k < |ns| reads pheromone =>
      pheromone[ns[k].y, ns[k].x])
  }

  /** The largest of the non-empty `levels`. */
  function MaxPheromone(levels: seq<real>): (m: real)
    requires |levels| > 0
    ensures exists k :: 0 <= k < |levels| && levels[k] == m
    ensures forall k :: 0 <= k < |levels| ==> levels[k] <= m
  {
    if |levels| == 1 then levels[0]
    else
      var rest := MaxPheromone(levels[1..]);
      assert forall k :: 1 <= k < |levels| ==> levels[k] == levels[1..][k - 1];
      if levels[0] >= rest then levels[0] else rest
  }

  /** The indices, in order, of the entries of `levels` equal to `m`:
      the filter of the neighbours by index. */
  function BestIndices(levels: seq<real>, m: real): (r: seq<nat>)
    ensures |r| <= |levels|
    ensures forall t :: 0 <= t < |r| ==> r[t] < |levels| && levels[r[t]] == m
    ensures (exists k :: 0 <= k < |levels| && levels[k] == m) ==> |r| > 0
  {
    if levels == [] then []
    else
      var rest := BestIndices(levels[1..], m);
      var shifted := seq(|rest|, t requires 0 <= t < |rest| => rest[t] + 1);
      assert forall k :: 1 <= k < |levels| ==> levels[k] == levels[1..][k - 1];
      if levels[0] == m then [0] + shifted else shifted
  }

  /** Every index whose entry equals `m` is kept. */
  lemma {:induction false} BestIndicesComplete(levels: seq<real>, m: real, k: nat)
    requires k < |levels| && levels[k] == m
    ensures k in BestIndices(levels, m)
  {
    if k > 0 {
      BestIndicesComplete(levels[1..], m, k - 1);
      var rest := BestIndices(levels[1..], m);
      var t :| 0 <= t < |rest| && rest[t] == k - 1;
      var shifted := seq(|rest|, t requires 0 <= t < |rest| => rest[t] + 1);
      assert shifted[t] == k;
      if levels[0] == m {
        assert ([0] + shifted)[t + 1] == k;
      }
    }
  }

  /** The neighbour `getNextPosition` settles on among the non-empty `ns`,
      whose levels are `levels`: when the first draw `explore` is below the
      profile's `ratio`, the one the second draw `pick` selects among all of
      `ns`; otherwise the one it selects among those of maximal level. */
  function Choose(ns: seq<Pos>, levels: seq<real>, explore: real, pick: real, ratio: real): (r: Pos)
    requires |ns| > 0 && |levels| == |ns| && 0.0 <= pick < 1.0
    ensures r in ns
    ensures explore < ratio ==> r == ns[Pick(pick, |ns|)]
    ensures explore >= ratio ==> exists k :: 0 <= k < |ns| && ns[k] == r && levels[k] == MaxPheromone(levels)
  {
    if explore < ratio then ns[Pick(pick, |ns|)]
    else
      var best := BestIndices(levels, MaxPheromone(levels));
      var k := best[Pick(pick, |best|)];
      ns[k]
  }

  /** When following the pheromone, no neighbour of `ns` has a higher level
      in the grid than the chosen one. */
  lemma FollowTakesMaximum(ns: seq<Pos>, pheromone: array2<real>, explore: real, pick: real, ratio: real)
    requires |ns| > 0 && 0.0 <= pick < 1.0 && explore >= ratio
    requires forall k :: 0 <= k < |ns| ==> 0 <= ns[k].x < pheromone.Length1 && 0 <= ns[k].y < pheromone.Length0
    ensures var r := Choose(ns, Levels(ns, pheromone), explore, pick, ratio);
            forall q :: q in ns ==> pheromone[q.y, q.x] <= pheromone[r.y, r.x]
  {
    var levels := Levels(ns, pheromone);
    var r := Choose(ns, levels, explore, pick, ratio);
    var k :| 0 <= k < |ns| && ns[k] == r && levels[k] == MaxPheromone(levels);
    forall q | q in ns
      ensures pheromone[q.y, q.x] <= pheromone[r.y, r.x]
    {
      var j :| 0 <= j < |ns| && ns[j] == q;
      assert levels[j] <= MaxPheromone(levels);
    }
  }

  // ---------------------------------------------------------------------
  // Pheromone arithmetic

  /** The amount each listed cell receives: `0.5 / |cells|`. An empty list
      deposits nothing, so its share is never used. */
  function Share(n: nat): (s: real)
    ensures 0.0 <= s <= PheromoneDeposit
    ensures n > 0 ==> s * n as real == PheromoneDeposit
  {
    if n == 0 then 0.0 else PheromoneDeposit / n as real
  }

  /** One deposit of `share` on a cell, capped at 1. */
  function AddCapped(level: real, share: real): real {
    if level + share > 1.0 then 1.0 else level + share
  }

  /** The level of a cell that was listed `count` times in a deposit, starting
      from `level`. */
  function Deposited(level: real, count: nat, share: real): (r: real)
    requires 0.0 <= level <= 1.0 && share >= 0.0
    ensures level <= r <= 1.0
    ensures count == 0 ==> r == level
    ensures count > 0 && level + count as real * share <= 1.0 ==> r == level + count as real * share
    ensures count > 0 && level + count as real * share > 1.0 ==> r == 1.0
  {
    if count == 0 then level else if level + count as real * share > 1.0 then 1.0 else level + count as real * share
  }

  /** Listing a cell once more adds one more capped share. */
  lemma DepositedStep(level: real, count: nat, share: real)
    requires 0.0 <= level <= 1.0 && share >= 0.0
    ensures Deposited(level, count + 1, share) == AddCapped(Deposited(level, count, share), share)
  {
    assert (count + 1) as real * share == count as real * share + share;
  }

  ghost predicate PheromoneInRange(pheromone: array2<real>)
    reads pheromone
  {
    forall y, x {:trigger pheromone[y, x]} :: 0 <= y < pheromone.Length0 && 0 <= x < pheromone.Length1 ==>
      0.0 <= pheromone[y, x] <= 1.0
  }

  /** The level of the cell `p`, which was `level`, once an ant coming from
      `from` has settled as `moved`: one share of 0.25 for each time `p` is
      the new cell or the wall cell crossed, then, when the ant has arrived,
      one share of `0.5 / |path|` for each time `p` is on its path. */
  function SettledLevel(level: real, from: Pos, moved: AntState, p: Pos): (r: real)
    requires 0.0 <= level <= 1.0
    ensures level <= r <= 1.0
  {
    var crossed := Deposited(level, multiset([moved.position, Midpoint(from, moved.position)])[p], Share(2));
    if moved.hasReachedEnd then Deposited(crossed, multiset(moved.path)[p], Share(|moved.path|)) else crossed
  }

  // ---------------------------------------------------------------------
  // The per-ant state machine

  /** The state every ant starts in. */
  function FreshAnt(start: Pos): AntState {
    AntState(start, [start], false, 0.0, None, None)
  }

  /** `initializeAnts`: one fresh state per ant profile. */
  function InitialAnts(n: nat, start: Pos): (r: seq<AntState>)
    ensures |r| == n
    ensures forall i :: 0 <= i < n ==> r[i] == FreshAnt(start)
  {
    seq(n, _ => FreshAnt(start))
  }

  /** An ant asks for a new target when it has none or its move is complete. */
  predicate NeedsTarget(a: AntState) {
    a.targetPosition.None? || a.moveProgress >= 1.0
  }

  /** The first block of a tick: when the ant needs a target and
      `getNextPosition` found `next`, it becomes the target, the progress is
      reset to 0 and the direction is target minus position. */
  function Retarget(a: AntState, next: Option<Pos>): AntState {
    if NeedsTarget(a) && next.Some? then
      a.(targetPosition := next, moveProgress := 0.0,
         direction := Some(Pos(next.value.x - a.position.x, next.value.y - a.position.y)))
    else a
  }

  /** The second block of a tick: with a target, the progress grows by
      `inc`; once it reaches 1 the ant settles on the target, appends it to
      its path, drops the target and is marked arrived when it is `end`. */
  function Move(a: AntState, inc: real, end: Pos): AntState {
    if a.targetPosition.None? then a
    else if a.moveProgress + inc >= 1.0 then
      var t := a.targetPosition.value;
      a.(position := t, path := a.path + [t], targetPosition := None, moveProgress := a.moveProgress + inc,
         hasReachedEnd := a.hasReachedEnd || t == end)
    else a.(moveProgress := a.moveProgress + inc)
  }

  /** The tick of one ant that has not arrived yet. `next` is the result of
      `getNextPosition`, consulted only when the ant needs a target; `inc` is
      its progress per tick. */
  function Tick(a: AntState, next: Option<Pos>, inc: real, end: Pos): AntState {
    Move(Retarget(a, next), inc, end)
  }

  /** What one `step` does to one ant. An arrived ant is skipped. Otherwise a
      new target, when one is needed and found, resets the progress to 0 and
      sets the direction to target minus position; then the progress grows by
      `inc`, and once it reaches 1 the ant settles on its target, appends it
      to its path, drops the target, and is marked arrived iff it stands on
      `end`. */
  function Advance(a: AntState, next: Option<Pos>, inc: real, end: Pos): (r: AntState)
    ensures a.hasReachedEnd ==> r == a
    ensures r.path == a.path || r.path == a.path + [r.position]
    ensures r.path == a.path ==> r.position == a.position && r.hasReachedEnd == a.hasReachedEnd
    ensures r.path != a.path ==> r.targetPosition.None? && r.hasReachedEnd == (r.position == end)
    ensures r.path != a.path && NeedsTarget(a) && next.Some? ==> next == Some(r.position)
    ensures r.path != a.path && !(NeedsTarget(a) && next.Some?) ==> a.targetPosition == Some(r.position)
    ensures !a.hasReachedEnd && a.targetPosition.None? && next.None? ==> r == a
    ensures !a.hasReachedEnd && NeedsTarget(a) && next.Some? ==>
              r.direction == Some(Pos(next.value.x - a.position.x, next.value.y - a.position.y))
    ensures !(NeedsTarget(a) && next.Some?) ==> r.direction == a.direction
    ensures !a.hasReachedEnd && r.targetPosition.Some? ==>
              r.moveProgress == (if NeedsTarget(a) && next.Some? then 0.0 else a.moveProgress) + inc
              && r.moveProgress < 1.0
  {
    if a.hasReachedEnd then a else Tick(a, next, inc, end)
  }

  /** `k` further ticks of an ant whose target is already set, so that no
      new target is asked for on the way. */
  ghost function Ticks(a: AntState, inc: real, end: Pos, k: nat): AntState
    decreases k
  {
    if k == 0 then a else Advance(Ticks(a, inc, end, k - 1), None, inc, end)
  }

  /** Right after a new target is set (progress 0), `k` ticks whose
      increments stay below 1 keep the target and the room; the progress is
      then `k` increments. */
  lemma {:induction false} TicksBelowOne(a: AntState, inc: real, end: Pos, k: nat)
    requires !a.hasReachedEnd && a.targetPosition.Some? && a.moveProgress == 0.0
    requires inc > 0.0 && k as real * inc < 1.0
    ensures Ticks(a, inc, end, k) == a.(moveProgress := k as real * inc)
    decreases k
  {
    if k > 0 {
      var j: nat := k - 1;
      var p := j as real * inc;
      assert p + inc == k as real * inc;
      assert p < 1.0;
      TicksBelowOne(a, inc, end, j);
      var b := a.(moveProgress := p);
      TickPending(b, inc, end);
    }
  }

  /** Right after a new target is set (progress 0), an ant of profile `ant`
      keeps that target and its room for the first `TicksToSettle(ant) - 1`
      ticks, its progress growing by one increment per tick. */
  lemma TicksKeepTarget(a: AntState, ant: Ant, end: Pos, k: nat)
    requires !a.hasReachedEnd && a.targetPosition.Some? && a.moveProgress == 0.0
    requires k < TicksToSettle(ant)
    ensures Ticks(a, Increment(ant), end, k) == a.(moveProgress := k as real * Increment(ant))
  {
    var n := TicksToSettle(ant);
    var inc := Increment(ant);
    assert k as real * inc < 1.0 by {
      assert ((n - 1) - k) as real * inc >= 0.0;
    }
    TicksBelowOne(a, inc, end, k);
  }

  /** The tick that sets a new target `t` is the first of the ticks counted
      by `Ticks` from the state right after the target is set: that state is
      not arrived, has the target and progress 0. */
  lemma TargetTickIsFirst(a: AntState, t: Pos, inc: real, end: Pos)
    requires !a.hasReachedEnd && NeedsTarget(a)
    ensures var b := Retarget(a, Some(t));
            && !b.hasReachedEnd && b.targetPosition == Some(t) && b.moveProgress == 0.0
            && Advance(a, Some(t), inc, end) == Ticks(b, inc, end, 1)
  {
  }

  /** A tick of an ant on its way that does not yet reach its target only
      adds the increment to its progress. */
  lemma TickPending(a: AntState, inc: real, end: Pos)
    requires !a.hasReachedEnd && a.targetPosition.Some?
    requires a.moveProgress < 1.0 && a.moveProgress + inc < 1.0
    ensures Advance(a, None, inc, end) == a.(moveProgress := a.moveProgress + inc)
  {
  }

  /** The `TicksToSettle(ant)`-th tick after a new target is set settles the
      ant on it: the target becomes the position and the last path entry,
      the target is dropped, and the ant is arrived iff the room is `end`. */
  lemma SettlesAfterTicks(a: AntState, ant: Ant, end: Pos)
    requires !a.hasReachedEnd && a.targetPosition.Some? && a.moveProgress == 0.0
    ensures var r := Ticks(a, Increment(ant), end, TicksToSettle(ant));
            && r.position == a.targetPosition.value
            && r.path == a.path + [a.targetPosition.value]
            && r.targetPosition.None?
            && r.hasReachedEnd == (a.targetPosition.value == end)
  {
    var n := TicksToSettle(ant);
    var inc := Increment(ant);
    TicksKeepTarget(a, ant, end, n - 1);
    assert (n - 1) as real * inc + inc == n as real * inc;
  }

  /** A room of the maze that is open. */
  ghost predicate OpenRoom(wall: array2<bool>, p: Pos)
    reads wall
  {
    IsRoom(p, wall.Length1, wall.Length0) && !wall[p.y, p.x]
  }

  /** What every ant state satisfies. Its position, target and path entries
      are open rooms; a target means a move in progress; an arrived ant
      stands on the end with no target. From the index `chainStart` (the
      length of the path at the last reset) the path entries are two steps
      apart, the last of them is the position, and a target is two steps away
      from it. */
  ghost predicate AntInv(a: AntState, chainStart: nat, wall: array2<bool>, end: Pos)
    reads wall
  {
    && OpenRoom(wall, a.position)
    && |a.path| > 0
    && (forall k :: 0 <= k < |a.path| ==> OpenRoom(wall, a.path[k]))
    && a.moveProgress >= 0.0
    && (a.targetPosition.Some? ==> OpenRoom(wall, a.targetPosition.value) && a.moveProgress < 1.0)
    && (a.hasReachedEnd ==> a.position == end && a.targetPosition.None?)
    && chainStart <= |a.path|
    && (forall k :: chainStart <= k < |a.path| - 1 ==> Step2(a.path[k], a.path[k + 1]))
    && (chainStart < |a.path| ==>
          && a.path[|a.path| - 1] == a.position
          && (a.targetPosition.Some? ==> Step2(a.position, a.targetPosition.value)))
  }

  /** `next` is what `getNextPosition` may return for `a` when its valid
      neighbours are `ns`: nothing unless the ant needs a target; when it
      does, nothing exactly when `ns` is empty, and otherwise one of them. */
  predicate Legal(a: AntState, next: Option<Pos>, ns: seq<Pos>) {
    && (next.Some? ==> !a.hasReachedEnd && NeedsTarget(a) && next.value in ns)
    && (!a.hasReachedEnd && NeedsTarget(a) ==> (next.None? <==> ns == []))
  }

  /** `next` is the answer of `getNextPosition` for `a`, whose valid
      neighbours are `ns` with levels `levels`, on the draws `rng(at)` and
      `rng(at + 1)`: asked only when the ant needs a target, nothing when `ns` is
      empty, and otherwise `Choose`. */
  predicate Chosen(a: AntState, next: Option<Pos>, ns: seq<Pos>, levels: seq<real>,
                   rng: Random, at: nat, ratio: real)
  {
    if !a.hasReachedEnd && NeedsTarget(a) && ns != [] then
      && |levels| == |ns| && 0.0 <= rng(at + 1) < 1.0
      && next == Some(Choose(ns, levels, rng(at), rng(at + 1), ratio))
    else next.None?
  }

  /** The number of draws a tick consumes: two when `getNextPosition`
      answered with a cell, none otherwise. */
  function Consumed(next: Option<Pos>): (n: nat)
    ensures n == 0 <==> next.None?
  {
    if next.Some? then 2 else 0
  }

  /** The exact answer is a legal one. */
  lemma ChosenIsLegal(a: AntState, next: Option<Pos>, ns: seq<Pos>, levels: seq<real>,
                      rng: Random, at: nat, ratio: real)
    requires Chosen(a, next, ns, levels, rng, at, ratio)
    ensures Legal(a, next, ns)
  {
  }

  /** `Legal` for the valid neighbours of `a` in the maze `wall`. */
  ghost predicate LegalChoice(a: AntState, next: Option<Pos>, wall: array2<bool>)
    reads wall
  {
    InGrid(a.position, wall.Length1, wall.Length0) && Legal(a, next, ValidNeighbors(a.position, wall))
  }

  /** A valid neighbour of an open room is an open room two steps away. */
  lemma NeighborIsRoom(pos: Pos, q: Pos, wall: array2<bool>)
    requires wall.Length0 % 2 == 1 && wall.Length1 % 2 == 1
    requires OpenRoom(wall, pos)
    requires q in ValidNeighbors(pos, wall)
    ensures OpenRoom(wall, q) && Step2(pos, q)
  {
    assert Step2(pos, q) && Open(wall, q);
    OddStep(pos.x, q.x);
    OddStep(pos.y, q.y);
    OddBelow(q.x, wall.Length1);
    OddBelow(q.y, wall.Length0);
  }

  /** A coordinate at most two away, in steps of two, from an odd one is odd. */
  lemma OddStep(a: int, b: int)
    requires a % 2 == 1
    requires b == a || b == a + 2 || b == a - 2
    ensures b % 2 == 1
  {
    if b == a + 2 {
      assert b % 2 == (a % 2 + 2) % 2;
    } else if b == a - 2 {
      assert a == b + 2;
      assert a % 2 == (b % 2 + 2) % 2;
    }
  }

  /** An odd coordinate below an odd bound lies strictly inside it. */
  lemma OddBelow(a: int, n: int)
    requires a % 2 == 1 && n % 2 == 1 && 0 <= a < n
    ensures 0 < a < n - 1
  {
  }

  /** A legal new target keeps the invariant. */
  lemma RetargetKeepsInv(a: AntState, chainStart: nat, next: Option<Pos>, wall: array2<bool>, end: Pos)
    requires wall.Length0 % 2 == 1 && wall.Length1 % 2 == 1
    requires AntInv(a, chainStart, wall, end) && !a.hasReachedEnd
    requires LegalChoice(a, next, wall)
    ensures AntInv(Retarget(a, next), chainStart, wall, end)
  {
    if NeedsTarget(a) && next.Some? {
      NeighborIsRoom(a.position, next.value, wall);
    }
  }

  /** Moving towards the target, and settling on it, keeps the invariant. */
  lemma MoveKeepsInv(a: AntState, chainStart: nat, inc: real, wall: array2<bool>, end: Pos)
    requires AntInv(a, chainStart, wall, end) && !a.hasReachedEnd
    requires inc > 0.0
    ensures AntInv(Move(a, inc, end), chainStart, wall, end)
  {
    if a.targetPosition.Some? && a.moveProgress + inc >= 1.0 {
      var r := Move(a, inc, end);
      var k := |a.path|;
      assert r.path == a.path + [r.position];
      forall j | 0 <= j < |r.path|
        ensures OpenRoom(wall, r.path[j])
      {
        if j < k {
          assert r.path[j] == a.path[j];
        }
      }
      forall j | chainStart <= j < |r.path| - 1
        ensures Step2(r.path[j], r.path[j + 1])
      {
        if j + 1 < k {
          assert r.path[j] == a.path[j] && r.path[j + 1] == a.path[j + 1];
        }
      }
    }
  }

  /** The tick of every ant keeps its invariant. */
  lemma AdvanceKeepsInv(a: AntState, chainStart: nat, next: Option<Pos>, inc: real, wall: array2<bool>, end: Pos)
    requires wall.Length0 % 2 == 1 && wall.Length1 % 2 == 1
    requires AntInv(a, chainStart, wall, end)
    requires inc > 0.0
    requires LegalChoice(a, next, wall)
    ensures AntInv(Advance(a, next, inc, end), chainStart, wall, end)
  {
    if !a.hasReachedEnd {
      RetargetKeepsInv(a, chainStart, next, wall, end);
      MoveKeepsInv(Retarget(a, next), chainStart, inc, wall, end);
    }
  }

  /** An ant put back on the open room `start`, not arrived, with its chain
      restarting at the end of its path, keeps the invariant. */
  lemma ResetKeepsInv(a: AntState, chainStart: nat, wall: array2<bool>, start: Pos, end: Pos)
    requires AntInv(a, chainStart, wall, end)
    requires OpenRoom(wall, start)
    ensures AntInv(a.(position := start, direction := Some(Pos(0, 0)), hasReachedEnd := false), |a.path|, wall, end)
  {
  }

  /** Every ant state keeps its invariant, for its own chain index. */
  ghost predicate AllInv(ants: seq<AntState>, chainStart: seq<nat>, wall: array2<bool>, end: Pos)
    reads wall
  {
    && |chainStart| == |ants|
    && (forall i :: 0 <= i < |ants| ==> InGrid(ants[i].position, wall.Length1, wall.Length0))
    && forall i {:trigger AntInv(ants[i], chainStart[i], wall, end)} :: 0 <= i < |ants| ==>
         AntInv(ants[i], chainStart[i], wall, end)
  }

  /** The tick of ant `i` keeps the invariant of every ant, and leaves the
      ant on cells of the grid. */
  lemma TickKeepsAllInv(ants: seq<AntState>, chainStart: seq<nat>, i: nat, next: Option<Pos>, inc: real,
                        wall: array2<bool>, end: Pos)
    requires wall.Length0 % 2 == 1 && wall.Length1 % 2 == 1
    requires AllInv(ants, chainStart, wall, end) && i < |ants|
    requires inc > 0.0
    requires LegalChoice(ants[i], next, wall)
    ensures var moved := Advance(ants[i], next, inc, end);
            && AllInv(ants[i := moved], chainStart, wall, end)
            && InGrid(moved.position, wall.Length1, wall.Length0)
            && forall k :: 0 <= k < |moved.path| ==> InGrid(moved.path[k], wall.Length1, wall.Length0)
  {
    AdvanceKeepsInv(ants[i], chainStart[i], next, inc, wall, end);
  }

  /** The valid neighbours of every ant's position. */
  ghost function NeighborLists(ants: seq<AntState>, wall: array2<bool>): (r: seq<seq<Pos>>)
    requires forall j :: 0 <= j < |ants| ==> InGrid(ants[j].position, wall.Length1, wall.Length0)
    reads wall
    ensures |r| == |ants|
    ensures forall j :: 0 <= j < |ants| ==> r[j] == ValidNeighbors(ants[j].position, wall)
  {
    seq(|ants|, j requires 0 <= j < |ants| reads wall => ValidNeighbors(ants[j].position, wall))
  }

  /** The levels in `pheromone` of the valid neighbours of every ant. */
  ghost function NeighborLevels(ants: seq<AntState>, wall: array2<bool>, pheromone: array2<real>): (r: seq<seq<real>>)
    requires forall j :: 0 <= j < |ants| ==> InGrid(ants[j].position, wall.Length1, wall.Length0)
    requires pheromone.Length0 == wall.Length0 && pheromone.Length1 == wall.Length1
    reads wall, pheromone
    ensures |r| == |ants|
    ensures forall j :: 0 <= j < |ants| ==> r[j] == Levels(ValidNeighbors(ants[j].position, wall), pheromone)
  {
    seq(|ants|, j requires 0 <= j < |ants| reads wall, pheromone =>
      Levels(ValidNeighbors(ants[j].position, wall), pheromone))
  }

  /** `hi` has the shape of `lo` and is at least `lo` everywhere. */
  predicate AtLeast(lo: seq<seq<real>>, hi: seq<seq<real>>) {
    && |hi| == |lo|
    && forall j {:trigger hi[j]} :: 0 <= j < |lo| ==>
         && |hi[j]| == |lo[j]|
         && forall k :: 0 <= k < |lo[j]| ==> lo[j][k] <= hi[j][k]
  }

  /** The first `|choices|` iterations of the `step` loop, ant by ant: ant
      `j` went from `before[j]` to `after[j]` with the answer `choices[j]` of
      `getNextPosition` for its neighbours `options[j]`, the levels
      `levels[j]` it saw and the two draws of `rng` at index `drawAt[j]`,
      which it left at `drawAt[j + 1]`. Stated on the last iteration and the
      ones before it, so that each iteration adds one step. */
  ghost predicate Ticked(before: seq<AntState>, after: seq<AntState>, choices: seq<Option<Pos>>,
                         group: seq<Ant>, options: seq<seq<Pos>>, levels: seq<seq<real>>,
                         drawAt: seq<nat>, rng: Random, end: Pos)
    decreases |choices|
  {
    && |choices| <= |before| && |after| == |before| && |levels| == |choices| && |drawAt| == |choices| + 1
    && |group| >= |choices| && |options| >= |choices|
    && (|choices| > 0 ==>
          var n := |choices| - 1;
          && Ticked(before, after, choices[..n], group, options, levels[..n], drawAt[..n + 1], rng, end)
          && after[n] == Advance(before[n], choices[n], Increment(group[n]), end)
          && Chosen(before[n], choices[n], options[n], levels[n], rng, drawAt[n],
                    group[n].exploreRatio)
          && drawAt[n + 1] == drawAt[n] + Consumed(choices[n]))
  }

  /** `Ticked` looks at the ants after the loop only up to `|choices|`. */
  lemma {:induction false} TickedFrame(before: seq<AntState>, after: seq<AntState>, after': seq<AntState>,
                                       choices: seq<Option<Pos>>, group: seq<Ant>, options: seq<seq<Pos>>,
                                       levels: seq<seq<real>>, drawAt: seq<nat>, rng: Random, end: Pos)
    requires Ticked(before, after, choices, group, options, levels, drawAt, rng, end)
    requires |after'| == |after| && forall j :: 0 <= j < |choices| ==> after'[j] == after[j]
    ensures Ticked(before, after', choices, group, options, levels, drawAt, rng, end)
    decreases |choices|
  {
    if |choices| > 0 {
      var n := |choices| - 1;
      TickedFrame(before, after, after', choices[..n], group, options, levels[..n], drawAt[..n + 1], rng, end);
    }
  }

  /** One more iteration of the `step` loop: the next ant, `before[i]` with
      `i == |choices|`, ticks to `after'[i]` with the answer `choice`, having
      seen the levels `seen`, and leaves the draw index at `d`. */
  lemma TickedGrow(before: seq<AntState>, after: seq<AntState>, after': seq<AntState>,
                   choices: seq<Option<Pos>>, group: seq<Ant>, options: seq<seq<Pos>>, levels: seq<seq<real>>,
                   drawAt: seq<nat>, rng: Random, end: Pos, i: nat, choice: Option<Pos>, ant: AntState,
                   seen: seq<real>, at: nat, d: nat)
    requires Ticked(before, after, choices, group, options, levels, drawAt, rng, end)
    requires i == |choices| && i < |before| && i < |group| && i < |options|
    requires at == drawAt[i]
    requires ant == before[i]
    requires after' == after[i := Advance(ant, choice, Increment(group[i]), end)]
    requires Chosen(ant, choice, options[i], seen, rng, at, group[i].exploreRatio)
    requires d == at + Consumed(choice)
    ensures Ticked(before, after', choices + [choice], group, options, levels + [seen], drawAt + [d], rng, end)
  {
    TickedFrame(before, after, after', choices, group, options, levels, drawAt, rng, end);
    assert (choices + [choice])[..|choices|] == choices && (levels + [seen])[..|choices|] == levels;
    assert (drawAt + [d])[..|choices| + 1] == drawAt;
  }

  /** The whole `step` loop: ant `j` has made its tick with the choice
      `choices[j]`, which is the answer of `getNextPosition` for its
      neighbours `options[j]`, the levels `levels[j]` it saw and the two
      draws of `rng` at index `drawAt[j]`; each ant's draws follow those of
      the ant before it. */
  ghost predicate TickedAll(before: seq<AntState>, after: seq<AntState>, choices: seq<Option<Pos>>,
                            group: seq<Ant>, options: seq<seq<Pos>>, levels: seq<seq<real>>,
                            drawAt: seq<nat>, rng: Random, end: Pos)
  {
    && |after| == |before| && |group| == |before| && |options| == |before|
    && |choices| == |before| && |levels| == |before| && |drawAt| == |before| + 1
    && forall j {:trigger choices[j]} :: 0 <= j < |before| ==>
         && after[j] == Advance(before[j], choices[j], Increment(group[j]), end)
         && Chosen(before[j], choices[j], options[j], levels[j], rng, drawAt[j],
                   group[j].exploreRatio)
         && drawAt[j + 1] == drawAt[j] + Consumed(choices[j])
  }

  /** Every iteration recorded by `Ticked` is one of `TickedAll`'s. */
  lemma {:induction false} TickedEach(before: seq<AntState>, after: seq<AntState>, choices: seq<Option<Pos>>,
                                      group: seq<Ant>, options: seq<seq<Pos>>, levels: seq<seq<real>>,
                                      drawAt: seq<nat>, rng: Random, end: Pos)
    requires Ticked(before, after, choices, group, options, levels, drawAt, rng, end)
    ensures forall j {:trigger choices[j]} :: 0 <= j < |choices| ==>
              && after[j] == Advance(before[j], choices[j], Increment(group[j]), end)
              && Chosen(before[j], choices[j], options[j], levels[j], rng, drawAt[j],
                        group[j].exploreRatio)
              && drawAt[j + 1] == drawAt[j] + Consumed(choices[j])
    decreases |choices|
  {
    if |choices| > 0 {
      var n := |choices| - 1;
      TickedEach(before, after, choices[..n], group, options, levels[..n], drawAt[..n + 1], rng, end);
      forall j | 0 <= j < n
        ensures && after[j] == Advance(before[j], choices[j], Increment(group[j]), end)
                && Chosen(before[j], choices[j], options[j], levels[j], rng, drawAt[j],
                          group[j].exploreRatio)
                && drawAt[j + 1] == drawAt[j] + Consumed(choices[j])
      {
        assert choices[..n][j] == choices[j];
      }
    }
  }

  /** Once every ant has ticked, `Ticked` is `TickedAll`. */
  lemma TickedDone(before: seq<AntState>, after: seq<AntState>, choices: seq<Option<Pos>>,
                   group: seq<Ant>, options: seq<seq<Pos>>, levels: seq<seq<real>>,
                   drawAt: seq<nat>, rng: Random, end: Pos)
    requires Ticked(before, after, choices, group, options, levels, drawAt, rng, end)
    requires |choices| == |before| == |group| == |options|
    ensures TickedAll(before, after, choices, group, options, levels, drawAt, rng, end)
  {
    TickedEach(before, after, choices, group, options, levels, drawAt, rng, end);
  }

  /** The levels each ant of the loop so far saw, `levels`, are at least
      those of the same neighbours before the loop, `start`, and equal to
      them for the first `calm` ants. */
  ghost predicate SeenSince(start: seq<seq<real>>, levels: seq<seq<real>>, calm: nat) {
    && |levels| <= |start| && calm <= |levels|
    && forall j {:trigger levels[j]} :: 0 <= j < |levels| ==>
         && |levels[j]| == |start[j]|
         && (forall k :: 0 <= k < |start[j]| ==> start[j][k] <= levels[j][k])
         && (j < calm ==> levels[j] == start[j])
  }

  /** One more ant sees the levels `seen`; the calm prefix stays or, when
      it covered every ant so far and `seen` is what the ant would have seen
      before the loop, grows by that ant. */
  lemma SeenExtend(start: seq<seq<real>>, levels: seq<seq<real>>, calm: nat, i: nat, seen: seq<real>, calm': nat)
    requires SeenSince(start, levels, calm) && i == |levels| < |start|
    requires |seen| == |start[i]| && forall k :: 0 <= k < |seen| ==> start[i][k] <= seen[k]
    requires calm' <= calm || (calm == i && calm' == i + 1 && seen == start[i])
    ensures SeenSince(start, levels + [seen], calm')
  {
    var levels' := levels + [seen];
    forall j | 0 <= j < |levels'|
      ensures |levels'[j]| == |start[j]|
      ensures forall k :: 0 <= k < |start[j]| ==> start[j][k] <= levels'[j][k]
      ensures j < calm' ==> levels'[j] == start[j]
    {
      if j < |levels| {
        assert levels'[j] == levels[j];
      }
    }
  }

  /** The pheromone grid as a value, row by row. */
  ghost function Snapshot(pheromone: array2<real>): (g: seq<seq<real>>)
    reads pheromone
    ensures |g| == pheromone.Length0
    ensures forall y :: 0 <= y < |g| ==> |g[y]| == pheromone.Length1
    ensures forall y, x {:trigger g[y][x]} :: 0 <= y < pheromone.Length0 && 0 <= x < pheromone.Length1 ==>
              g[y][x] == pheromone[y, x]
  {
    seq(pheromone.Length0, y requires 0 <= y < pheromone.Length0 reads pheromone =>
      seq(pheromone.Length1, x requires 0 <= x < pheromone.Length1 reads pheromone => pheromone[y, x]))
  }

  /** No cell of `pheromone` is below its level in the snapshot `grid`, and
      when `same` holds every cell is at that level. */
  ghost predicate NotBelow(grid: seq<seq<real>>, pheromone: array2<real>, same: bool)
    reads pheromone
  {
    && |grid| == pheromone.Length0
    && (forall y :: 0 <= y < |grid| ==> |grid[y]| == pheromone.Length1)
    && forall y, x {:trigger pheromone[y, x]} :: 0 <= y < pheromone.Length0 && 0 <= x < pheromone.Length1 ==>
         grid[y][x] <= pheromone[y, x] && (same ==> pheromone[y, x] == grid[y][x])
  }

  /** `start[j]` lists the levels in the snapshot `grid` of the cells
      `options[j]`. */
  ghost predicate LevelsIn(start: seq<seq<real>>, grid: seq<seq<real>>, options: seq<seq<Pos>>) {
    && |start| == |options|
    && forall j {:trigger start[j]} :: 0 <= j < |start| ==>
         && |start[j]| == |options[j]|
         && forall k :: 0 <= k < |options[j]| ==>
              && 0 <= options[j][k].y < |grid| && 0 <= options[j][k].x < |grid[options[j][k].y]|
              && start[j][k] == grid[options[j][k].y][options[j][k].x]
  }

  /** Before the loop, the levels of every ant's neighbours are those of the
      snapshot of the grid. */
  lemma NeighborLevelsInSnapshot(ants: seq<AntState>, wall: array2<bool>, pheromone: array2<real>)
    requires forall j :: 0 <= j < |ants| ==> InGrid(ants[j].position, wall.Length1, wall.Length0)
    requires pheromone.Length0 == wall.Length0 && pheromone.Length1 == wall.Length1
    ensures LevelsIn(NeighborLevels(ants, wall, pheromone), Snapshot(pheromone), NeighborLists(ants, wall))
  {
    var start: seq<seq<real>> := NeighborLevels(ants, wall, pheromone);
    var grid: seq<seq<real>> := Snapshot(pheromone);
    var options: seq<seq<Pos>> := NeighborLists(ants, wall);
    forall j | 0 <= j < |start|
      ensures |start[j]| == |options[j]|
      ensures forall k :: 0 <= k < |options[j]| ==>
                && 0 <= options[j][k].y < |grid| && 0 <= options[j][k].x < |grid[options[j][k].y]|
                && start[j][k] == grid[options[j][k].y][options[j][k].x]
    {
      assert options[j] == ValidNeighbors(ants[j].position, wall);
    }
  }

  /** An ant of the loop sees, for its neighbours, levels at least those of
      the snapshot taken before the loop, and exactly those when the grid is
      still the snapshot. */
  lemma SeenAgainst(start: seq<seq<real>>, grid: seq<seq<real>>, options: seq<seq<Pos>>, i: nat,
                    pheromone: array2<real>, same: bool)
    requires LevelsIn(start, grid, options) && i < |start|
    requires NotBelow(grid, pheromone, same)
    ensures forall k :: 0 <= k < |options[i]| ==>
              0 <= options[i][k].x < pheromone.Length1 && 0 <= options[i][k].y < pheromone.Length0
    ensures var seen := Levels(options[i], pheromone);
            && |seen| == |start[i]|
            && (forall k :: 0 <= k < |seen| ==> start[i][k] <= seen[k])
            && (same ==> seen == start[i])
  {
    assert |start[i]| == |options[i]|;
    forall k | 0 <= k < |options[i]|
      ensures 0 <= options[i][k].x < pheromone.Length1 && 0 <= options[i][k].y < pheromone.Length0
    {
      assert 0 <= options[i][k].y < |grid| && 0 <= options[i][k].x < |grid[options[i][k].y]|;
    }
  }

  /** The pheromone grid, as a value, after ant `before` has ticked to
      `after`: unchanged unless the ant settled, and otherwise every cell at
      its `SettledLevel`. */
  function Deposits(g: seq<seq<real>>, before: AntState, after: AntState): (g': seq<seq<real>>)
    requires InRange(g)
    ensures InRange(g')
    ensures |g'| == |g| && forall y :: 0 <= y < |g| ==> |g'[y]| == |g[y]|
    ensures after.path == before.path ==> g' == g
    ensures forall y, x {:trigger g'[y][x]} :: 0 <= y < |g| && 0 <= x < |g[y]| && after.path != before.path ==>
              g'[y][x] == SettledLevel(g[y][x], before.position, after, Pos(x, y))
  {
    if after.path == before.path then g
    else
      seq(|g|, y requires 0 <= y < |g| =>
        seq(|g[y]|, x requires 0 <= x < |g[y]| => SettledLevel(g[y][x], before.position, after, Pos(x, y))))
  }

  /** Every level of the grid value `g` lies in [0, 1]. */
  predicate InRange(g: seq<seq<real>>) {
    forall y, x {:trigger g[y][x]} :: 0 <= y < |g| && 0 <= x < |g[y]| ==> 0.0 <= g[y][x] <= 1.0
  }

  /** The levels in the grid value `g` of the cells `ns`, in their order
      (0 for a cell outside it). */
  function GridLevels(ns: seq<Pos>, g: seq<seq<real>>): (r: seq<real>)
    ensures |r| == |ns|
    ensures forall k :: 0 <= k < |ns| && 0 <= ns[k].y < |g| && 0 <= ns[k].x < |g[ns[k].y]| ==>
              r[k] == g[ns[k].y][ns[k].x]
  {
    seq(|ns|, k requires 0 <= k < |ns| =>
      if 0 <= ns[k].y < |g| && 0 <= ns[k].x < |g[ns[k].y]| then g[ns[k].y][ns[k].x] else 0.0)
  }

  /** The pheromone grid holds exactly the levels of the value `g`. */
  ghost predicate Matches(g: seq<seq<real>>, pheromone: array2<real>)
    reads pheromone
  {
    && |g| == pheromone.Length0
    && (forall y :: 0 <= y < |g| ==> |g[y]| == pheromone.Length1)
    && forall y, x {:trigger pheromone[y, x]} :: 0 <= y < pheromone.Length0 && 0 <= x < pheromone.Length1 ==>
         pheromone[y, x] == g[y][x]
  }

  /** A value that a grid of levels in [0, 1] matches has its levels in
      [0, 1]. */
  lemma MatchesInRange(g: seq<seq<real>>, pheromone: array2<real>)
    requires Matches(g, pheromone) && PheromoneInRange(pheromone)
    ensures InRange(g)
  {
    forall y, x | 0 <= y < |g| && 0 <= x < |g[y]|
      ensures 0.0 <= g[y][x] <= 1.0
    {
      assert pheromone[y, x] == g[y][x];
    }
  }

  /** Levels read from a grid are those of a value it matches. */
  lemma LevelsMatch(ns: seq<Pos>, pheromone: array2<real>, g: seq<seq<real>>)
    requires Matches(g, pheromone)
    requires forall k :: 0 <= k < |ns| ==> 0 <= ns[k].x < pheromone.Length1 && 0 <= ns[k].y < pheromone.Length0
    ensures Levels(ns, pheromone) == GridLevels(ns, g)
  {
  }

  /** A grid whose every cell is at its level in `g`, or at its
      `SettledLevel` when an ant settled, matches `Deposits` of `g`. */
  lemma MatchesDeposits(g: seq<seq<real>>, pheromone: array2<real>, before: AntState, after: AntState, settled: bool)
    requires InRange(g)
    requires |g| == pheromone.Length0 && forall y :: 0 <= y < |g| ==> |g[y]| == pheromone.Length1
    requires settled <==> after.path != before.path
    requires forall y, x {:trigger pheromone[y, x]} :: 0 <= y < pheromone.Length0 && 0 <= x < pheromone.Length1 ==>
               pheromone[y, x] == if settled then SettledLevel(g[y][x], before.position, after, Pos(x, y)) else g[y][x]
    ensures Matches(Deposits(g, before, after), pheromone)
  {
  }

  /** The grids the ants of the loop ticked against, for its first `n`
      iterations: `grids[j]` is the one ant `j` saw, the next one adds the
      deposits ant `j` made, and the levels `levels[j]` ant `j` chose on are
      those of its neighbours `options[j]` in `grids[j]`. */
  ghost predicate GridsFollow(before: seq<AntState>, after: seq<AntState>, grids: seq<seq<seq<real>>>,
                              options: seq<seq<Pos>>, levels: seq<seq<real>>, n: nat)
  {
    && n <= |before| && n <= |after| && |grids| == n + 1 && n <= |options| && n <= |levels|
    && (forall j :: 0 <= j < n ==> GridStep(before, after, grids, j))
    && (forall j {:trigger levels[j]} :: 0 <= j < n ==> levels[j] == GridLevels(options[j], grids[j]))
  }

  /** The grid after ant `j`'s tick is the one before it with ant `j`'s
      deposits. */
  ghost predicate GridStep(before: seq<AntState>, after: seq<AntState>, grids: seq<seq<seq<real>>>, j: nat) {
    && j + 1 < |grids| && j < |before| && j < |after| && InRange(grids[j])
    && grids[j + 1] == Deposits(grids[j], before[j], after[j])
  }

  /** The cells an ant that ticked from `before` to `after` deposited on:
      none unless it settled; then its new cell, the wall cell it crossed,
      and, when it arrived, every cell of its path. */
  predicate DepositCell(before: AntState, after: AntState, p: Pos) {
    && after.path != before.path
    && (p == after.position || p == Midpoint(before.position, after.position) || (after.hasReachedEnd && p in after.path))
  }

  /** A tick changes the level only of the cells the ant deposited on. */
  lemma DepositsTouchOnly(g: seq<seq<real>>, before: AntState, after: AntState, p: Pos)
    requires InRange(g) && 0 <= p.y < |g| && 0 <= p.x < |g[p.y]|
    requires Deposits(g, before, after)[p.y][p.x] != g[p.y][p.x]
    ensures DepositCell(before, after, p)
  {
    if after.path != before.path && p != after.position && p != Midpoint(before.position, after.position) {
      assert multiset([after.position, Midpoint(before.position, after.position)])[p] == 0;
    }
  }

  /** After `j` ticks of the loop a cell is at its level before the loop
      unless one of the first `j` ants deposited on it. */
  lemma {:induction false} UnchangedUnlessDeposited(before: seq<AntState>, after: seq<AntState>,
                                                    grids: seq<seq<seq<real>>>, j: nat, p: Pos)
    requires forall m :: 0 <= m < j ==> GridStep(before, after, grids, m)
    requires j < |grids| && j <= |before| && j <= |after|
    requires 0 <= p.y < |grids[0]| && 0 <= p.x < |grids[0][p.y]|
    ensures 0 <= p.y < |grids[j]| && 0 <= p.x < |grids[j][p.y]|
    ensures grids[j][p.y][p.x] != grids[0][p.y][p.x] ==>
              exists m :: 0 <= m < j && DepositCell(before[m], after[m], p)
  {
    if j > 0 {
      UnchangedUnlessDeposited(before, after, grids, j - 1, p);
      assert GridStep(before, after, grids, j - 1);
      if grids[j][p.y][p.x] != grids[j - 1][p.y][p.x] {
        DepositsTouchOnly(grids[j - 1], before[j - 1], after[j - 1], p);
      }
    }
  }

  /** The level ant `j` of the loop saw for its neighbour `k` is the level
      before the loop unless an earlier ant of the same loop deposited on
      that cell. */
  lemma SeenUnlessDeposited(before: seq<AntState>, after: seq<AntState>, grids: seq<seq<seq<real>>>,
                            options: seq<seq<Pos>>, levels: seq<seq<real>>, n: nat, j: nat, k: nat)
    requires GridsFollow(before, after, grids, options, levels, n)
    requires j < n && k < |options[j]|
    requires 0 <= options[j][k].y < |grids[0]| && 0 <= options[j][k].x < |grids[0][options[j][k].y]|
    requires levels[j][k] != grids[0][options[j][k].y][options[j][k].x]
    ensures exists m :: 0 <= m < j && DepositCell(before[m], after[m], options[j][k])
  {
    UnchangedUnlessDeposited(before, after, grids, j, options[j][k]);
  }

  /** One more iteration: ant `n` saw `seen`, the levels of its neighbours in
      the last grid, and ticked to `after'[n]`; the ants before it are as
      they were. */
  lemma GridsGrow(before: seq<AntState>, after: seq<AntState>, after': seq<AntState>, grids: seq<seq<seq<real>>>,
                  options: seq<seq<Pos>>, levels: seq<seq<real>>, n: nat, seen: seq<real>)
    requires GridsFollow(before, after, grids, options, levels, n)
    requires n < |before| && n < |after| && n < |options| && |levels| == n && |after'| == |after|
    requires forall j :: 0 <= j < n ==> after'[j] == after[j]
    requires seen == GridLevels(options[n], grids[n]) && InRange(grids[n])
    ensures GridsFollow(before, after', grids + [Deposits(grids[n], before[n], after'[n])], options, levels + [seen], n + 1)
  {
    var grids' := grids + [Deposits(grids[n], before[n], after'[n])];
    forall j | 0 <= j < n + 1
      ensures GridStep(before, after', grids', j)
    {
      assert grids'[j] == grids[j];
      if j < n {
        assert GridStep(before, after, grids, j);
        assert grids'[j + 1] == grids[j + 1];
      }
    }
    forall j | 0 <= j < n + 1
      ensures (levels + [seen])[j] == GridLevels(options[j], grids'[j])
    {
      assert grids'[j] == grids[j];
    }
  }

  /** No ant before `j` changed its path between `before` and `after`. */
  ghost predicate NoneSettledBefore(before: seq<AntState>, after: seq<AntState>, j: nat)
    requires j <= |before| && j <= |after|
  {
    forall m :: 0 <= m < j ==> after[m].path == before[m].path
  }

  /** At the end of the loop: every ant saw at least the levels before the
      loop, and exactly those when no earlier ant had settled, given that the
      calm prefix covers all ants or ends with an ant that settled. */
  lemma SeenAtEnd(start: seq<seq<real>>, levels: seq<seq<real>>, calm: nat,
                  before: seq<AntState>, after: seq<AntState>)
    requires SeenSince(start, levels, calm) && |levels| == |start| == |before| == |after|
    requires calm == |levels| || (0 < calm && after[calm - 1].path != before[calm - 1].path)
    ensures AtLeast(start, levels)
    ensures forall j {:trigger levels[j]} :: 0 <= j < |levels| && NoneSettledBefore(before, after, j) ==>
              levels[j] == start[j]
  {
    forall j | 0 <= j < |levels| && NoneSettledBefore(before, after, j)
      ensures levels[j] == start[j]
    {
      if calm <= j {
        assert false;
      }
    }
  }

  /** The cell halfway between two cells of the grid is in the grid. */
  lemma MidpointInGrid(a: Pos, b: Pos, width: int, height: int)
    requires InGrid(a, width, height) && InGrid(b, width, height)
    ensures InGrid(Midpoint(a, b), width, height)
  {
  }

  // ---------------------------------------------------------------------
  // Views

  datatype Point = Point(x: real, y: real)

  /** The record `getAnts` hands out for one ant: the state with its
      position replaced by the point drawn on screen. */
  datatype AntView = AntView(position: Point, path: seq<Pos>, hasReachedEnd: bool, moveProgress: real,
                             targetPosition: Option<Pos>, direction: Option<Pos>)

  function AsPoint(p: Pos): Point {
    Point(p.x as real, p.y as real)
  }

  /** An ant as drawn: during a move, `position + (target - position) *
      progress`; otherwise its settled position. */
  function View(a: AntState): (v: AntView)
    ensures v.path == a.path && v.hasReachedEnd == a.hasReachedEnd && v.moveProgress == a.moveProgress
    ensures v.targetPosition == a.targetPosition && v.direction == a.direction
    ensures !(a.targetPosition.Some? && a.moveProgress < 1.0) ==> v.position == AsPoint(a.position)
    ensures a.targetPosition.Some? && a.moveProgress == 0.0 ==> v.position == AsPoint(a.position)
  {
    var p :=
      if a.targetPosition.Some? && a.moveProgress < 1.0 then
        var t := a.targetPosition.value;
        Point(a.position.x as real + (t.x - a.position.x) as real * a.moveProgress,
              a.position.y as real + (t.y - a.position.y) as real * a.moveProgress)
      else AsPoint(a.position);
    AntView(p, a.path, a.hasReachedEnd, a.moveProgress, a.targetPosition, a.direction)
  }

  /** `lo <= v <= hi` for the two ends given in either order. */
  predicate Between(v: real, a: real, b: real) {
    (a <= v <= b) || (b <= v <= a)
  }

  /** During a move the drawn point lies on the segment from the position to
      the target; for a two-step move it is on the axis of the move. */
  lemma ViewOnSegment(a: AntState)
    requires a.targetPosition.Some? && 0.0 <= a.moveProgress < 1.0
    ensures Between(View(a).position.x, a.position.x as real, a.targetPosition.value.x as real)
    ensures Between(View(a).position.y, a.position.y as real, a.targetPosition.value.y as real)
    ensures a.position.x == a.targetPosition.value.x ==> View(a).position.x == a.position.x as real
    ensures a.position.y == a.targetPosition.value.y ==> View(a).position.y == a.position.y as real
  {
    var t := a.targetPosition.value;
    Interpolate(a.position.x as real, t.x as real, a.moveProgress);
    Interpolate(a.position.y as real, t.y as real, a.moveProgress);
  }

  /** `p + (t - p) * g` lies between `p` and `t` for `0 <= g < 1`, and is `p`
      when `p == t`. */
  lemma Interpolate(p: real, t: real, g: real)
    requires 0.0 <= g < 1.0
    ensures Between(p + (t - p) * g, p, t)
    ensures p == t ==> p + (t - p) * g == p
  {
    var d := t - p;
    if d >= 0.0 {
      ProductNonnegative(d, g);
      ProductNonnegative(d, 1.0 - g);
    } else {
      ProductNonnegative(-d, g);
      ProductNonnegative(-d, 1.0 - g);
    }
    assert d * (1.0 - g) == d - d * g;
    assert (-d) * g == -(d * g);
    assert (-d) * (1.0 - g) == d * g - d;
  }

  lemma ProductNonnegative(a: real, b: real)
    requires a >= 0.0 && b >= 0.0
    ensures a * b >= 0.0
  {
  }

  /** `ants.map(...)` of `getAnts`. */
  function Views(ants: seq<AntState>): (r: seq<AntView>)
    ensures |r| == |ants|
    ensures forall i :: 0 <= i < |ants| ==> r[i] == View(ants[i])
  {
    if ants == [] then [] else [View(ants[0])] + Views(ants[1..])
  }

  /** The ghost state of the `step` loop: the ants `before` it and the
      index `draws0` of the next draw then, the snapshot `grid` of the
      pheromone and the levels `start` each ant's neighbours `options` had
      then; the choices, levels seen and draw indices recorded so far;
      whether no ant has settled yet (`quiet`), which one settled first
      (`culprit`), and the length of the prefix of ants that saw exactly the
      levels of before the loop (`calm`); and the grids the ants ticked against so far (`grids`). */
  datatype LoopState = LoopState(before: seq<AntState>, draws0: nat, grid: seq<seq<real>>, start: seq<seq<real>>,
                                 options: seq<seq<Pos>>, choices: seq<Option<Pos>>, levels: seq<seq<real>>,
                                 drawAt: seq<nat>, quiet: bool, culprit: nat, calm: nat, grids: seq<seq<seq<real>>>)

  /** The loop state after ant `i` ticks with the answer `choice`, having
      seen `seen` and left the draws at `d`, settling or not, and leaving
      the grid `g'`. */
  function Grown(st: LoopState, i: nat, choice: Option<Pos>, seen: seq<real>, d: nat, settled: bool, calm': nat,
                 g': seq<seq<real>>): (st': LoopState)
    ensures st'.before == st.before && st'.draws0 == st.draws0 && st'.grid == st.grid
    ensures st'.start == st.start && st'.options == st.options
    ensures st'.choices == st.choices + [choice] && st'.levels == st.levels + [seen] && st'.drawAt == st.drawAt + [d]
    ensures st'.quiet == (st.quiet && !settled) && st'.calm == calm'
    ensures st'.culprit == if st.quiet && settled then i else st.culprit
    ensures st'.grids == st.grids + [g']
  {
    st.(choices := st.choices + [choice], levels := st.levels + [seen], drawAt := st.drawAt + [d],
        quiet := st.quiet && !settled, culprit := if st.quiet && settled then i else st.culprit, calm := calm',
        grids := st.grids + [g'])
  }

  /** Whether at least one ant has arrived. */
  function AnyReached(ants: seq<AntState>): (r: bool)
    ensures r <==> exists i :: 0 <= i < |ants| && ants[i].hasReachedEnd
  {
    if ants == [] then false
    else
      var rest := AnyReached(ants[1..]);
      assert rest ==> exists i :: 0 <= i < |ants| && ants[i].hasReachedEnd by {
        if rest {
          var i :| 0 <= i < |ants[1..]| && ants[1..][i].hasReachedEnd;
          assert ants[i + 1].hasReachedEnd;
        }
      }
      ants[0].hasReachedEnd || rest
  }

  // ---------------------------------------------------------------------
  // The colony

  class AntColonyOptimization {
    const maze: Maze
    const antGroup: AntGroup
    /** The stream `Math.random()` draws from, and the index of the next draw. */
    const rng: Random
    var draws: nat
    var ants: seq<AntState>
    /** Per ant, the length of its path at the last reset (0 before any). */
    ghost var chainStart: seq<nat>

    /** One state and one chain index per ant profile, each state keeping
        its invariant. */
    ghost predicate AntsValid()
      reads this`ants, this`chainStart, maze.wall
    {
      |ants| == |antGroup.ants| && AllInv(ants, chainStart, maze.wall, maze.end)
    }

    /** What never changes once the colony is built: a valid maze with an
        open start, and a valid stream of draws. */
    ghost predicate Fixed()
      reads maze.wall
    {
      && maze.Valid()
      && Open(maze.wall, maze.start)
      && ValidRandom(rng)
    }

    ghost predicate Valid()
      reads this`ants, this`chainStart, maze.wall, maze.pheromone
    {
      && Fixed()
      && PheromoneInRange(maze.pheromone)
      && AntsValid()
    }

    /** Builds the colony: one fresh state per ant of the group, at the start
        of the maze. */
    constructor (maze: Maze, antGroup: AntGroup, rng: Random)
      requires maze.Valid() && Open(maze.wall, maze.start)
      requires PheromoneInRange(maze.pheromone)
      requires ValidRandom(rng)
      ensures this.maze == maze && this.antGroup == antGroup && this.rng == rng && draws == 0
      ensures ants == InitialAnts(|antGroup.ants|, maze.start)
      ensures Valid()
    {
      this.maze := maze;
      this.antGroup := antGroup;
      this.rng := rng;
      draws := 0;
      ants := InitialAnts(|antGroup.ants|, maze.start);
      chainStart := seq(|antGroup.ants|, _ => 0);
    }

    /** `getNextPosition`: nothing when the ant has no valid neighbour;
        otherwise one draw decides between exploring (a uniformly drawn
        neighbour) and following the pheromone (a drawn neighbour among those
        of maximal level), and a second draw picks the neighbour. */
    method GetNextPosition(i: nat) returns (next: Option<Pos>)
      requires Fixed()
      requires i < |ants| && i < |antGroup.ants| && InGrid(ants[i].position, maze.width, maze.height)
      modifies this`draws
      ensures var ns := ValidNeighbors(ants[i].position, maze.wall);
              next == if ns == [] then None
                      else Some(Choose(ns, Levels(ns, maze.pheromone), rng(old(draws)), rng(old(draws) + 1),
                                       antGroup.ants[i].exploreRatio))
      ensures draws == old(draws) + Consumed(next)
    {
      var neighbors := ValidNeighbors(ants[i].position, maze.wall);
      if |neighbors| == 0 {
        return None;
      }
      var exploreChance := rng(draws);
      var pick := rng(draws + 1);
      draws := draws + 2;
      var pheromoneValues := Levels(neighbors, maze.pheromone);
      next := Some(Choose(neighbors, pheromoneValues, exploreChance, pick, antGroup.ants[i].exploreRatio));
    }

    /** `depositPheromone`: each listed cell receives `0.5 / |cells|`, capped
        at 1; a cell listed `c` times receives `c` capped shares. */
    method DepositPheromone(cells: seq<Pos>)
      requires Fixed() && PheromoneInRange(maze.pheromone)
      requires forall k :: 0 <= k < |cells| ==> InGrid(cells[k], maze.width, maze.height)
      modifies maze.pheromone
      ensures PheromoneInRange(maze.pheromone)
      ensures forall y, x {:trigger maze.pheromone[y, x]} :: 0 <= y < maze.height && 0 <= x < maze.width ==>
                maze.pheromone[y, x] ==
                Deposited(old(maze.pheromone[y, x]), multiset(cells)[Pos(x, y)], Share(|cells|))
    {
      var deposit := Share(|cells|);
      var k := 0;
      while k < |cells|
        invariant 0 <= k <= |cells|
        invariant forall y, x {:trigger maze.pheromone[y, x]} :: 0 <= y < maze.height && 0 <= x < maze.width ==>
                    maze.pheromone[y, x] ==
                    Deposited(old(maze.pheromone[y, x]), multiset(cells[..k])[Pos(x, y)], deposit)
      {
        var pos := cells[k];
        assert cells[..k + 1] == cells[..k] + [pos];
        DepositedStep(old(maze.pheromone[pos.y, pos.x]), multiset(cells[..k])[pos], deposit);
        maze.pheromone[pos.y, pos.x] := maze.pheromone[pos.y, pos.x] + deposit;
        if maze.pheromone[pos.y, pos.x] > 1.0 {
          maze.pheromone[pos.y, pos.x] := 1.0;
        }
        k := k + 1;
      }
      assert cells[..k] == cells;
    }

    /** `evaporatePheromone`: every cell's level is multiplied by 0.98. */
    method EvaporatePheromone()
      requires Fixed()
      modifies maze.pheromone
      ensures forall y, x {:trigger maze.pheromone[y, x]} :: 0 <= y < maze.height && 0 <= x < maze.width ==>
                maze.pheromone[y, x] == old(maze.pheromone[y, x]) * (1.0 - EvaporationRate)
    {
      var y := 0;
      while y < maze.height
        invariant 0 <= y <= maze.height
        invariant forall y', x {:trigger maze.pheromone[y', x]} :: 0 <= y' < maze.height && 0 <= x < maze.width ==>
                    maze.pheromone[y', x] ==
                    if y' < y then old(maze.pheromone[y', x]) * (1.0 - EvaporationRate) else old(maze.pheromone[y', x])
      {
        var x := 0;
        while x < maze.width
          invariant 0 <= x <= maze.width
          invariant forall y', x' {:trigger maze.pheromone[y', x']} ::
                      0 <= y' < maze.height && 0 <= x' < maze.width ==>
                      maze.pheromone[y', x'] ==
                      if y' < y || (y' == y && x' < x) then old(maze.pheromone[y', x']) * (1.0 - EvaporationRate)
                      else old(maze.pheromone[y', x'])
        {
          maze.pheromone[y, x] := maze.pheromone[y, x] * (1.0 - EvaporationRate);
          x := x + 1;
        }
        y := y + 1;
      }
    }

    /** The body of the `step` loop for an ant that has not arrived: a new
        target when one is needed, the tick, and on settling the deposits on
        the new cell and the wall cell crossed, plus one along the whole path
        when the new cell is the end. */
    method StepAnt(i: nat, ghost ns: seq<Pos>) returns (ghost choice: Option<Pos>)
      requires Valid() && i < |ants| && !ants[i].hasReachedEnd
      requires ns == ValidNeighbors(ants[i].position, maze.wall)
      modifies this`ants, this`draws, maze.pheromone
      ensures Valid()
      ensures ants == old(ants)[i := Advance(old(ants[i]), choice, Increment(antGroup.ants[i]), maze.end)]
      ensures Chosen(old(ants[i]), choice, ns, old(Levels(ns, maze.pheromone)), rng, old(draws),
                     antGroup.ants[i].exploreRatio)
      ensures draws == old(draws) + Consumed(choice)
      ensures forall y, x {:trigger maze.pheromone[y, x]} :: 0 <= y < maze.height && 0 <= x < maze.width ==>
                old(maze.pheromone[y, x]) <= maze.pheromone[y, x]
      ensures ants[i].path == old(ants[i].path) ==>
                forall y, x {:trigger maze.pheromone[y, x]} :: 0 <= y < maze.height && 0 <= x < maze.width ==>
                  maze.pheromone[y, x] == old(maze.pheromone[y, x])
      ensures ants[i].path != old(ants[i].path) ==>
                forall y, x {:trigger maze.pheromone[y, x]} :: 0 <= y < maze.height && 0 <= x < maze.width ==>
                  maze.pheromone[y, x] == SettledLevel(old(maze.pheromone[y, x]), old(ants[i]).position, ants[i], Pos(x, y))
    {
      var ant := ants[i];
      choice := AdvanceAnt(i, ns);
      if ants[i].path != ant.path {
        Settle(ant.position, ants[i]);
      }
    }

    /** The movement half of the `step` loop's body: a new target when one
        is needed, then the tick of ant `i`; the ants keep their invariant. */
    method AdvanceAnt(i: nat, ghost ns: seq<Pos>) returns (ghost choice: Option<Pos>)
      requires Valid() && i < |ants| && !ants[i].hasReachedEnd
      requires ns == ValidNeighbors(ants[i].position, maze.wall)
      modifies this`ants, this`draws
      ensures Valid()
      ensures ants == old(ants)[i := Advance(old(ants[i]), choice, Increment(antGroup.ants[i]), maze.end)]
      ensures Chosen(old(ants[i]), choice, ns, Levels(ns, maze.pheromone), rng, old(draws),
                     antGroup.ants[i].exploreRatio)
      ensures draws == old(draws) + Consumed(choice)
      ensures InGrid(old(ants[i]).position, maze.width, maze.height)
      ensures InGrid(ants[i].position, maze.width, maze.height)
      ensures forall k :: 0 <= k < |ants[i].path| ==> InGrid(ants[i].path[k], maze.width, maze.height)
    {
      var ant := ants[i];
      var antType := antGroup.ants[i];
      var nextPosition := NextTarget(i);
      choice := nextPosition;
      var moved := Advance(ant, nextPosition, Increment(antType), maze.end);
      TickKeepsAllInv(ants, chainStart, i, nextPosition, Increment(antType), maze.wall, maze.end);
      ants := ants[i := moved];
    }

    /** The consultation of `getNextPosition` at the start of an ant's tick,
        made only when the ant needs a target. */
    method NextTarget(i: nat) returns (next: Option<Pos>)
      requires Valid() && i < |ants| && !ants[i].hasReachedEnd
      modifies this`draws
      ensures LegalChoice(ants[i], next, maze.wall)
      ensures var ns := ValidNeighbors(ants[i].position, maze.wall);
              Chosen(ants[i], next, ns, Levels(ns, maze.pheromone), rng, old(draws),
                     antGroup.ants[i].exploreRatio)
      ensures draws == old(draws) + Consumed(next)
    {
      assert AntInv(ants[i], chainStart[i], maze.wall, maze.end);
      next := None;
      if NeedsTarget(ants[i]) {
        next := GetNextPosition(i);
        assert next.Some? ==> next.value in ValidNeighbors(ants[i].position, maze.wall);
      }
    }

    /** The deposits of an ant that has just settled on `moved.position`
        coming from `from`: a share of 0.25 on the new cell and on the wall
        cell crossed (halfway, exact since both ends have odd coordinates),
        then, when it has arrived, a share of `0.5 / |path|` on every cell of
        its path. */
    method Settle(from: Pos, moved: AntState)
      requires Fixed() && PheromoneInRange(maze.pheromone)
      requires InGrid(from, maze.width, maze.height) && InGrid(moved.position, maze.width, maze.height)
      requires forall k :: 0 <= k < |moved.path| ==> InGrid(moved.path[k], maze.width, maze.height)
      modifies maze.pheromone
      ensures PheromoneInRange(maze.pheromone)
      ensures forall y, x {:trigger maze.pheromone[y, x]} :: 0 <= y < maze.height && 0 <= x < maze.width ==>
                maze.pheromone[y, x] == SettledLevel(old(maze.pheromone[y, x]), from, moved, Pos(x, y))
    {
      var intermediate := Midpoint(from, moved.position);
      MidpointInGrid(from, moved.position, maze.width, maze.height);
      DepositPheromone([moved.position, intermediate]);
      if moved.hasReachedEnd {
        DepositPheromone(moved.path);
      }
    }

    /** One iteration of the `step` loop: ant `i` ticks unless it has
        arrived, with the answer `choice` of `getNextPosition` for its
        neighbours `ns` and their levels on entry; `settled` says whether it
        settled on a new cell, which is when the pheromone may change. */
    method TickAt(i: nat, ghost ns: seq<Pos>) returns (ghost choice: Option<Pos>, ghost settled: bool)
      requires Valid() && i < |ants|
      requires ns == ValidNeighbors(ants[i].position, maze.wall)
      modifies this`ants, this`draws, maze.pheromone
      ensures Valid()
      ensures ants == old(ants)[i := Advance(old(ants[i]), choice, Increment(antGroup.ants[i]), maze.end)]
      ensures Chosen(old(ants[i]), choice, ns, old(Levels(ns, maze.pheromone)), rng, old(draws),
                     antGroup.ants[i].exploreRatio)
      ensures draws == old(draws) + Consumed(choice)
      ensures forall y, x {:trigger maze.pheromone[y, x]} :: 0 <= y < maze.height && 0 <= x < maze.width ==>
                old(maze.pheromone[y, x]) <= maze.pheromone[y, x]
      ensures settled <==> ants[i].path != old(ants[i].path)
      ensures !settled ==>
                forall y, x {:trigger maze.pheromone[y, x]} :: 0 <= y < maze.height && 0 <= x < maze.width ==>
                  maze.pheromone[y, x] == old(maze.pheromone[y, x])
      ensures settled ==>
                forall y, x {:trigger maze.pheromone[y, x]} :: 0 <= y < maze.height && 0 <= x < maze.width ==>
                  maze.pheromone[y, x] == SettledLevel(old(maze.pheromone[y, x]), old(ants[i]).position, ants[i], Pos(x, y))
    {
      choice := None;
      if !ants[i].hasReachedEnd {
        choice := StepAnt(i, ns);
      } else {
        assert ants[i := Advance(ants[i], None, Increment(antGroup.ants[i]), maze.end)] == ants;
      }
      settled := ants[i].path != old(ants[i].path);
    }

    /** The loop state `st` of `step` once the ants recorded in
        `st.choices` have ticked: the record `Ticked` of those ticks from the
        ants `st.before` the loop, the other ants unchanged, the draws made
        since index `st.draws0`, the levels seen against those of the
        neighbours before the loop (`st.start`), and no cell below the
        snapshot `st.grid` of the pheromone before the loop; while `st.quiet`,
        no ant has settled and the grid is still the snapshot; otherwise ant
        `st.culprit` settled. */
    ghost predicate Progress(st: LoopState)
      reads this`ants, this`draws, this`chainStart, maze.wall, maze.pheromone
    {
      && Ticking(st)
      && GridsOK(st.before, st.grids, st.grid, st.options, st.levels, |st.choices|)
    }

    /** The part of `Progress` about the ants, the draws and the levels seen. */
    ghost predicate Ticking(st: LoopState)
      reads this`ants, this`draws, this`chainStart, maze.wall, maze.pheromone
    {
      && Valid()
      && |ants| == |st.before| == |st.options| && |st.choices| <= |ants|
      && Ticked(st.before, ants, st.choices, antGroup.ants, st.options, st.levels, st.drawAt, rng, maze.end)
      && (forall j :: |st.choices| <= j < |ants| ==> ants[j] == st.before[j])
      && st.drawAt[0] == st.draws0 && st.drawAt[|st.choices|] == draws && draws >= st.draws0
      && SeenSince(st.start, st.levels, st.calm)
      && st.calm == (if st.quiet then |st.choices| else st.culprit + 1)
      && NotBelow(st.grid, maze.pheromone, st.quiet)
      && (!st.quiet ==> st.culprit < |st.choices| && ants[st.culprit].path != st.before[st.culprit].path)
    }

    /** The grids part of the loop's state after `n` iterations: the grids
        the ants ticked against follow each other from the snapshot `grid`,
        and the last one is the pheromone grid now. */
    ghost predicate GridsOK(before: seq<AntState>, grids: seq<seq<seq<real>>>, grid: seq<seq<real>>,
                            options: seq<seq<Pos>>, levels: seq<seq<real>>, n: nat)
      reads this`ants, maze.pheromone
    {
      && GridsFollow(before, ants, grids, options, levels, n)
      && grids[0] == grid
      && Matches(grids[n], maze.pheromone)
    }

    /** The loop's state after one more tick, from the facts that tick
        establishes: the record extended by it, the ants after it unchanged,
        the draws it used, the levels it saw, and the grid and the ant that
        settled first. */
    lemma ProgressGrow(st: LoopState)
      requires Valid()
      requires |ants| == |st.before| == |st.options| && 0 < |st.choices| <= |ants|
      requires Ticked(st.before, ants, st.choices, antGroup.ants, st.options, st.levels, st.drawAt, rng, maze.end)
      requires forall j :: |st.choices| <= j < |ants| ==> ants[j] == st.before[j]
      requires st.drawAt[0] == st.draws0 && st.drawAt[|st.choices|] == draws && draws >= st.draws0
      requires SeenSince(st.start, st.levels, st.calm)
      requires st.calm == (if st.quiet then |st.choices| else st.culprit + 1)
      requires NotBelow(st.grid, maze.pheromone, st.quiet)
      requires !st.quiet ==> st.culprit < |st.choices| && ants[st.culprit].path != st.before[st.culprit].path
      ensures Ticking(st)
    {
    }

    /** The bookkeeping of one iteration of the `step` loop: from the loop's
        state `st` before the tick of ant `i` (`was` records that it held),
        the facts that tick establishes and the levels `seen` it saw, the
        loop's state after it. */
    twostate lemma Recorded(new i: nat, st: LoopState, new seen: seq<real>, new calm': nat, new choice: Option<Pos>,
                            new settled: bool, new was: bool, new g': seq<seq<real>>)
      requires was == old(Ticking(st))
      requires was
      requires i == |st.choices| < |st.before|
      requires SeenSince(st.start, st.levels + [seen], calm') && calm' == (if st.quiet then i + 1 else st.calm)
      requires Valid()
      requires ants == old(ants)[i := Advance(old(ants[i]), choice, Increment(antGroup.ants[i]), maze.end)]
      requires Chosen(old(ants[i]), choice, st.options[i], seen, rng, old(draws), antGroup.ants[i].exploreRatio)
      requires draws == old(draws) + Consumed(choice)
      requires forall y, x {:trigger maze.pheromone[y, x]} :: 0 <= y < maze.height && 0 <= x < maze.width ==>
                 old(maze.pheromone[y, x]) <= maze.pheromone[y, x]
      requires settled <==> ants[i].path != old(ants[i].path)
      requires !settled ==>
                 forall y, x {:trigger maze.pheromone[y, x]} :: 0 <= y < maze.height && 0 <= x < maze.width ==>
                   maze.pheromone[y, x] == old(maze.pheromone[y, x])
      ensures Ticking(Grown(st, i, choice, seen, draws, settled, calm', g'))
    {
      TickedGrow(st.before, old(ants), ants, st.choices, antGroup.ants, st.options, st.levels, st.drawAt, rng,
                 maze.end, i, choice, old(ants[i]), seen, old(draws), draws);
      ProgressGrow(Grown(st, i, choice, seen, draws, settled, calm', g'));
    }

    /** The grids part of the loop's state after the tick of ant `i`, which
        saw `seen` and settled or not, from the one before it. */
    twostate lemma GridsRecorded(new i: nat, st: LoopState, new seen: seq<real>, new settled: bool, new was: bool,
                                 new st': LoopState)
      requires was == old(GridsOK(st.before, st.grids, st.grid, st.options, st.levels, |st.choices|))
      requires was
      requires i == |st.choices| < |st.before| && i < |st.options| && |st.levels| == i
      requires old(|ants|) == |ants| && i < |ants| && st.before[i] == old(ants[i])
      requires forall j :: 0 <= j < |ants| && j != i ==> ants[j] == old(ants[j])
      requires seen == GridLevels(st.options[i], st.grids[i])
      requires maze.pheromone.Length0 == maze.height && maze.pheromone.Length1 == maze.width
      requires old(PheromoneInRange(maze.pheromone))
      requires settled <==> ants[i].path != old(ants[i].path)
      requires !settled ==>
                 forall y, x {:trigger maze.pheromone[y, x]} :: 0 <= y < maze.height && 0 <= x < maze.width ==>
                   maze.pheromone[y, x] == old(maze.pheromone[y, x])
      requires settled ==>
                 forall y, x {:trigger maze.pheromone[y, x]} :: 0 <= y < maze.height && 0 <= x < maze.width ==>
                   maze.pheromone[y, x] == SettledLevel(old(maze.pheromone[y, x]), old(ants[i]).position, ants[i], Pos(x, y))
      requires st'.before == st.before && st'.grid == st.grid && st'.options == st.options
      requires InRange(st.grids[i]) && st'.grids == st.grids + [Deposits(st.grids[i], st.before[i], ants[i])]
      requires st'.levels == st.levels + [seen] && |st'.choices| == i + 1
      ensures GridsOK(st'.before, st'.grids, st'.grid, st'.options, st'.levels, |st'.choices|)
    {
      GridsGrow(st.before, old(ants), ants, st.grids, st.options, st.levels, i, seen);
      MatchesDeposits(st.grids[i], maze.pheromone, st.before[i], ants[i], settled);
    }

    /** The whole loop's state after the tick of ant `i`, from its two parts
        before it (`was` and `wasGrids` record that they held) and the facts
        that tick establishes. */
    twostate lemma Advanced(new i: nat, st: LoopState, new seen: seq<real>, new calm': nat, new choice: Option<Pos>,
                            new settled: bool, new was: bool, new wasGrids: bool, new st': LoopState)
      requires was == old(Ticking(st)) && was
      requires wasGrids == old(GridsOK(st.before, st.grids, st.grid, st.options, st.levels, |st.choices|)) && wasGrids
      requires i == |st.choices| < |st.before|
      requires SeenSince(st.start, st.levels + [seen], calm') && calm' == (if st.quiet then i + 1 else st.calm)
      requires Valid() && old(PheromoneInRange(maze.pheromone))
      requires ants == old(ants)[i := Advance(old(ants[i]), choice, Increment(antGroup.ants[i]), maze.end)]
      requires Chosen(old(ants[i]), choice, st.options[i], seen, rng, old(draws), antGroup.ants[i].exploreRatio)
      requires draws == old(draws) + Consumed(choice)
      requires seen == GridLevels(st.options[i], st.grids[i]) && InRange(st.grids[i])
      requires forall y, x {:trigger maze.pheromone[y, x]} :: 0 <= y < maze.height && 0 <= x < maze.width ==>
                 old(maze.pheromone[y, x]) <= maze.pheromone[y, x]
      requires settled <==> ants[i].path != old(ants[i].path)
      requires !settled ==>
                 forall y, x {:trigger maze.pheromone[y, x]} :: 0 <= y < maze.height && 0 <= x < maze.width ==>
                   maze.pheromone[y, x] == old(maze.pheromone[y, x])
      requires settled ==>
                 forall y, x {:trigger maze.pheromone[y, x]} :: 0 <= y < maze.height && 0 <= x < maze.width ==>
                   maze.pheromone[y, x] == SettledLevel(old(maze.pheromone[y, x]), old(ants[i]).position, ants[i], Pos(x, y))
      requires st' == Grown(st, i, choice, seen, draws, settled, calm', Deposits(st.grids[i], st.before[i], ants[i]))
      ensures Progress(st')
    {
      GridsRecorded(i, st, seen, settled, wasGrids, st');
      Recorded(i, st, seen, calm', choice, settled, was, Deposits(st.grids[i], st.before[i], ants[i]));
      ProgressOf(st');
    }

    /** One iteration of the `step` loop with its bookkeeping: ant `i`, the
        next one after those recorded in `st.choices`, ticks, seeing the
        levels of its neighbours `st.options[i]`, and the loop's state grows
        by that tick. */
    method TickNext(i: nat, ghost st: LoopState) returns (ghost st': LoopState)
      requires Progress(st)
      requires i == |st.choices| < |ants|
      requires LevelsIn(st.start, st.grid, st.options)
      requires st.options[i] == ValidNeighbors(st.before[i].position, maze.wall)
      modifies this`ants, this`draws, maze.pheromone
      ensures Progress(st')
      ensures st'.before == st.before && st'.draws0 == st.draws0 && st'.grid == st.grid
      ensures st'.start == st.start && st'.options == st.options && |st'.choices| == i + 1
    {
      SeenAgainst(st.start, st.grid, st.options, i, maze.pheromone, st.quiet);
      ghost var seen := Levels(st.options[i], maze.pheromone);
      LevelsMatch(st.options[i], maze.pheromone, st.grids[i]);
      MatchesInRange(st.grids[i], maze.pheromone);
      ghost var calm' := if st.quiet then i + 1 else st.calm;
      SeenExtend(st.start, st.levels, st.calm, i, seen, calm');
      ghost var was := Ticking(st);
      ghost var wasGrids := GridsOK(st.before, st.grids, st.grid, st.options, st.levels, |st.choices|);
      ghost var choice, settled := TickAt(i, st.options[i]);
      st' := Grown(st, i, choice, seen, draws, settled, calm', Deposits(st.grids[i], st.before[i], ants[i]));
      Advanced(i, st, seen, calm', choice, settled, was, wasGrids, st');
    }

    /** `Progress` from its two parts. */
    lemma ProgressOf(st: LoopState)
      requires Ticking(st)
      requires GridsOK(st.before, st.grids, st.grid, st.options, st.levels, |st.choices|)
      ensures Progress(st)
    {
    }

    /** Before the loop nothing is recorded yet: no tick, no levels, the
        draw index where it stands and the grid equal to its snapshot. */
    lemma LoopStart(grid: seq<seq<real>>, start: seq<seq<real>>, options: seq<seq<Pos>>)
      requires Valid()
      requires options == NeighborLists(ants, maze.wall) && grid == Snapshot(maze.pheromone)
      ensures Progress(LoopState(ants, draws, grid, start, options, [], [], [draws], true, 0, 0, [grid]))
    {
    }

    /** When the loop has recorded every ant, its state gives what `step`'s
        loop promises: the ticks of all ants, the draws they used, the levels
        they saw against those before the loop, and a grid that is nowhere
        below the snapshot `grid` and equal to it when no ant settled. */
    lemma LoopDone(st: LoopState)
      requires Progress(st)
      requires |st.choices| == |ants| && |st.start| == |ants|
      ensures TickedAll(st.before, ants, st.choices, antGroup.ants, st.options, st.levels, st.drawAt, rng, maze.end)
      ensures st.drawAt[0] == st.draws0 && st.drawAt[|ants|] == draws && draws >= st.draws0
      ensures AtLeast(st.start, st.levels)
      ensures forall j {:trigger st.levels[j]} :: 0 <= j < |ants| && NoneSettledBefore(st.before, ants, j) ==>
                st.levels[j] == st.start[j]
      ensures forall y, x {:trigger maze.pheromone[y, x]} :: 0 <= y < maze.height && 0 <= x < maze.width ==>
                st.grid[y][x] <= maze.pheromone[y, x]
      ensures (forall j :: 0 <= j < |ants| ==> ants[j].path == st.before[j].path) ==>
                forall y, x {:trigger maze.pheromone[y, x]} :: 0 <= y < maze.height && 0 <= x < maze.width ==>
                  maze.pheromone[y, x] == st.grid[y][x]
      ensures GridsFollow(st.before, ants, st.grids, st.options, st.levels, |ants|)
      ensures st.grids[0] == st.grid && Matches(st.grids[|ants|], maze.pheromone)
    {
      TickedDone(st.before, ants, st.choices, antGroup.ants, st.options, st.levels, st.drawAt, rng, maze.end);
      SeenAtEnd(st.start, st.levels, st.calm, st.before, ants);
    }

    /** A grid nowhere below the snapshot taken before the call, and equal
        to it when no ant changed its path, compared with the grid before
        the call. */
    twostate lemma PheromoneSince(new grid: seq<seq<real>>, new before: seq<AntState>)
      requires maze.pheromone.Length0 == maze.height && maze.pheromone.Length1 == maze.width
      requires grid == old(Snapshot(maze.pheromone)) && before == old(ants) && |ants| == |before|
      requires forall y, x {:trigger maze.pheromone[y, x]} :: 0 <= y < maze.height && 0 <= x < maze.width ==>
                 grid[y][x] <= maze.pheromone[y, x]
      requires (forall j :: 0 <= j < |ants| ==> ants[j].path == before[j].path) ==>
                 forall y, x {:trigger maze.pheromone[y, x]} :: 0 <= y < maze.height && 0 <= x < maze.width ==>
                   maze.pheromone[y, x] == grid[y][x]
      ensures forall y, x {:trigger maze.pheromone[y, x]} :: 0 <= y < maze.height && 0 <= x < maze.width ==>
                old(maze.pheromone[y, x]) <= maze.pheromone[y, x]
      ensures (forall j :: 0 <= j < |ants| ==> ants[j].path == old(ants[j].path)) ==>
                forall y, x {:trigger maze.pheromone[y, x]} :: 0 <= y < maze.height && 0 <= x < maze.width ==>
                  maze.pheromone[y, x] == old(maze.pheromone[y, x])
    {
    }

    /** The loop of `step`: every ant ticks, in order, unless it has
        arrived. Ant `j` sees the levels `levels[j]` and draws from index
        `drawAt[j]`; the levels it sees are at least those before the loop,
        and equal to them while no earlier ant has settled. */
    method TickAll() returns (ghost choices: seq<Option<Pos>>, ghost levels: seq<seq<real>>, ghost drawAt: seq<nat>,
                              ghost grids: seq<seq<seq<real>>>)
      requires Valid()
      modifies this`ants, this`draws, maze.pheromone
      ensures Valid()
      ensures TickedAll(old(ants), ants, choices, antGroup.ants, old(NeighborLists(ants, maze.wall)), levels,
                        drawAt, rng, maze.end)
      ensures drawAt[0] == old(draws) && drawAt[|ants|] == draws
      ensures AtLeast(old(NeighborLevels(ants, maze.wall, maze.pheromone)), levels)
      ensures forall j {:trigger levels[j]} :: 0 <= j < |ants| && NoneSettledBefore(old(ants), ants, j) ==>
                levels[j] == old(NeighborLevels(ants, maze.wall, maze.pheromone))[j]
      ensures draws >= old(draws)
      ensures forall y, x {:trigger maze.pheromone[y, x]} :: 0 <= y < maze.height && 0 <= x < maze.width ==>
                old(maze.pheromone[y, x]) <= maze.pheromone[y, x]
      ensures (forall j :: 0 <= j < |ants| ==> ants[j].path == old(ants[j].path)) ==>
                forall y, x {:trigger maze.pheromone[y, x]} :: 0 <= y < maze.height && 0 <= x < maze.width ==>
                  maze.pheromone[y, x] == old(maze.pheromone[y, x])
      ensures GridsFollow(old(ants), ants, grids, old(NeighborLists(ants, maze.wall)), levels, |ants|)
      ensures grids[0] == old(Snapshot(maze.pheromone)) && Matches(grids[|ants|], maze.pheromone)
    {
      ghost var options := NeighborLists(ants, maze.wall);
      ghost var start := NeighborLevels(ants, maze.wall, maze.pheromone);
      ghost var grid := Snapshot(maze.pheromone);
      NeighborLevelsInSnapshot(ants, maze.wall, maze.pheromone);
      LoopStart(grid, start, options);
      ghost var st := LoopState(ants, draws, grid, start, options, [], [], [draws], true, 0, 0, [grid]);
      var i := 0;
      while i < |ants|
        invariant Progress(st)
        invariant st.before == old(ants) && st.draws0 == old(draws) && st.grid == grid
        invariant st.start == start && st.options == options && |st.choices| == i
        decreases |old(ants)| - i
      {
        st := TickNext(i, st);
        i := i + 1;
      }
      LoopDone(st);
      choices, levels, drawAt, grids := st.choices, st.levels, st.drawAt, st.grids;
      PheromoneSince(grid, old(ants));
    }

    /** `step`: one tick of every ant that has not arrived, in order, then one
        evaporation of the whole grid. `choices[i]` is the result of the
        `getNextPosition` call made for ant `i`, if any. Pheromone never
        decreases during the tick except by the final evaporation, and stays
        below 0.98 afterwards; when no ant settles it is exactly the old level
        times 0.98. */
    method Step() returns (ghost choices: seq<Option<Pos>>, ghost levels: seq<seq<real>>, ghost drawAt: seq<nat>,
                           ghost grids: seq<seq<seq<real>>>)
      requires Valid()
      modifies this`ants, this`draws, maze.pheromone
      ensures Valid()
      ensures draws >= old(draws)
      ensures |ants| == |old(ants)| == |choices| == |levels| && |drawAt| == |ants| + 1
      ensures TickedAll(old(ants), ants, choices, antGroup.ants, old(NeighborLists(ants, maze.wall)), levels,
                        drawAt, rng, maze.end)
      ensures drawAt[0] == old(draws) && drawAt[|ants|] == draws
      ensures AtLeast(old(NeighborLevels(ants, maze.wall, maze.pheromone)), levels)
      ensures forall i {:trigger levels[i]} :: 0 <= i < |ants| && NoneSettledBefore(old(ants), ants, i) ==>
                levels[i] == old(NeighborLevels(ants, maze.wall, maze.pheromone))[i]
      ensures forall y, x {:trigger maze.pheromone[y, x]} :: 0 <= y < maze.height && 0 <= x < maze.width ==>
                old(maze.pheromone[y, x]) * (1.0 - EvaporationRate) <= maze.pheromone[y, x] <= 1.0 - EvaporationRate
      ensures (forall i :: 0 <= i < |ants| ==> ants[i].path == old(ants[i].path)) ==>
                forall y, x {:trigger maze.pheromone[y, x]} :: 0 <= y < maze.height && 0 <= x < maze.width ==>
                  maze.pheromone[y, x] == old(maze.pheromone[y, x]) * (1.0 - EvaporationRate)
      ensures GridsFollow(old(ants), ants, grids, old(NeighborLists(ants, maze.wall)), levels, |ants|)
      ensures grids[0] == old(Snapshot(maze.pheromone))
      ensures |grids[|ants|]| == maze.height && forall y :: 0 <= y < maze.height ==> |grids[|ants|][y]| == maze.width
      ensures forall y, x {:trigger maze.pheromone[y, x]} :: 0 <= y < maze.height && 0 <= x < maze.width ==>
                maze.pheromone[y, x] == grids[|ants|][y][x] * (1.0 - EvaporationRate)
    {
      choices, levels, drawAt, grids := TickAll();
      EvaporatePheromone();
    }

    /** `isAllAntsReachedEnd`: despite its name, whether at least one ant
        has arrived. */
    function IsAllAntsReachedEnd(): (r: bool)
      reads this
      ensures r <==> exists i :: 0 <= i < |ants| && ants[i].hasReachedEnd
      ensures |ants| == 0 ==> !r
    {
      AnyReached(ants)
    }

    /** `getAnts`: the drawn view of every ant, same length and order. */
    function GetAnts(): (r: seq<AntView>)
      reads this
      ensures |r| == |ants|
      ensures forall i :: 0 <= i < |ants| ==> r[i] == View(ants[i])
    {
      Views(ants)
    }

    /** `reset`: every ant back to the start with direction (0, 0) and not
        arrived (its path, progress and target are kept), and every cell's
        pheromone back to 0. */
    method Reset()
      requires Valid()
      modifies this`ants, this`chainStart, maze.pheromone
      ensures Valid()
      ensures |ants| == |old(ants)|
      ensures forall i :: 0 <= i < |ants| ==>
                ants[i] == old(ants[i]).(position := maze.start, direction := Some(Pos(0, 0)), hasReachedEnd := false)
      ensures forall i :: 0 <= i < |ants| ==> chainStart[i] == |ants[i].path|
      ensures forall y, x {:trigger maze.pheromone[y, x]} :: 0 <= y < maze.height && 0 <= x < maze.width ==>
                maze.pheromone[y, x] == 0.0
    {
      var i := 0;
      while i < |ants|
        invariant 0 <= i <= |ants| == |old(ants)| == |chainStart|
        invariant forall j :: 0 <= j < i ==>
                    ants[j] == old(ants[j]).(position := maze.start, direction := Some(Pos(0, 0)), hasReachedEnd := false)
                    && chainStart[j] == |ants[j].path|
        invariant forall j :: i <= j < |ants| ==> ants[j] == old(ants[j]) && chainStart[j] == old(chainStart[j])
      {
        ants := ants[i := ants[i].(position := maze.start, direction := Some(Pos(0, 0)), hasReachedEnd := false)];
        chainStart := chainStart[i := |ants[i].path|];
        i := i + 1;
      }
      forall j | 0 <= j < |ants|
        ensures AntInv(ants[j], chainStart[j], maze.wall, maze.end)
      {
        ResetKeepsInv(old(ants)[j], old(chainStart)[j], maze.wall, maze.start, maze.end);
      }
      var y := 0;
      while y < maze.height
        invariant 0 <= y <= maze.height
        invariant forall y', x {:trigger maze.pheromone[y', x]} :: 0 <= y' < y && 0 <= x < maze.width ==>
                    maze.pheromone[y', x] == 0.0
        modifies maze.pheromone
      {
        var x := 0;
        while x < maze.width
          invariant 0 <= x <= maze.width
          invariant forall y', x' {:trigger maze.pheromone[y', x']} ::
                      0 <= y' < maze.height && 0 <= x' < maze.width && (y' < y || (y' == y && x' < x)) ==>
                      maze.pheromone[y', x'] == 0.0
          modifies maze.pheromone
        {
          maze.pheromone[y, x] := 0.0;
          x := x + 1;
        }
        y := y + 1;
      }
    }
  }
}

/** The maze generator: size normalisation, a randomised depth-first
    backtracker over the odd-coordinate rooms, forced start and end cells and
    the difficulty-driven dead-end pass. */
module MazeGenerator {
  import opened MazeModel
  import opened Randomness

  datatype Difficulty = VeryEasy | Easy | Normal | Hard | VeryHard

  datatype DifficultyParams = DifficultyParams(deadEndFactor: real, standardCompletionRate: real, mazeScale: real)

  /** The per-difficulty parameter table. */
  function Params(d: Difficulty): (p: DifficultyParams)
    ensures 0.0 < p.deadEndFactor <= 0.5
    ensures 0.0 < p.standardCompletionRate <= 1.0
    ensures 0.2 <= p.mazeScale <= 1.2
  {
    match d
    case VeryEasy => DifficultyParams(0.01, 1.0, 0.2)
    case Easy => DifficultyParams(0.1, 0.7, 0.9)
    case Normal => DifficultyParams(0.2, 0.5, 1.0)
    case Hard => DifficultyParams(0.35, 0.3, 1.1)
    case VeryHard => DifficultyParams(0.5, 0.2, 1.2)
  }

  const MinSize: int := 11

  /** An even size is lowered by one, an odd one is kept. JavaScript's `%`
      truncates and Dafny's is Euclidean, but both give zero exactly for the
      even numbers, so the test agrees for negative sizes too. */
  function ForceOdd(n: int): (r: int)
    ensures r % 2 == 1
    ensures r == n || r == n - 1
    ensures n % 2 == 1 ==> r == n
  {
    if n % 2 == 0 then n - 1 else n
  }

  /** The odd size scaled by `mazeScale` and rounded down, in exact arithmetic. */
  function Scaled(n: int, d: Difficulty): int {
    ((ForceOdd(n) as real) * Params(d).mazeScale).Floor
  }

  /** The final side length for a requested side length `n`. */
  function NormalizedSize(n: int, d: Difficulty): (r: int)
    ensures r % 2 == 1 && r >= MinSize
    ensures ForceOdd(Scaled(n, d)) >= MinSize <==> r == ForceOdd(Scaled(n, d))
    ensures ForceOdd(Scaled(n, d)) < MinSize <==> r == MinSize && ForceOdd(Scaled(n, d)) != MinSize
  {
    var m := ForceOdd(Scaled(n, d));
    if m >= MinSize then m else MinSize
  }

  /** A request of 31 at each difficulty. */
  lemma NormalizedSizeOf31()
    ensures NormalizedSize(31, VeryEasy) == 11
    ensures NormalizedSize(31, Easy) == 27
    ensures NormalizedSize(31, Normal) == 31
    ensures NormalizedSize(31, Hard) == 33
    ensures NormalizedSize(31, VeryHard) == 37
  {
    assert Scaled(31, VeryEasy) == 6;
    assert Scaled(31, Easy) == 27;
    assert Scaled(31, Normal) == 31;
    assert Scaled(31, Hard) == 34;
    assert Scaled(31, VeryHard) == 37;
  }

  /** At the normal difficulty an odd request of at least 11 is kept and an
      even one is reduced by one. */
  lemma NormalKeepsOddSizes(n: int)
    requires n >= MinSize
    ensures NormalizedSize(n, Normal) == ForceOdd(n)
  {
    assert (ForceOdd(n) as real * 1.0).Floor == ForceOdd(n);
  }

  /** Every requested size, at every difficulty, ends up odd and at least 11. */
  lemma NormalizedSizeIsValid(n: int, d: Difficulty)
    ensures NormalizedSize(n, d) % 2 == 1 && NormalizedSize(n, d) >= MinSize
  {
  }

  /** The candidate `q` of the backtracker: strictly inside the border and
      not yet visited. */
  function UnvisitedAt(q: Pos, visited: array2<bool>, width: int, height: int): seq<Pos>
    requires visited.Length0 == height && visited.Length1 == width
    reads visited
  {
    if Interior(q, width, height) && !visited[q.y, q.x] then [q] else []
  }

  /** The rooms two steps away from `pos` (up, right, down, left) that are
      strictly inside the border and not yet visited. */
  function UnvisitedNeighbors(pos: Pos, visited: array2<bool>, width: int, height: int): (r: seq<Pos>)
    requires visited.Length0 == height && visited.Length1 == width
    reads visited
    ensures |r| <= 4
    ensures forall q :: q in r ==> Step2(pos, q) && Interior(q, width, height) && !visited[q.y, q.x]
    ensures forall q :: Step2(pos, q) && Interior(q, width, height) && !visited[q.y, q.x] ==> q in r
    ensures r == [] <==> AllVisitedAround(pos, visited, width, height)
  {
    UnvisitedAt(Pos(pos.x, pos.y - 2), visited, width, height) +
    UnvisitedAt(Pos(pos.x + 2, pos.y), visited, width, height) +
    UnvisitedAt(Pos(pos.x, pos.y + 2), visited, width, height) +
    UnvisitedAt(Pos(pos.x - 2, pos.y), visited, width, height)
  }

  ghost predicate VisitedIfInterior(q: Pos, visited: array2<bool>, width: int, height: int)
    requires visited.Length0 == height && visited.Length1 == width
    reads visited
  {
    Interior(q, width, height) ==> visited[q.y, q.x]
  }

  /** No room two steps away from `pos` is left unvisited. */
  ghost predicate AllVisitedAround(pos: Pos, visited: array2<bool>, width: int, height: int)
    requires visited.Length0 == height && visited.Length1 == width
    reads visited
  {
    && VisitedIfInterior(Pos(pos.x, pos.y - 2), visited, width, height)
    && VisitedIfInterior(Pos(pos.x + 2, pos.y), visited, width, height)
    && VisitedIfInterior(Pos(pos.x, pos.y + 2), visited, width, height)
    && VisitedIfInterior(Pos(pos.x - 2, pos.y), visited, width, height)
  }

  function InBoundsAt(q: Pos, width: int, height: int): seq<Pos> {
    if InGrid(q, width, height) then [q] else []
  }

  /** The in-bounds cells one step away from `pos` (up, right, down, left). */
  function Neighbors(pos: Pos, width: int, height: int): (r: seq<Pos>)
    ensures |r| <= 4
    ensures forall q :: q in r ==> InGrid(q, width, height) && Adjacent(pos, q)
    ensures forall q :: InGrid(q, width, height) && Adjacent(pos, q) ==> q in r
  {
    InBoundsAt(Pos(pos.x, pos.y - 1), width, height) +
    InBoundsAt(Pos(pos.x + 1, pos.y), width, height) +
    InBoundsAt(Pos(pos.x, pos.y + 1), width, height) +
    InBoundsAt(Pos(pos.x - 1, pos.y), width, height)
  }

  /** The rooms of `ns` that are still walls, in their order. */
  function WallsAmong(ns: seq<Pos>, wall: array2<bool>): (r: seq<Pos>)
    requires forall q :: q in ns ==> 0 <= q.x < wall.Length1 && 0 <= q.y < wall.Length0
    reads wall
    ensures |r| <= |ns|
    ensures forall q :: q in r ==> q in ns && wall[q.y, q.x]
    ensures forall q :: q in ns && wall[q.y, q.x] ==> q in r
  {
    if ns == [] then []
    else
      var rest := WallsAmong(ns[1..], wall);
      if wall[ns[0].y, ns[0].x] then [ns[0]] + rest else rest
  }

  function ExitAt(q: Pos, wall: array2<bool>): nat
    reads wall
  {
    if 0 <= q.x < wall.Length1 && 0 <= q.y < wall.Length0 && !wall[q.y, q.x] then 1 else 0
  }

  /** The number of open in-bounds cells one step away from `pos`: the
      neighbours `getNeighbors` lists minus those the dead-end pass would
      list as walls. */
  function CountExits(pos: Pos, wall: array2<bool>): (r: nat)
    requires wall.Length0 > 0
    reads wall
    ensures r <= 4
    ensures r == |Neighbors(pos, wall.Length1, wall.Length0)| -
                 |WallsAmong(Neighbors(pos, wall.Length1, wall.Length0), wall)|
  {
    var w, h := wall.Length1, wall.Length0;
    var q0, q1, q2, q3 := Pos(pos.x, pos.y - 1), Pos(pos.x + 1, pos.y), Pos(pos.x, pos.y + 1), Pos(pos.x - 1, pos.y);
    var a, b, c, d := InBoundsAt(q0, w, h), InBoundsAt(q1, w, h), InBoundsAt(q2, w, h), InBoundsAt(q3, w, h);
    assert Neighbors(pos, w, h) == a + b + c + d;
    WallsAmongAppend(a, b, wall);
    WallsAmongAppend(a + b, c, wall);
    WallsAmongAppend(a + b + c, d, wall);
    ExitAtCounts(q0, wall);
    ExitAtCounts(q1, wall);
    ExitAtCounts(q2, wall);
    ExitAtCounts(q3, wall);
    ExitAt(q0, wall) + ExitAt(q1, wall) + ExitAt(q2, wall) + ExitAt(q3, wall)
  }

  lemma ExitAtCounts(q: Pos, wall: array2<bool>)
    ensures ExitAt(q, wall) == |InBoundsAt(q, wall.Length1, wall.Length0)| -
                               |WallsAmong(InBoundsAt(q, wall.Length1, wall.Length0), wall)|
  {
    var s := InBoundsAt(q, wall.Length1, wall.Length0);
    if s != [] {
      assert s[1..] == [];
    }
  }

  lemma {:induction false} WallsAmongAppend(a: seq<Pos>, b: seq<Pos>, wall: array2<bool>)
    requires forall q :: q in a + b ==> 0 <= q.x < wall.Length1 && 0 <= q.y < wall.Length0
    ensures WallsAmong(a + b, wall) == WallsAmong(a, wall) + WallsAmong(b, wall)
  {
    if a != [] {
      assert (a + b)[1..] == a[1..] + b;
      WallsAmongAppend(a[1..], b, wall);
    } else {
      assert a + b == b;
    }
  }

  /** A cell with exactly one odd coordinate: the wall cell between two
      rooms that are next to each other. */
  predicate IsDoorCell(p: Pos) {
    (p.x % 2 == 1) != (p.y % 2 == 1)
  }

  /** Moving two steps from a room to an interior cell reaches a room, and the
      cell in between is a door cell 4-adjacent to both. */
  lemma RoomStep(current: Pos, next: Pos, width: int, height: int)
    requires IsRoom(current, width, height)
    requires Step2(current, next) && Interior(next, width, height)
    ensures IsRoom(next, width, height)
    ensures Interior(Midpoint(current, next), width, height) && IsDoorCell(Midpoint(current, next))
    ensures Adjacent(current, Midpoint(current, next)) && Adjacent(Midpoint(current, next), next)
  {
    var m := Midpoint(current, next);
    if current.x == next.x {
      assert m.x == current.x;
      assert m.y == current.y - 1 || m.y == current.y + 1;
    } else {
      assert m.y == current.y;
      assert m.x == current.x - 1 || m.x == current.x + 1;
    }
  }

  /** Opening the wall cell `mid` (unless it was open already) and the room
      `next` beyond it keeps the reachability certificate valid when `mid`
      is hung below `current` and `next` below `mid`. */
  twostate lemma CertificateAfterCarving(wall: array2<bool>, new root: Pos, new parent0: map<Pos, Pos>, new depth0: map<Pos, nat>,
                                         new parent1: map<Pos, Pos>, new depth1: map<Pos, nat>,
                                         new parent: map<Pos, Pos>, new depth: map<Pos, nat>,
                                         new current: Pos, new mid: Pos, new next: Pos, new midWasWall: bool)
    requires old(ReachCertificate(wall, root, parent0, depth0))
    requires old(Open(wall, current)) && Adjacent(current, mid) && Adjacent(mid, next)
    requires 0 <= next.y < wall.Length0 && 0 <= next.x < wall.Length1 && old(wall[next.y, next.x])
    requires 0 <= mid.y < wall.Length0 && 0 <= mid.x < wall.Length1 && midWasWall == old(wall[mid.y, mid.x])
    requires next != root && next != mid
    requires forall y, x {:trigger wall[y, x]} :: 0 <= y < wall.Length0 && 0 <= x < wall.Length1 ==>
               wall[y, x] == (old(wall[y, x]) && Pos(x, y) != next && Pos(x, y) != mid)
    requires midWasWall ==> current in depth0 && mid != root
    requires parent1 == if midWasWall then parent0[mid := current] else parent0
    requires depth1 == if midWasWall then depth0[mid := depth0[current] + 1] else depth0
    requires mid in depth1 && parent == parent1[next := mid] && depth == depth1[next := depth1[mid] + 1]
    ensures ReachCertificate(wall, root, parent, depth)
  {
    forall y, x {:trigger wall[y, x]} | 0 <= y < wall.Length0 && 0 <= x < wall.Length1 && !wall[y, x]
      ensures CertifiedAt(wall, root, parent, depth, Pos(x, y))
    {
      var c := Pos(x, y);
      if c != next && (c != mid || !midWasWall) {
        assert old(!wall[y, x]);
        assert old(CertifiedAt(wall, root, parent0, depth0, c));
      }
    }
  }

  /** What the backtracker has built so far: the stack holds visited rooms,
      visited cells are open rooms, and every open cell is interior and
      either visited or a door cell. */
  ghost predicate CarveShape(wall: array2<bool>, visited: array2<bool>, stack: seq<Pos>)
    requires visited.Length0 == wall.Length0 && visited.Length1 == wall.Length1
    reads wall, visited
  {
    && (forall k :: 0 <= k < |stack| ==>
          IsRoom(stack[k], wall.Length1, wall.Length0) && visited[stack[k].y, stack[k].x])
    && (forall y, x {:trigger visited[y, x]} :: 0 <= y < wall.Length0 && 0 <= x < wall.Length1 && visited[y, x] ==>
          IsRoom(Pos(x, y), wall.Length1, wall.Length0) && !wall[y, x])
    && (forall y, x {:trigger wall[y, x]} :: 0 <= y < wall.Length0 && 0 <= x < wall.Length1 && !wall[y, x] ==>
          Interior(Pos(x, y), wall.Length1, wall.Length0) && (visited[y, x] || IsDoorCell(Pos(x, y))))
  }

  /** Every room not yet visited is in `unvisited` (the termination measure). */
  ghost predicate Covered(visited: array2<bool>, unvisited: set<Pos>)
    reads visited
  {
    forall y, x {:trigger visited[y, x]} ::
      0 <= y < visited.Length0 && 0 <= x < visited.Length1 &&
      IsRoom(Pos(x, y), visited.Length1, visited.Length0) && !visited[y, x]
      ==> Pos(x, y) in unvisited
  }

  /** Every visited room that is no longer on the stack has no unvisited
      room two steps away. */
  ghost predicate ClosedOffStack(visited: array2<bool>, stack: seq<Pos>)
    reads visited
  {
    forall y1, x1, y2, x2 {:trigger visited[y1, x1], visited[y2, x2]} ::
      0 <= y1 < visited.Length0 && 0 <= x1 < visited.Length1 &&
      0 <= y2 < visited.Length0 && 0 <= x2 < visited.Length1 &&
      visited[y1, x1] && Pos(x1, y1) !in stack &&
      Step2(Pos(x1, y1), Pos(x2, y2)) && Interior(Pos(x2, y2), visited.Length1, visited.Length0)
      ==> visited[y2, x2]
  }

  /** The state change made by one carving step. */
  twostate predicate PassageOpened(wall: array2<bool>, visited: array2<bool>, current: Pos, next: Pos)
    reads wall, visited
  {
    && (forall y, x {:trigger wall[y, x]} :: 0 <= y < wall.Length0 && 0 <= x < wall.Length1 ==>
          wall[y, x] == (old(wall[y, x]) && Pos(x, y) != next && Pos(x, y) != Midpoint(current, next)))
    && (forall y, x {:trigger visited[y, x]} :: 0 <= y < visited.Length0 && 0 <= x < visited.Length1 ==>
          visited[y, x] == (old(visited[y, x]) || Pos(x, y) == next))
  }

  /** One carving step: opens the room `next` two steps from `current`,
      marks it visited and opens the wall cell between them. */
  method OpenPassage(wall: array2<bool>, visited: array2<bool>, current: Pos, next: Pos)
    requires wall != visited
    requires visited.Length0 == wall.Length0 && visited.Length1 == wall.Length1
    requires IsRoom(current, wall.Length1, wall.Length0)
    requires Step2(current, next) && Interior(next, wall.Length1, wall.Length0)
    modifies wall, visited
    ensures PassageOpened(wall, visited, current, next)
  {
    RoomStep(current, next, wall.Length1, wall.Length0);
    wall[next.y, next.x] := false;
    visited[next.y, next.x] := true;
    // the cell between the two rooms
    var mid := Midpoint(current, next);
    wall[mid.y, mid.x] := false;
  }

  /** A carving step from the top of the stack to an unvisited room keeps the
      shape of the maze, the coverage of unvisited rooms and the closure of
      the rooms off the stack; `next` is then pushed. */
  twostate lemma PassageKeepsInvariants(wall: array2<bool>, new visited: array2<bool>, new stack: seq<Pos>,
                                        new unvisited: set<Pos>, new current: Pos, new next: Pos)
    requires old(allocated(visited))
    requires wall != visited
    requires visited.Length0 == wall.Length0 && visited.Length1 == wall.Length1
    requires old(CarveShape(wall, visited, stack)) && old(Covered(visited, unvisited))
    requires old(ClosedOffStack(visited, stack))
    requires current in stack && IsRoom(current, wall.Length1, wall.Length0)
    requires Step2(current, next) && Interior(next, wall.Length1, wall.Length0) && !old(visited[next.y, next.x])
    requires PassageOpened(wall, visited, current, next)
    ensures CarveShape(wall, visited, stack + [next])
    ensures Covered(visited, unvisited - {next})
    ensures ClosedOffStack(visited, stack + [next])
  {
    RoomStep(current, next, wall.Length1, wall.Length0);
    var s' := stack + [next];
    forall k | 0 <= k < |s'|
      ensures IsRoom(s'[k], wall.Length1, wall.Length0) && visited[s'[k].y, s'[k].x]
    {
      if k < |stack| {
        assert s'[k] == stack[k];
        assert old(visited[stack[k].y, stack[k].x]);
      }
    }
    forall y, x {:trigger visited[y, x]} | 0 <= y < wall.Length0 && 0 <= x < wall.Length1 && visited[y, x]
      ensures IsRoom(Pos(x, y), wall.Length1, wall.Length0) && !wall[y, x]
    {
      if Pos(x, y) != next {
        assert old(visited[y, x]);
        assert Pos(x, y) != Midpoint(current, next) by {
          assert !IsDoorCell(Pos(x, y));
        }
      }
    }
    forall y, x {:trigger wall[y, x]} | 0 <= y < wall.Length0 && 0 <= x < wall.Length1 && !wall[y, x]
      ensures Interior(Pos(x, y), wall.Length1, wall.Length0) && (visited[y, x] || IsDoorCell(Pos(x, y)))
    {
      if Pos(x, y) != next && Pos(x, y) != Midpoint(current, next) {
        assert old(!wall[y, x]);
      }
    }
    forall y, x {:trigger visited[y, x]} | 0 <= y < visited.Length0 && 0 <= x < visited.Length1 &&
        IsRoom(Pos(x, y), visited.Length1, visited.Length0) && !visited[y, x]
      ensures Pos(x, y) in unvisited - {next}
    {
      assert !old(visited[y, x]);
    }
    forall y1, x1, y2, x2 {:trigger visited[y1, x1], visited[y2, x2]} |
        0 <= y1 < visited.Length0 && 0 <= x1 < visited.Length1 &&
        0 <= y2 < visited.Length0 && 0 <= x2 < visited.Length1 &&
        visited[y1, x1] && Pos(x1, y1) !in s' &&
        Step2(Pos(x1, y1), Pos(x2, y2)) && Interior(Pos(x2, y2), visited.Length1, visited.Length0)
      ensures visited[y2, x2]
    {
      assert old(visited[y1, x1]) && Pos(x1, y1) !in stack;
      assert old(visited[y2, x2]);
    }
  }

  /** Popping a room none of whose two-step neighbours is unvisited keeps the
      closure of the rooms off the stack. */
  lemma PopKeepsClosure(visited: array2<bool>, stack: seq<Pos>)
    requires |stack| > 0
    requires ClosedOffStack(visited, stack)
    requires UnvisitedNeighbors(stack[|stack| - 1], visited, visited.Length1, visited.Length0) == []
    ensures ClosedOffStack(visited, stack[..|stack| - 1])
  {
    var top := stack[|stack| - 1];
    var s' := stack[..|stack| - 1];
    forall y1, x1, y2, x2 {:trigger visited[y1, x1], visited[y2, x2]} |
        0 <= y1 < visited.Length0 && 0 <= x1 < visited.Length1 &&
        0 <= y2 < visited.Length0 && 0 <= x2 < visited.Length1 &&
        visited[y1, x1] && Pos(x1, y1) !in s' &&
        Step2(Pos(x1, y1), Pos(x2, y2)) && Interior(Pos(x2, y2), visited.Length1, visited.Length0)
      ensures visited[y2, x2]
    {
      if Pos(x1, y1) in stack {
        assert stack == s' + [top];
        assert Pos(x1, y1) == top;
        assert Pos(x2, y2) !in UnvisitedNeighbors(top, visited, visited.Length1, visited.Length0);
      }
    }
  }

  /** Every room is visited, given that (1, 1) is and that every visited room
      has all its two-step neighbours visited. */
  lemma {:induction false} RoomVisited(visited: array2<bool>, x: int, y: int)
    requires visited.Length0 >= 3 && visited.Length1 >= 3 && visited[1, 1]
    requires ClosedOffStack(visited, [])
    requires IsRoom(Pos(x, y), visited.Length1, visited.Length0)
    ensures visited[y, x]
    decreases x + y
  {
    if y > 1 {
      RoomVisited(visited, x, y - 2);
      assert visited[y - 2, x];
    } else if x > 1 {
      RoomVisited(visited, x - 2, y);
      assert visited[y, x - 2];
    }
  }

  /** The loop invariant of the backtracker, for the stack `stack`, the
      rooms `unvisited` still to visit and the certificate `parent`/`depth`
      rooted at (1, 1). */
  ghost predicate CarveInv(wall: array2<bool>, visited: array2<bool>, stack: seq<Pos>, unvisited: set<Pos>,
                           parent: map<Pos, Pos>, depth: map<Pos, nat>)
    requires visited.Length0 == wall.Length0 && visited.Length1 == wall.Length1
    reads wall, visited
  {
    && wall.Length0 >= 3 && wall.Length1 >= 3 && visited[1, 1]
    && CarveShape(wall, visited, stack)
    && ReachCertificate(wall, Pos(1, 1), parent, depth)
    && Covered(visited, unvisited)
    && ClosedOffStack(visited, stack)
  }

  /** The push branch of the backtracker: carves from the top of the stack
      to the chosen unvisited room `next` and extends the certificate, so
      that the invariant holds with `next` pushed and no longer unvisited. */
  method PushRoom(wall: array2<bool>, visited: array2<bool>, ghost stack: seq<Pos>, ghost unvisited: set<Pos>,
                  ghost parent: map<Pos, Pos>, ghost depth: map<Pos, nat>, current: Pos, next: Pos)
      returns (ghost parent': map<Pos, Pos>, ghost depth': map<Pos, nat>)
    requires wall != visited
    requires visited.Length0 == wall.Length0 && visited.Length1 == wall.Length1
    requires CarveInv(wall, visited, stack, unvisited, parent, depth)
    requires |stack| > 0 && current == stack[|stack| - 1]
    requires next in UnvisitedNeighbors(current, visited, wall.Length1, wall.Length0)
    modifies wall, visited
    ensures PassageOpened(wall, visited, current, next)
    ensures next in unvisited
    ensures CarveInv(wall, visited, stack + [next], unvisited - {next}, parent', depth')
  {
    var width, height := wall.Length1, wall.Length0;
    var mid := Midpoint(current, next);
    RoomStep(current, next, width, height);
    ghost var midWasWall := wall[mid.y, mid.x];
    assert wall[next.y, next.x];
    assert next in unvisited;
    assert CertifiedAt(wall, Pos(1, 1), parent, depth, current);
    OpenPassage(wall, visited, current, next);
    PassageKeepsInvariants(wall, visited, stack, unvisited, current, next);
    ghost var parent1, depth1 := parent, depth;
    if midWasWall {
      parent1 := parent[mid := current];
      depth1 := depth[mid := depth[current] + 1];
    }
    parent' := parent1[next := mid];
    depth' := depth1[next := depth1[mid] + 1];
    CertificateAfterCarving(wall, Pos(1, 1), parent, depth, parent1, depth1, parent', depth',
                            current, mid, next, midWasWall);
  }

  /** The grid the backtracker leaves behind: the visited cells are exactly
      the rooms, they are all open, and every other open cell is an interior
      door cell. */
  ghost predicate CarvedShape(wall: array2<bool>, visited: array2<bool>)
    reads wall, visited
  {
    && visited.Length0 == wall.Length0 && visited.Length1 == wall.Length1
    && (forall y, x {:trigger visited[y, x]} :: 0 <= y < wall.Length0 && 0 <= x < wall.Length1 ==>
          (visited[y, x] <==> IsRoom(Pos(x, y), wall.Length1, wall.Length0)))
    && (forall y, x {:trigger visited[y, x]} ::
          0 <= y < wall.Length0 && 0 <= x < wall.Length1 && visited[y, x] ==> !wall[y, x])
    && (forall y, x {:trigger wall[y, x]} :: 0 <= y < wall.Length0 && 0 <= x < wall.Length1 && !wall[y, x] ==>
          Interior(Pos(x, y), wall.Length1, wall.Length0) && (visited[y, x] || IsDoorCell(Pos(x, y))))
  }

  /** In a carved grid every room is open and every border cell is a wall. */
  lemma CarvedShapeFacts(wall: array2<bool>, visited: array2<bool>)
    requires CarvedShape(wall, visited)
    ensures forall y, x {:trigger wall[y, x]} ::
              0 <= y < wall.Length0 && 0 <= x < wall.Length1 && IsRoom(Pos(x, y), wall.Length1, wall.Length0)
              ==> !wall[y, x]
    ensures forall y, x {:trigger wall[y, x]} ::
              0 <= y < wall.Length0 && 0 <= x < wall.Length1 && OnBorder(Pos(x, y), wall.Length1, wall.Length0)
              ==> wall[y, x]
  {
    forall y, x {:trigger wall[y, x]} |
        0 <= y < wall.Length0 && 0 <= x < wall.Length1 && IsRoom(Pos(x, y), wall.Length1, wall.Length0)
      ensures !wall[y, x]
    {
      assert visited[y, x];
    }
  }

  /** The randomised depth-first backtracker of `generateMaze`. It starts from
      the room (1, 1) on an all-wall grid; while the stack is not empty it
      either pops a room with no unvisited room two steps away, or picks one
      such room at random, opens it and the wall cell in between and pushes
      it. On return every room is visited, every other open cell lies between
      two rooms (so the border is untouched), and `parent`/`depth` certify
      that every open cell is reachable from (1, 1). */
  method Carve(wall: array2<bool>, visited: array2<bool>, rng: Random, draws0: nat)
      returns (draws: nat, ghost parent: map<Pos, Pos>, ghost depth: map<Pos, nat>)
    requires wall != visited
    requires ValidRandom(rng)
    requires visited.Length0 == wall.Length0 && visited.Length1 == wall.Length1
    requires wall.Length0 >= 3 && wall.Length1 >= 3
    requires forall y, x {:trigger wall[y, x]} :: 0 <= y < wall.Length0 && 0 <= x < wall.Length1 ==> wall[y, x]
    requires forall y, x {:trigger visited[y, x]} :: 0 <= y < wall.Length0 && 0 <= x < wall.Length1 ==> !visited[y, x]
    modifies wall, visited
    ensures draws >= draws0
    ensures ReachCertificate(wall, Pos(1, 1), parent, depth)
    ensures CarvedShape(wall, visited)
  {
    var height, width := wall.Length0, wall.Length1;
    draws := draws0;
    var start := Pos(1, 1);
    wall[start.y, start.x] := false;
    visited[start.y, start.x] := true;
    var stack := [start];
    parent := map[];
    depth := map[start := 0];
    ghost var unvisited := set y, x | 0 <= y < height && 0 <= x < width && IsRoom(Pos(x, y), width, height)
                                      && !visited[y, x] :: Pos(x, y);

    while |stack| > 0
      invariant draws >= draws0
      invariant CarveInv(wall, visited, stack, unvisited, parent, depth)
      decreases unvisited, |stack|
    {
      var current := stack[|stack| - 1];
      var neighbors := UnvisitedNeighbors(current, visited, width, height);
      if |neighbors| == 0 {
        PopKeepsClosure(visited, stack);
        stack := stack[..|stack| - 1];
      } else {
        var k := Pick(rng(draws), |neighbors|);
        draws := draws + 1;
        var next := neighbors[k];
        parent, depth := PushRoom(wall, visited, stack, unvisited, parent, depth, current, next);
        stack := stack + [next];
        unvisited := unvisited - {next};
      }
    }

    forall y, x {:trigger visited[y, x]} | 0 <= y < height && 0 <= x < width && IsRoom(Pos(x, y), width, height)
      ensures visited[y, x]
    {
      RoomVisited(visited, x, y);
    }
  }

  /** Rewriting cells with the values they already hold keeps the carved
      shape and the reachability certificate. */
  twostate lemma SameWallsKeepCarving(wall: array2<bool>, new visited: array2<bool>, new parent: map<Pos, Pos>,
                                      new depth: map<Pos, nat>)
    requires old(allocated(visited)) && unchanged(visited)
    requires old(CarvedShape(wall, visited)) && old(ReachCertificate(wall, Pos(1, 1), parent, depth))
    requires forall y, x {:trigger wall[y, x]} :: 0 <= y < wall.Length0 && 0 <= x < wall.Length1 ==>
               wall[y, x] == old(wall[y, x])
    ensures CarvedShape(wall, visited) && ReachCertificate(wall, Pos(1, 1), parent, depth)
  {
    forall y, x {:trigger wall[y, x]} | 0 <= y < wall.Length0 && 0 <= x < wall.Length1 && !wall[y, x]
      ensures CertifiedAt(wall, Pos(1, 1), parent, depth, Pos(x, y))
    {
      assert old(CertifiedAt(wall, Pos(1, 1), parent, depth, Pos(x, y)));
      var c := Pos(x, y);
      if c != Pos(1, 1) {
        assert old(Open(wall, parent[c]));
      }
    }
    forall y, x {:trigger visited[y, x]} | 0 <= y < wall.Length0 && 0 <= x < wall.Length1 && visited[y, x]
      ensures !wall[y, x]
    {
      assert old(visited[y, x]);
    }
    forall y, x {:trigger wall[y, x]} | 0 <= y < wall.Length0 && 0 <= x < wall.Length1 && !wall[y, x]
      ensures Interior(Pos(x, y), wall.Length1, wall.Length0) && (visited[y, x] || IsDoorCell(Pos(x, y)))
    {
      assert old(!wall[y, x]);
    }
  }

  /** The dead-end pass. For every room it draws a number; below
      `deadEndFactor` it lists the in-bounds neighbours that are walls and,
      if there are any, draws one of them and sets it to a wall again. A cell
      is only ever set to the value it already has, so the pass leaves every
      cell as it was; only the draws are consumed. */
  method AddDeadEnds(wall: array2<bool>, deadEndFactor: real, rng: Random, draws0: nat) returns (draws: nat)
    requires ValidRandom(rng)
    modifies wall
    ensures draws >= draws0
    ensures forall y, x {:trigger wall[y, x]} :: 0 <= y < wall.Length0 && 0 <= x < wall.Length1 ==>
              wall[y, x] == old(wall[y, x])
  {
    var height, width := wall.Length0, wall.Length1;
    draws := draws0;
    var y := 1;
    while y < height - 1
      invariant draws >= draws0
      invariant forall y, x {:trigger wall[y, x]} :: 0 <= y < wall.Length0 && 0 <= x < wall.Length1 ==>
                  wall[y, x] == old(wall[y, x])
    {
      var x := 1;
      while x < width - 1
        invariant draws >= draws0
        invariant forall y, x {:trigger wall[y, x]} :: 0 <= y < wall.Length0 && 0 <= x < wall.Length1 ==>
                    wall[y, x] == old(wall[y, x])
      {
        var r := rng(draws);
        draws := draws + 1;
        if r < deadEndFactor {
          var neighbors := Neighbors(Pos(x, y), width, height);
          var wallNeighbors := WallsAmong(neighbors, wall);
          if |wallNeighbors| > 0 {
            var k := Pick(rng(draws), |wallNeighbors|);
            draws := draws + 1;
            var wallToKeep := wallNeighbors[k];
            assert wallToKeep in wallNeighbors;
            wall[wallToKeep.y, wallToKeep.x] := true;
          }
        }
        x := x + 2;
      }
      y := y + 2;
    }
  }

  /** The initial grid: every cell a wall and none visited. */
  method NewGrid(width: int, height: int) returns (wall: array2<bool>, visited: array2<bool>)
    requires width >= 0 && height >= 0
    ensures fresh(wall) && fresh(visited) && wall != visited
    ensures wall.Length0 == height && wall.Length1 == width
    ensures visited.Length0 == height && visited.Length1 == width
    ensures forall y, x {:trigger wall[y, x]} :: 0 <= y < height && 0 <= x < width ==> wall[y, x]
    ensures forall y, x {:trigger visited[y, x]} :: 0 <= y < height && 0 <= x < width ==> !visited[y, x]
  {
    wall := new bool[height, width]((y, x) => true);
    visited := new bool[height, width]((y, x) => false);
  }

  /** Forces the start (1, 1) and the end (width - 2, height - 2) open. Both
      are rooms, so the carved grid already has them open and nothing
      changes. */
  method OpenStartAndEnd(wall: array2<bool>, visited: array2<bool>,
                         ghost parent: map<Pos, Pos>, ghost depth: map<Pos, nat>)
      returns (start: Pos, end: Pos)
    requires wall != visited
    requires wall.Length0 >= 3 && wall.Length1 >= 3 && wall.Length0 % 2 == 1 && wall.Length1 % 2 == 1
    requires CarvedShape(wall, visited) && ReachCertificate(wall, Pos(1, 1), parent, depth)
    modifies wall
    ensures start == Pos(1, 1) && end == Pos(wall.Length1 - 2, wall.Length0 - 2)
    ensures Open(wall, start) && Open(wall, end)
    ensures forall y, x {:trigger wall[y, x]} :: 0 <= y < wall.Length0 && 0 <= x < wall.Length1 ==>
              wall[y, x] == old(wall[y, x])
    ensures CarvedShape(wall, visited) && ReachCertificate(wall, Pos(1, 1), parent, depth)
  {
    start := Pos(1, 1);
    end := Pos(wall.Length1 - 2, wall.Length0 - 2);
    assert visited[start.y, start.x] && visited[end.y, end.x];
    wall[start.y, start.x] := false;
    wall[end.y, end.x] := false;
    SameWallsKeepCarving(wall, visited, parent, depth);
  }

  /** `generateMaze`: normalises the requested size, starts from an all-wall
      grid, carves it with the backtracker, forces the start (1, 1) and the
      end (width - 2, height - 2) open and runs the dead-end pass. The random
      draws are taken from `rng` starting at index `draws0`; `draws` is the
      index of the next unused draw. The result is a valid maze whose border
      is wall, whose rooms are all open and visited, and whose every open
      cell can be reached from the start. */
  method GenerateMaze(width: int, height: int, difficulty: Difficulty, rng: Random, draws0: nat)
      returns (maze: Maze, draws: nat)
    requires ValidRandom(rng)
    ensures fresh(maze) && fresh(maze.wall) && fresh(maze.visited) && fresh(maze.pheromone)
    ensures maze.Valid()
    ensures maze.width == NormalizedSize(width, difficulty) && maze.height == NormalizedSize(height, difficulty)
    ensures maze.standardCompletionRate == Params(difficulty).standardCompletionRate
    ensures maze.actualCompletionRate == 0.0
    ensures draws >= draws0
    ensures Open(maze.wall, maze.start) && Open(maze.wall, maze.end)
    ensures forall y, x {:trigger maze.wall[y, x]} ::
              0 <= y < maze.height && 0 <= x < maze.width && OnBorder(Pos(x, y), maze.width, maze.height)
              ==> maze.wall[y, x]
    ensures forall y, x {:trigger maze.visited[y, x]} :: 0 <= y < maze.height && 0 <= x < maze.width ==>
              (maze.visited[y, x] <==> IsRoom(Pos(x, y), maze.width, maze.height))
    ensures forall y, x {:trigger maze.wall[y, x]} ::
              0 <= y < maze.height && 0 <= x < maze.width && IsRoom(Pos(x, y), maze.width, maze.height)
              ==> !maze.wall[y, x]
    ensures Connected(maze.wall, maze.start)
    ensures forall y, x {:trigger maze.pheromone[y, x]} :: 0 <= y < maze.height && 0 <= x < maze.width ==>
              maze.pheromone[y, x] == 0.0
  {
    var params := Params(difficulty);
    var finalWidth := NormalizedSize(width, difficulty);
    var finalHeight := NormalizedSize(height, difficulty);
    var wall, visited := NewGrid(finalWidth, finalHeight);
    ghost var parent, depth;
    draws, parent, depth := Carve(wall, visited, rng, draws0);
    var mazeStart, mazeEnd := OpenStartAndEnd(wall, visited, parent, depth);
    label Opened:
    draws := AddDeadEnds(wall, params.deadEndFactor, rng, draws);
    SameWallsKeepCarving@Opened(wall, visited, parent, depth);
    CertifiedConnected(wall, mazeStart, parent, depth);
    CarvedShapeFacts(wall, visited);
    // The pheromone levels of the cells, all zero.
    var pheromone := new real[finalHeight, finalWidth]((y, x) => 0.0);
    maze := new Maze(finalWidth, finalHeight, wall, visited, pheromone, mazeStart, mazeEnd,
                     params.standardCompletionRate);
  }
}

/** Positions, the maze record and the reachability vocabulary shared by the
    generator and the colony simulation. */
module MazeModel {

  /** A grid coordinate `{x, y}`; also used for the direction vector of an ant. */
  datatype Pos = Pos(x: int, y: int)

  /** The maze. A cell's `isWall`, `isVisited` and `pheromone` are three
      grids indexed `[y, x]`: the wall flags, the generation-time visited
      flags and the pheromone levels. A cell's own `x` and `y` are its index. */
  class Maze {
    const width: int
    const height: int
    const wall: array2<bool>
    const visited: array2<bool>
    const pheromone: array2<real>
    const start: Pos
    const end: Pos
    const standardCompletionRate: real
    /** Owned and updated by the host, never by the core. */
    var actualCompletionRate: real

    /** The shape every generated maze has: odd sides of at least 11, grids of
        matching size, start at (1, 1) and end at (width - 2, height - 2). */
    predicate Valid() {
      && width >= 11 && height >= 11
      && width % 2 == 1 && height % 2 == 1
      && wall.Length0 == height && wall.Length1 == width
      && visited.Length0 == height && visited.Length1 == width
      && pheromone.Length0 == height && pheromone.Length1 == width
      && wall != visited
      && start == Pos(1, 1)
      && end == Pos(width - 2, height - 2)
    }

    constructor (width: int, height: int, wall: array2<bool>, visited: array2<bool>,
                 pheromone: array2<real>, start: Pos, end: Pos, standardCompletionRate: real)
      ensures this.width == width && this.height == height
      ensures this.wall == wall && this.visited == visited && this.pheromone == pheromone
      ensures this.start == start && this.end == end
      ensures this.standardCompletionRate == standardCompletionRate
      ensures actualCompletionRate == 0.0
    {
      this.width := width;
      this.height := height;
      this.wall := wall;
      this.visited := visited;
      this.pheromone := pheromone;
      this.start := start;
      this.end := end;
      this.standardCompletionRate := standardCompletionRate;
      actualCompletionRate := 0.0;
    }
  }

  /** The start and the end of a valid maze are rooms. */
  lemma CornersAreRooms(m: Maze)
    requires m.Valid()
    ensures IsRoom(m.start, m.width, m.height) && IsRoom(m.end, m.width, m.height)
  {
    assert m.width - 2 == (m.width / 2 - 1) * 2 + 1;
    assert m.height - 2 == (m.height / 2 - 1) * 2 + 1;
  }

  predicate InGrid(p: Pos, width: int, height: int) {
    0 <= p.x < width && 0 <= p.y < height
  }

  /** Strictly inside the border: the bounds test of the backtracker. */
  predicate Interior(p: Pos, width: int, height: int) {
    0 < p.x < width - 1 && 0 < p.y < height - 1
  }

  /** A room: an interior cell with two odd coordinates. */
  predicate IsRoom(p: Pos, width: int, height: int) {
    Interior(p, width, height) && p.x % 2 == 1 && p.y % 2 == 1
  }

  predicate OnBorder(p: Pos, width: int, height: int) {
    p.x == 0 || p.x == width - 1 || p.y == 0 || p.y == height - 1
  }

  /** One grid step along one axis. */
  predicate Adjacent(p: Pos, q: Pos) {
    (p.x == q.x && (p.y - q.y == 1 || q.y - p.y == 1)) ||
    (p.y == q.y && (p.x - q.x == 1 || q.x - p.x == 1))
  }

  /** Two grid steps along one axis: from a room to the next room. */
  predicate Step2(p: Pos, q: Pos) {
    (p.x == q.x && (p.y - q.y == 2 || q.y - p.y == 2)) ||
    (p.y == q.y && (p.x - q.x == 2 || q.x - p.x == 2))
  }

  /** The cell halfway between two positions, `((a.x + b.x) / 2, (a.y + b.y) / 2)`. */
  function Midpoint(a: Pos, b: Pos): Pos {
    Pos((a.x + b.x) / 2, (a.y + b.y) / 2)
  }

  ghost predicate Open(wall: array2<bool>, p: Pos)
    reads wall
  {
    0 <= p.y < wall.Length0 && 0 <= p.x < wall.Length1 && !wall[p.y, p.x]
  }

  /** A walk through open cells, each 4-adjacent to the next. */
  ghost predicate IsWalk(wall: array2<bool>, w: seq<Pos>)
    reads wall
  {
    && |w| > 0
    && (forall i :: 0 <= i < |w| ==> Open(wall, w[i]))
    && (forall i :: 0 <= i < |w| - 1 ==> Adjacent(w[i], w[i + 1]))
  }

  ghost predicate Reachable(wall: array2<bool>, from: Pos, to: Pos)
    reads wall
  {
    exists w :: IsWalk(wall, w) && w[0] == from && w[|w| - 1] == to
  }

  /** Every open cell is reachable from `root`. */
  ghost predicate Connected(wall: array2<bool>, root: Pos)
    reads wall
  {
    forall y, x {:trigger wall[y, x]} :: 0 <= y < wall.Length0 && 0 <= x < wall.Length1 && !wall[y, x] ==>
      Reachable(wall, root, Pos(x, y))
  }

  /** A witness of reachability: every open cell other than `root` has an open
      4-neighbour `parent[c]` of smaller depth, so following parents leads to `root`. */
  ghost predicate CertifiedAt(wall: array2<bool>, root: Pos, parent: map<Pos, Pos>, depth: map<Pos, nat>, c: Pos)
    reads wall
  {
    && c in depth
    && (c != root ==>
          && c in parent && parent[c] in depth
          && Open(wall, parent[c]) && Adjacent(parent[c], c)
          && depth[parent[c]] < depth[c])
  }

  ghost predicate ReachCertificate(wall: array2<bool>, root: Pos, parent: map<Pos, Pos>, depth: map<Pos, nat>)
    reads wall
  {
    forall y, x {:trigger wall[y, x]} :: 0 <= y < wall.Length0 && 0 <= x < wall.Length1 && !wall[y, x] ==>
      CertifiedAt(wall, root, parent, depth, Pos(x, y))
  }

  /** Following the certificate from an open cell back to the root gives a walk. */
  lemma {:induction false} CertifiedReachable(wall: array2<bool>, root: Pos, parent: map<Pos, Pos>,
                                              depth: map<Pos, nat>, c: Pos)
    requires ReachCertificate(wall, root, parent, depth)
    requires Open(wall, c)
    ensures Reachable(wall, root, c)
    decreases if c in depth then depth[c] else 0
  {
    assert CertifiedAt(wall, root, parent, depth, c);
    if c == root {
      var w := [c];
      assert IsWalk(wall, w);
    } else {
      var p := parent[c];
      CertifiedReachable(wall, root, parent, depth, p);
      var w :| IsWalk(wall, w) && w[0] == root && w[|w| - 1] == p;
      var w' := w + [c];
      assert forall i :: 0 <= i < |w'| - 1 ==> Adjacent(w'[i], w'[i + 1]) by {
        forall i | 0 <= i < |w'| - 1
          ensures Adjacent(w'[i], w'[i + 1])
        {
          if i < |w| - 1 {
            assert w'[i] == w[i] && w'[i + 1] == w[i + 1];
          } else {
            assert w'[i] == p && w'[i + 1] == c;
          }
        }
      }
      assert IsWalk(wall, w');
    }
  }

  lemma CertifiedConnected(wall: array2<bool>, root: Pos, parent: map<Pos, Pos>, depth: map<Pos, nat>)
    requires ReachCertificate(wall, root, parent, depth)
    ensures Connected(wall, root)
  {
    forall y, x {:trigger wall[y, x]} | 0 <= y < wall.Length0 && 0 <= x < wall.Length1 && !wall[y, x]
      ensures Reachable(wall, root, Pos(x, y))
    {
      CertifiedReachable(wall, root, parent, depth, Pos(x, y));
    }
  }
}

/** The pipe maze of day 10: grid coordinates, the four compass offsets,
    the table of pipe tiles, parsing of the maze rows and the inference of
    the start tile's real shape from the neighbours that point at it. */
module Pipes {
  import opened Results

  /** A grid position: x grows to the right, y grows downward. */
  datatype Coord = Coord(x: int, y: int)

  function Add(a: Coord, b: Coord): Coord {
    Coord(a.x + b.x, a.y + b.y)
  }

  function Sub(a: Coord, b: Coord): Coord {
    Coord(a.x - b.x, a.y - b.y)
  }

  /** A compass direction, as an index into the offset table:
      0 north, 1 east, 2 south, 3 west. */
  type Dir = d: nat | d < 4

  function Offset(d: Dir): Coord {
    [Coord(0, -1), Coord(1, 0), Coord(0, 1), Coord(-1, 0)][d]
  }

  function Opposite(d: Dir): Dir {
    (d + 2) % 4
  }

  /** Stepping in a direction and then in its opposite returns to the cell. */
  lemma OppositeUndoesOffset(c: Coord, d: Dir)
    ensures Add(Add(c, Offset(d)), Offset(Opposite(d))) == c
    ensures Opposite(Opposite(d)) == d
  {
  }

  /** The eight tiles: six pipe shapes (named after the two sides they
      open), ground, and the start marker before it is resolved. */
  datatype Pipe = Vertical | Horizontal | NorthEast | SouthWest | SouthEast | NorthWest | Ground | Start

  const AllPipes: set<Pipe> := {Vertical, Horizontal, NorthEast, SouthWest, SouthEast, NorthWest, Ground, Start}

  function Symbol(p: Pipe): char {
    match p
    case Vertical => '|'
    case Horizontal => '-'
    case NorthEast => 'L'
    case SouthWest => '7'
    case SouthEast => 'F'
    case NorthWest => 'J'
    case Ground => '.'
    case Start => 'S'
  }

  /** The tile table lookup by input character; an unknown character is
      the table's missing key. */
  function PipeOf(c: char): (r: Option<Pipe>)
    ensures r.Some? ==> Symbol(r.value) == c
    ensures r.None? <==> forall p: Pipe :: Symbol(p) != c
  {
    match c
    case '|' => Some(Vertical)
    case '-' => Some(Horizontal)
    case 'L' => Some(NorthEast)
    case '7' => Some(SouthWest)
    case 'F' => Some(SouthEast)
    case 'J' => Some(NorthWest)
    case '.' => Some(Ground)
    case 'S' => Some(Start)
    case _ => None
  }

  /** Tiles that may sit north of a tile opening north (they open south). */
  const TopConnections: seq<Pipe> := [Vertical, SouthWest, SouthEast]
  /** Tiles that may sit east of a tile opening east (they open west). */
  const RightConnections: seq<Pipe> := [Horizontal, SouthWest, NorthWest]
  /** Tiles that may sit south of a tile opening south (they open north). */
  const BottomConnections: seq<Pipe> := [Vertical, NorthEast, NorthWest]
  /** Tiles that may sit west of a tile opening west (they open east). */
  const LeftConnections: seq<Pipe> := [Horizontal, SouthEast, NorthEast]

  /** For each direction, the tiles a neighbour on that side may be. */
  function Connections(p: Pipe, d: Dir): seq<Pipe> {
    match p
    case Vertical => [TopConnections, [], BottomConnections, []][d]
    case Horizontal => [[], RightConnections, [], LeftConnections][d]
    case NorthEast => [TopConnections, RightConnections, [], []][d]
    case SouthWest => [[], [], BottomConnections, LeftConnections][d]
    case SouthEast => [[], RightConnections, BottomConnections, []][d]
    case NorthWest => [TopConnections, [], [], LeftConnections][d]
    case Ground => []
    case Start => []
  }

  /** The two open sides of a pipe, in table order. */
  function Neighbors(p: Pipe): seq<Dir> {
    match p
    case Vertical => [0, 2]
    case Horizontal => [1, 3]
    case NorthEast => [0, 1]
    case SouthWest => [2, 3]
    case SouthEast => [1, 2]
    case NorthWest => [0, 3]
    case Ground => []
    case Start => []
  }

  /** The two closed sides of a pipe, in table order. */
  function EdgeNeighbors(p: Pipe): seq<Dir> {
    match p
    case Vertical => [1, 3]
    case Horizontal => [0, 2]
    case NorthEast => [2, 3]
    case SouthWest => [0, 1]
    case SouthEast => [0, 3]
    case NorthWest => [1, 2]
    case Ground => []
    case Start => []
  }

  /** The first part keeps a different row for the start marker (all four
      sides open); it is only ever consulted for a start marker that was
      not the one resolved. */
  function NeighborsPartOne(p: Pipe): seq<Dir> {
    if p == Start then [0, 1, 2, 3] else Neighbors(p)
  }

  /** The compatibility lists agree with the open sides: a side has a
      non-empty list exactly when it is open, and the list holds exactly
      the tiles that open back on the opposite side. */
  lemma ConnectionsMatchNeighbors(p: Pipe, d: Dir)
    ensures Connections(p, d) != [] <==> d in Neighbors(p)
    ensures forall q: Pipe :: q in Connections(p, d) <==> d in Neighbors(p) && Opposite(d) in Neighbors(q)
  {
  }

  /** Each of the six pipes opens exactly two sides, and its edge sides are
      the other two. */
  lemma EdgeNeighborsComplement(p: Pipe)
    requires p != Ground && p != Start
    ensures |Neighbors(p)| == 2 && |EdgeNeighbors(p)| == 2
    ensures forall d: Dir :: d in EdgeNeighbors(p) <==> d !in Neighbors(p)
  {
  }

  type Grid = map<Coord, Pipe>

  /** Why the source would stop with an exception: a character missing
      from the tile table, no start marker, a start whose neighbours do
      not determine one tile, a walk stepping off the grid, an empty
      input whose first row does not exist, or a drawing of the grid that
      reads a cell a row shorter than the first lacks. */
  datatype PipeError = UnknownSymbol | MissingStart | AmbiguousStart | OffGrid | EmptyInput | ShortRow

  predicate InRows(rows: seq<string>, c: Coord) {
    0 <= c.y < |rows| && 0 <= c.x < |rows[c.y]|
  }

  /** The grid dictionary built from the input rows: one tile per
      character, keyed by (column, row). */
  function ParseGrid(rows: seq<string>): (r: Result<Grid, PipeError>)
    ensures r.Ok? <==> forall y, x | 0 <= y < |rows| && 0 <= x < |rows[y]| :: PipeOf(rows[y][x]).Some?
    ensures r.Ok? ==> forall c: Coord :: c in r.value <==> InRows(rows, c)
    ensures r.Ok? ==> forall c | c in r.value :: InRows(rows, c) && Symbol(r.value[c]) == rows[c.y][c.x]
  {
    if forall y, x | 0 <= y < |rows| && 0 <= x < |rows[y]| :: PipeOf(rows[y][x]).Some? then
      Ok(map y, x | 0 <= y < |rows| && 0 <= x < |rows[y]| :: Coord(x, y) := PipeOf(rows[y][x]).value)
    else
      Err(UnknownSymbol)
  }

  /** Position of the last 'S' in a row, scanning columns below `n`. */
  function LastStartIn(row: string, n: nat): (r: Option<nat>)
    requires n <= |row|
    ensures r.None? <==> forall x | 0 <= x < n :: row[x] != 'S'
    ensures r.Some? ==> r.value < n && row[r.value] == 'S' && forall x | r.value < x < n :: row[x] != 'S'
  {
    if n == 0 then None
    else if row[n - 1] == 'S' then Some(n - 1)
    else LastStartIn(row, n - 1)
  }

  /** True when (x, y) comes before (x', y') in row-major reading order. */
  predicate ReadsBefore(a: Coord, b: Coord) {
    a.y < b.y || (a.y == b.y && a.x < b.x)
  }

  /** The start coordinate the parsing loop leaves behind: the last 'S' in
      reading order among rows below `n`. */
  function FindStart(rows: seq<string>, n: nat): (r: Option<Coord>)
    requires n <= |rows|
    ensures r.None? <==> forall y, x | 0 <= y < n && 0 <= x < |rows[y]| :: rows[y][x] != 'S'
    ensures r.Some? ==> InRows(rows, r.value) && r.value.y < n && rows[r.value.y][r.value.x] == 'S'
    ensures r.Some? ==> forall y, x | 0 <= y < n && 0 <= x < |rows[y]| && ReadsBefore(r.value, Coord(x, y)) :: rows[y][x] != 'S'
  {
    if n == 0 then None
    else match LastStartIn(rows[n - 1], |rows[n - 1]|)
      case Some(x) => Some(Coord(x, n - 1))
      case None => FindStart(rows, n - 1)
  }

  /** Tile at a coordinate, or the ground tile when the coordinate is off the grid. */
  function GetGrid(g: Grid, c: Coord): Pipe {
    if c in g then g[c] else Ground
  }

  /** The neighbour on side d of s opens back toward s. */
  predicate PointsBack(g: Grid, s: Coord, d: Dir) {
    Add(s, Offset(d)) in g && Opposite(d) in Neighbors(g[Add(s, Offset(d))])
  }

  function PointingDirs(g: Grid, s: Coord): set<Dir> {
    set d: Dir | d < 4 && PointsBack(g, s, d)
  }

  /** The candidate set after the neighbours on sides i..3 have been
      intersected in: a neighbour with a non-empty list toward s narrows
      the set to that list, any other neighbour (or none) leaves it. */
  function Narrow(g: Grid, s: Coord, i: nat, common: set<Pipe>): (r: set<Pipe>)
    requires i <= 4
    ensures forall p :: p in r <==> p in common && forall d: Dir | i <= d && PointsBack(g, s, d) :: d in Neighbors(p)
    decreases 4 - i
  {
    if i == 4 then common
    else
      var n := Add(s, Offset(i));
      var rest := if n in g && Connections(g[n], Opposite(i)) != [] then
                    common * set q | q in Connections(g[n], Opposite(i))
                  else common;
      ConnectionsMatchNeighbors(GetGrid(g, n), Opposite(i));
      OppositeUndoesOffset(s, i);
      Narrow(g, s, i + 1, rest)
  }

  function Candidates(g: Grid, s: Coord): set<Pipe> {
    Narrow(g, s, 0, AllPipes)
  }

  /** The tiles opening toward every side in D. */
  function OpenToward(D: set<Dir>): set<Pipe> {
    set p | p in AllPipes && forall d | d in D :: d in Neighbors(p)
  }

  /** The first tile of a non-empty set, in table order. */
  function Pick(c: set<Pipe>): (r: Pipe)
    requires c != {}
    ensures r in c
  {
    if Vertical in c then Vertical
    else if Horizontal in c then Horizontal
    else if NorthEast in c then NorthEast
    else if SouthWest in c then SouthWest
    else if SouthEast in c then SouthEast
    else if NorthWest in c then NorthWest
    else if Ground in c then Ground
    else
      var p :| p in c;
      assert p == Start;
      Start
  }

  /** Start resolution's case analysis: the tiles opening toward every
      side in D form a single tile exactly when D holds two sides, and
      that tile opens exactly the sides in D. */
  lemma OpenTowardSingleton(D: set<Dir>)
    ensures |OpenToward(D)| == 1 <==> |D| == 2
    ensures |D| == 2 ==> forall p | p in OpenToward(D) :: forall d: Dir :: d in Neighbors(p) <==> d in D
  {
    if 0 in D && 1 in D && 2 in D {
      OpenTowardNorthEastSouthCases(D);
    } else if 0 in D && 1 in D {
      OpenTowardNorthEastCases(D);
    } else if 0 in D && 2 in D {
      OpenTowardNorthSouthCases(D);
    } else if 0 in D {
      OpenTowardNorthCases(D);
    } else if 1 in D && 2 in D {
      OpenTowardEastSouthCases(D);
    } else if 1 in D {
      OpenTowardEastCases(D);
    } else if 2 in D {
      OpenTowardSouthCases(D);
    } else {
      OpenTowardWestCases(D);
    }
  }

  /** The conclusion of OpenTowardSingleton for one set of sides. */
  predicate SingleTileExactly(D: set<Dir>) {
    && (|OpenToward(D)| == 1 <==> |D| == 2)
    && (|D| == 2 ==> forall p | p in OpenToward(D) :: forall d: Dir :: d in Neighbors(p) <==> d in D)
  }

  /** SingleTileExactly for the sets D whose sides among north, east and
      south are exactly: north, east, south. */
  lemma OpenTowardNorthEastSouthCases(D: set<Dir>)
    requires 0 in D && 1 in D && 2 in D
    ensures SingleTileExactly(D)
  {
    if 3 in D {
      assert D == {0, 1, 2, 3};
      assert OpenToward(D) == {};
    } else {
      assert D == {0, 1, 2};
      assert OpenToward(D) == {};
    }
  }

  /** SingleTileExactly for the sets D whose sides among north, east and
      south are exactly: north, east. */
  lemma OpenTowardNorthEastCases(D: set<Dir>)
    requires 0 in D && 1 in D && 2 !in D
    ensures SingleTileExactly(D)
  {
    if 3 in D {
      assert D == {0, 1, 3};
      assert OpenToward(D) == {};
    } else {
      assert D == {0, 1};
      assert OpenToward(D) == {NorthEast};
    }
  }

  /** SingleTileExactly for the sets D whose sides among north, east and
      south are exactly: north, south. */
  lemma OpenTowardNorthSouthCases(D: set<Dir>)
    requires 0 in D && 1 !in D && 2 in D
    ensures SingleTileExactly(D)
  {
    if 3 in D {
      assert D == {0, 2, 3};
      assert OpenToward(D) == {};
    } else {
      assert D == {0, 2};
      assert OpenToward(D) == {Vertical};
    }
  }

  /** SingleTileExactly for the sets D whose sides among north, east and
      south are exactly: north. */
  lemma OpenTowardNorthCases(D: set<Dir>)
    requires 0 in D && 1 !in D && 2 !in D
    ensures SingleTileExactly(D)
  {
    if 3 in D {
      assert D == {0, 3};
      assert OpenToward(D) == {NorthWest};
    } else {
      assert D == {0};
      assert OpenToward(D) == {Vertical, NorthEast, NorthWest};
    }
  }

  /** SingleTileExactly for the sets D whose sides among north, east and
      south are exactly: east, south. */
  lemma OpenTowardEastSouthCases(D: set<Dir>)
    requires 0 !in D && 1 in D && 2 in D
    ensures SingleTileExactly(D)
  {
    if 3 in D {
      assert D == {1, 2, 3};
      assert OpenToward(D) == {};
    } else {
      assert D == {1, 2};
      assert OpenToward(D) == {SouthEast};
    }
  }

  /** SingleTileExactly for the sets D whose sides among north, east and
      south are exactly: east. */
  lemma OpenTowardEastCases(D: set<Dir>)
    requires 0 !in D && 1 in D && 2 !in D
    ensures SingleTileExactly(D)
  {
    if 3 in D {
      assert D == {1, 3};
      assert OpenToward(D) == {Horizontal};
    } else {
      assert D == {1};
      assert OpenToward(D) == {Horizontal, NorthEast, SouthEast};
    }
  }

  /** SingleTileExactly for the sets D whose sides among north, east and
      south are exactly: south. */
  lemma OpenTowardSouthCases(D: set<Dir>)
    requires 0 !in D && 1 !in D && 2 in D
    ensures SingleTileExactly(D)
  {
    if 3 in D {
      assert D == {2, 3};
      assert OpenToward(D) == {SouthWest};
    } else {
      assert D == {2};
      assert OpenToward(D) == {Vertical, SouthWest, SouthEast};
    }
  }

  /** SingleTileExactly for the sets D whose sides among north, east and
      south are exactly: none of north, east and south. */
  lemma OpenTowardWestCases(D: set<Dir>)
    requires 0 !in D && 1 !in D && 2 !in D
    ensures SingleTileExactly(D)
  {
    if 3 in D {
      assert D == {3};
      assert OpenToward(D) == {Horizontal, SouthWest, NorthWest};
    } else {
      assert D == {};
      assert OpenToward(D) == {Vertical, Horizontal, NorthEast, SouthWest, SouthEast, NorthWest, Ground, Start};
    }
  }

  /** The start tile's real shape: the single tile surviving the
      intersection of the lists of the neighbours that point at the start.
      Zero or several survivors fail the source's assertion. */
  function ResolveStart(g: Grid, s: Coord): (r: Result<Pipe, PipeError>)
    ensures r.Ok? <==> |PointingDirs(g, s)| == 2
    ensures r.Ok? ==> r.value != Ground && r.value != Start
    ensures r.Ok? ==> forall d: Dir :: d in Neighbors(r.value) <==> PointsBack(g, s, d)
  {
    var c := Candidates(g, s);
    assert c == OpenToward(PointingDirs(g, s));
    OpenTowardSingleton(PointingDirs(g, s));
    if |c| == 1 then Ok(Pick(c)) else Err(AmbiguousStart)
  }

  /** The grid with the start cell's marker replaced by its resolved
      tile. */
  function Resolved(g: Grid, s: Coord): (r: Result<Grid, PipeError>)
    requires s in g
    ensures r.Ok? <==> |PointingDirs(g, s)| == 2
    ensures r.Ok? ==> r.value.Keys == g.Keys && r.value == g[s := r.value[s]]
    ensures r.Ok? ==> forall d: Dir :: d in Neighbors(r.value[s]) <==> PointsBack(g, s, d)
  {
    match ResolveStart(g, s)
    case Err(e) => Err(e)
    case Ok(p) => Ok(g[s := p])
  }

  /** Parsing followed by start resolution: the grid the loop walks, with
      the start marker replaced by its resolved tile. */
  function PrepareGrid(rows: seq<string>): (r: Result<(Grid, Coord), PipeError>)
    ensures r.Ok? <==> ParseGrid(rows).Ok? && FindStart(rows, |rows|).Some?
                       && |PointingDirs(ParseGrid(rows).value, FindStart(rows, |rows|).value)| == 2
    ensures r.Ok? ==> && r.value.1 == FindStart(rows, |rows|).value
                      && r.value.0.Keys == ParseGrid(rows).value.Keys && r.value.1 in r.value.0
                      && r.value.0 == ParseGrid(rows).value[r.value.1 := r.value.0[r.value.1]]
                      && (forall d: Dir :: d in Neighbors(r.value.0[r.value.1]) <==> PointsBack(ParseGrid(rows).value, r.value.1, d))
  {
    var parsed := ParseGrid(rows);
    var start := FindStart(rows, |rows|);
    if parsed.Err? then Err(parsed.error)
    else if start.None? then Err(MissingStart)
    else
      assert InRows(rows, start.value);
      match Resolved(parsed.value, start.value)
      case Err(e) => Err(e)
      case Ok(g) => Ok((g, start.value))
  }

  /** The coordinates reached from c through the sides ns, in order. */
  function Step(c: Coord, ns: seq<Dir>): seq<Coord> {
    seq(|ns|, i requires 0 <= i < |ns| => Add(c, Offset(ns[i])))
  }

  function Prev(cyc: seq<Coord>, i: nat): Coord
    requires i < |cyc|
  {
    if i == 0 then cyc[|cyc| - 1] else cyc[i - 1]
  }

  function Next(cyc: seq<Coord>, i: nat): Coord
    requires i < |cyc|
  {
    if i == |cyc| - 1 then cyc[0] else cyc[i + 1]
  }

  /** Cell i of cyc opens toward exactly its predecessor and its successor. */
  predicate Links(g: Grid, cyc: seq<Coord>, i: nat)
    requires i < |cyc| && cyc[i] in g
  {
    var ns := Step(cyc[i], Neighbors(g[cyc[i]]));
    |ns| == 2 && ((ns[0] == Prev(cyc, i) && ns[1] == Next(cyc, i)) || (ns[0] == Next(cyc, i) && ns[1] == Prev(cyc, i)))
  }

  /** cyc is a simple closed loop of pipes through cyc[0]: at least three
      distinct cells of the grid, each opening toward exactly the cells
      before and after it in cyc (read cyclically). */
  predicate ValidLoop(g: Grid, cyc: seq<Coord>) {
    && |cyc| >= 3
    && (forall i, j | 0 <= i < j < |cyc| :: cyc[i] != cyc[j])
    && (forall i | 0 <= i < |cyc| :: cyc[i] in g)
    && (forall i | 0 <= i < |cyc| :: Links(g, cyc, i))
  }

  /** The cells each grid cell opens toward, in its tile's listed order. */
  type Adjacency = map<Coord, seq<Coord>>

  /** The first part's adjacency, read from its own tile table. */
  function AdjacencyOf(g: Grid): (r: Adjacency)
    ensures r.Keys == g.Keys
    ensures forall c | c in g :: r[c] == Step(c, NeighborsPartOne(g[c]))
  {
    map c | c in g :: Step(c, NeighborsPartOne(g[c]))
  }

  /** cyc is a simple closed loop of adj: at least three distinct cells,
      each listing exactly its predecessor and its successor. */
  predicate RingIn(adj: Adjacency, cyc: seq<Coord>) {
    && |cyc| >= 3
    && (forall i, j | 0 <= i < j < |cyc| :: cyc[i] != cyc[j])
    && (forall i {:trigger adj[cyc[i]]} | 0 <= i < |cyc| ::
          cyc[i] in adj && (adj[cyc[i]] == [Prev(cyc, i), Next(cyc, i)] || adj[cyc[i]] == [Next(cyc, i), Prev(cyc, i)]))
  }

  /** The ring condition at one cell. */
  lemma RingAt(adj: Adjacency, cyc: seq<Coord>, k: nat)
    requires RingIn(adj, cyc) && k < |cyc|
    ensures cyc[k] in adj && (adj[cyc[k]] == [Prev(cyc, k), Next(cyc, k)] || adj[cyc[k]] == [Next(cyc, k), Prev(cyc, k)])
  {
  }

  lemma ValidLoopRing(g: Grid, cyc: seq<Coord>)
    requires ValidLoop(g, cyc)
    ensures RingIn(AdjacencyOf(g), cyc)
  {
    forall i | 0 <= i < |cyc| ensures AdjacencyOf(g)[cyc[i]] == [Prev(cyc, i), Next(cyc, i)] || AdjacencyOf(g)[cyc[i]] == [Next(cyc, i), Prev(cyc, i)] {
      LoopStep(g, cyc, i);
      assert Links(g, cyc, i);
      assert g[cyc[i]] != Start;
    }
  }

  /** The same loop walked the other way round from the same cell. */
  function Reversed(cyc: seq<Coord>): (r: seq<Coord>)
    requires |cyc| >= 1
    ensures |r| == |cyc| && r[0] == cyc[0]
    ensures forall i | 1 <= i < |cyc| :: r[i] == cyc[|cyc| - i]
  {
    [cyc[0]] + seq(|cyc| - 1, i requires 0 <= i < |cyc| - 1 => cyc[|cyc| - 1 - i])
  }

  /** Each cell of a valid loop lists exactly its two loop neighbours. */
  lemma LoopStep(g: Grid, cyc: seq<Coord>, k: nat)
    requires ValidLoop(g, cyc) && k < |cyc|
    ensures || Step(cyc[k], Neighbors(g[cyc[k]])) == [Prev(cyc, k), Next(cyc, k)]
            || Step(cyc[k], Neighbors(g[cyc[k]])) == [Next(cyc, k), Prev(cyc, k)]
  {
    assert Links(g, cyc, k);
    var ns := Step(cyc[k], Neighbors(g[cyc[k]]));
    assert ns == [ns[0], ns[1]];
  }

  /** A valid loop walked backwards is a valid loop. */
  lemma ReversedLoop(g: Grid, cyc: seq<Coord>)
    requires ValidLoop(g, cyc)
    ensures ValidLoop(g, Reversed(cyc))
  {
    var L := |cyc|;
    var r := Reversed(cyc);
    forall i, j | 0 <= i < j < L ensures r[i] != r[j] {
      if i == 0 {
        assert r[j] == cyc[L - j];
      } else {
        assert r[i] == cyc[L - i] && r[j] == cyc[L - j];
      }
    }
    forall i | 0 <= i < L ensures r[i] in g {
      if i > 0 {
        assert r[i] == cyc[L - i];
      }
    }
    forall i | 0 <= i < L ensures Links(g, r, i) {
      var k := if i == 0 then 0 else L - i;
      assert r[i] == cyc[k];
      LoopStep(g, cyc, k);
      assert Prev(r, i) == Next(cyc, k) && Next(r, i) == Prev(cyc, k) by {
        if i == 0 {
          assert r[L - 1] == cyc[1];
        } else {
          if i > 1 {
            assert r[i - 1] == cyc[k + 1];
          }
          if i < L - 1 {
            assert r[i + 1] == cyc[k - 1];
          }
        }
      }
    }
  }

  /** The start of the prepared grid lies on the valid loop `cyc`. */
  predicate StartsLoop(rows: seq<string>, cyc: seq<Coord>) {
    PrepareGrid(rows).Ok? && ValidLoop(PrepareGrid(rows).value.0, cyc) && cyc[0] == PrepareGrid(rows).value.1
  }

  /** Drawing the grid reads the tile of every cell of the w by h
      rectangle, and fails with a KeyError on a cell the grid lacks. */
  predicate DrawFails(g: Grid, w: nat, h: nat) {
    exists x: int, y: int | 0 <= x < w && 0 <= y < h :: Coord(x, y) !in g
  }

  /** Over a parsed grid, with the first row's length as the width and
      the row count as the height, drawing fails exactly when some row is
      shorter than the first. */
  lemma DrawFailsShortRow(rows: seq<string>, g: Grid)
    requires rows != [] && ParseGrid(rows).Ok? && g.Keys == ParseGrid(rows).value.Keys
    ensures DrawFails(g, |rows[0]|, |rows|) <==> exists y | 0 <= y < |rows| :: |rows[y]| < |rows[0]|
  {
    if exists y | 0 <= y < |rows| :: |rows[y]| < |rows[0]| {
      var y :| 0 <= y < |rows| && |rows[y]| < |rows[0]|;
      assert !InRows(rows, Coord(|rows[y]|, y));
    }
    if DrawFails(g, |rows[0]|, |rows|) {
      var x: int, y: int :| 0 <= x < |rows[0]| && 0 <= y < |rows| && Coord(x, y) !in g;
      assert !InRows(rows, Coord(x, y));
    }
  }

  /** The prepared grid of the input cannot be drawn over the first row's
      width, which every frame of the animation does. */
  predicate Undrawable(rows: seq<string>) {
    rows != [] && PrepareGrid(rows).Ok? && DrawFails(PrepareGrid(rows).value.0, |rows[0]|, |rows|)
  }

  /** A prepared input cannot be drawn exactly when one of its rows is
      shorter than the first. */
  lemma UndrawableIffShortRow(rows: seq<string>)
    requires rows != [] && PrepareGrid(rows).Ok?
    ensures Undrawable(rows) <==> exists y | 0 <= y < |rows| :: |rows[y]| < |rows[0]|
  {
    DrawFailsShortRow(rows, PrepareGrid(rows).value.0);
  }
}

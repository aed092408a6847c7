/** The second part of day 10: every grid cell off the loop is marked
    unknown, then the loop is walked once more and the unknown cells that
    touch each loop tile's outer edges are flooded with the label of the
    side of the path they lie on. */
module SideClassifier {
  import opened Results
  import opened Pipes
  import opened LoopPath

  /** The cells still waiting for a label. */
  function Unknowns(cats: Categories): set<Coord> {
    set c | c in cats && cats[c] == Unknown
  }

  /** No neighbour of `c` that carries a category is still unknown. */
  predicate NoUnknownAround(cats: Categories, c: Coord) {
    forall d: Dir :: Add(c, Offset(d)) in cats ==> cats[Add(c, Offset(d))] != Unknown
  }

  /** Labelling one unknown cell removes exactly that cell from the unknowns. */
  lemma LabelOne(cats: Categories, n: Coord, cat: Category)
    requires cat != Unknown
    ensures Unknowns(cats[n := cat]) == Unknowns(cats) - {n}
    ensures n in Unknowns(cats) ==> |Unknowns(cats[n := cat])| == |Unknowns(cats)| - 1
    ensures n !in Unknowns(cats) ==> Unknowns(cats[n := cat]) == Unknowns(cats)
    ensures |Unknowns(cats[n := cat])| <= |Unknowns(cats)|
  {
  }

  /** The flood's working state: the queue of labelled cells whose
      neighbours are still to be submitted, and the categories. */
  datatype FloodState = FloodState(queue: seq<Coord>, cats: Categories)

  /** How the flood may move from state `a` to state `b`: the same cells
      carry a category; the queue only grows at its back, by cells that
      were present and now carry the label; only unknown cells change, and
      only to the label; every cell that stops being unknown is queued; so
      the unknown cells shrink by exactly as many cells as the queue gains. */
  predicate Grows(a: FloodState, b: FloodState, cat: Category) {
    && b.cats.Keys == a.cats.Keys
    && |a.queue| <= |b.queue| && b.queue[..|a.queue|] == a.queue
    && (forall j | |a.queue| <= j < |b.queue| :: b.queue[j] in b.cats && b.cats[b.queue[j]] == cat)
    && (forall c | c in b.cats :: b.cats[c] == a.cats[c] || (a.cats[c] == Unknown && b.cats[c] == cat))
    && (forall c | c in Unknowns(a.cats) - Unknowns(b.cats) :: c in b.queue)
    && Unknowns(b.cats) <= Unknowns(a.cats)
    && |Unknowns(b.cats)| + |b.queue| == |Unknowns(a.cats)| + |a.queue|
  }

  lemma GrowsTrans(a: FloodState, b: FloodState, c: FloodState, cat: Category)
    requires Grows(a, b, cat) && Grows(b, c, cat)
    ensures Grows(a, c, cat)
  {
    assert c.queue[..|b.queue|][..|a.queue|] == c.queue[..|a.queue|];
    forall x | x in c.cats
      ensures c.cats[x] == a.cats[x] || (a.cats[x] == Unknown && c.cats[x] == cat)
    {
      assert x in b.cats;
    }
    forall x | x in Unknowns(a.cats) - Unknowns(c.cats) ensures x in c.queue {
      if x in Unknowns(b.cats) {
        assert x in c.queue;
      } else {
        assert x in b.queue;
        var j :| 0 <= j < |b.queue| && b.queue[j] == x;
        assert c.queue[..|b.queue|][j] == x;
      }
    }
  }

  /** One submission: a neighbour that is present and unknown is labelled
      at once and queued behind the cells already waiting. */
  function SubmitOne(st: FloodState, n: Coord, cat: Category): (r: FloodState)
    requires cat != Unknown
    ensures Grows(st, r, cat)
    ensures n in st.cats ==> r.cats[n] != Unknown
  {
    if n in st.cats && st.cats[n] == Unknown then
      LabelOne(st.cats, n, cat);
      FloodState(st.queue + [n], st.cats[n := cat])
    else
      st
  }

  /** The submission of the four neighbours of `co`, in offset-table order. */
  function Submit(co: Coord, st: FloodState, cat: Category): (r: FloodState)
    requires cat != Unknown
    ensures Grows(st, r, cat)
    ensures forall d: Dir :: Add(co, Offset(d)) in st.cats ==> r.cats[Add(co, Offset(d))] != Unknown
  {
    var s1 := SubmitOne(st, Add(co, Offset(0)), cat);
    var s2 := SubmitOne(s1, Add(co, Offset(1)), cat);
    var s3 := SubmitOne(s2, Add(co, Offset(2)), cat);
    var s4 := SubmitOne(s3, Add(co, Offset(3)), cat);
    GrowsTrans(st, s1, s2, cat);
    GrowsTrans(st, s2, s3, cat);
    GrowsTrans(st, s3, s4, cat);
    s4
  }

  /** The flood fill of one side: the oldest queued cell takes the label
      and submits its unknown neighbours, until the queue is empty. */
  function Flood(queue: seq<Coord>, cats: Categories, cat: Category): (r: Categories)
    requires cat != Unknown
    ensures Unknowns(r) <= Unknowns(cats)
    decreases |Unknowns(cats)| + |queue|
  {
    if queue == [] then cats
    else
      var co := queue[0];
      LabelOne(cats, co, cat);
      var next := Submit(co, FloodState(queue[1..], cats[co := cat]), cat);
      Flood(next.queue, next.cats, cat)
  }

  /** The flood keeps its hands off everything but the unknown cells it
      reaches: it adds exactly the queued cells, every queued cell ends
      with the label, a known cell that was never queued keeps its
      category, and any other change is to the label. */
  ghost predicate FloodKeeps(queue: seq<Coord>, cats: Categories, cat: Category, r: Categories) {
    && (forall c :: c in r <==> c in cats || c in queue)
    && (forall c | c in queue :: r[c] == cat)
    && (forall c | c in r :: r[c] == cat || (c in cats && r[c] == cats[c] && c !in queue))
    && (forall c | c in cats && cats[c] != Unknown && c !in queue :: r[c] == cats[c])
  }

  /** `next` is the state after the flood pops the oldest cell of
      `queue`, labels it, and submits its neighbours. */
  predicate PopsTo(queue: seq<Coord>, cats: Categories, cat: Category, next: FloodState)
    requires cat != Unknown
  {
    queue != [] && next == Submit(queue[0], FloodState(queue[1..], cats[queue[0] := cat]), cat)
  }

  /** One pop of the flood, seen from the original state: the rest of the
      flood starts from the popped state. */
  lemma FloodPop(queue: seq<Coord>, cats: Categories, cat: Category, next: FloodState)
    requires cat != Unknown && PopsTo(queue, cats, cat, next)
    ensures Flood(queue, cats, cat) == Flood(next.queue, next.cats, cat)
  {
  }

  /** One pop of the flood shrinks the measure and the unknown cells. */
  lemma FloodPopShrinks(queue: seq<Coord>, cats: Categories, cat: Category, next: FloodState)
    requires cat != Unknown && PopsTo(queue, cats, cat, next)
    ensures |Unknowns(next.cats)| + |next.queue| < |Unknowns(cats)| + |queue|
    ensures Unknowns(next.cats) <= Unknowns(cats)
  {
    LabelOne(cats, queue[0], cat);
  }

  /** One pop of the flood, seen from the original state: the categories. */
  lemma FloodPopCats(queue: seq<Coord>, cats: Categories, cat: Category, next: FloodState)
    requires cat != Unknown && PopsTo(queue, cats, cat, next)
    ensures forall c :: c in next.cats <==> c in cats || c == queue[0]
    ensures next.cats[queue[0]] == cat
    ensures forall c | c in next.cats && c != queue[0] :: next.cats[c] == cats[c] || (cats[c] == Unknown && next.cats[c] == cat)
    ensures NoUnknownAround(next.cats, queue[0])
  {
  }

  /** One pop of the flood, seen from the original state: the queue. */
  lemma FloodPopQueue(queue: seq<Coord>, cats: Categories, cat: Category, next: FloodState)
    requires cat != Unknown && PopsTo(queue, cats, cat, next)
    ensures forall c | c in queue && c != queue[0] :: c in next.queue
    ensures forall c | c in next.queue :: c in queue || (c in next.cats && next.cats[c] == cat)
    ensures forall c | c in Unknowns(cats) - Unknowns(next.cats) :: c == queue[0] || c in next.queue
  {
    var co := queue[0];
    LabelOne(cats, co, cat);
    forall c | c in queue && c != co ensures c in next.queue {
      var j :| 0 <= j < |queue| && queue[j] == c;
      assert queue[1..][j - 1] == c;
      assert next.queue[..|queue[1..]|][j - 1] == c;
    }
    forall c | c in next.queue ensures c in queue || (c in next.cats && next.cats[c] == cat) {
      var j :| 0 <= j < |next.queue| && next.queue[j] == c;
      if j < |queue[1..]| {
        assert next.queue[..|queue[1..]|][j] == c;
        assert queue[1..][j] == c;
      }
    }
  }

  lemma {:induction false} FloodKeepsCells(queue: seq<Coord>, cats: Categories, cat: Category)
    requires cat != Unknown
    ensures FloodKeeps(queue, cats, cat, Flood(queue, cats, cat))
    decreases |Unknowns(cats)| + |queue|
  {
    if queue != [] {
      var next := Submit(queue[0], FloodState(queue[1..], cats[queue[0] := cat]), cat);
      FloodPop(queue, cats, cat, next);
      FloodPopShrinks(queue, cats, cat, next);
      FloodPopCats(queue, cats, cat, next);
      FloodPopQueue(queue, cats, cat, next);
      FloodKeepsCells(next.queue, next.cats, cat);
    }
  }

  /** The flood closes over the unknown region it enters: once it is done,
      no cell it started from or labelled has an unknown neighbour. */
  lemma {:induction false} FloodCloses(queue: seq<Coord>, cats: Categories, cat: Category)
    requires cat != Unknown
    ensures forall c | c in queue || c in Unknowns(cats) - Unknowns(Flood(queue, cats, cat)) ::
              NoUnknownAround(Flood(queue, cats, cat), c)
    decreases |Unknowns(cats)| + |queue|
  {
    if queue != [] {
      var next := Submit(queue[0], FloodState(queue[1..], cats[queue[0] := cat]), cat);
      FloodPop(queue, cats, cat, next);
      FloodPopShrinks(queue, cats, cat, next);
      FloodPopCats(queue, cats, cat, next);
      FloodPopQueue(queue, cats, cat, next);
      FloodCloses(next.queue, next.cats, cat);
      FloodKeepsCells(next.queue, next.cats, cat);
      var r := Flood(next.queue, next.cats, cat);
      forall d: Dir | Add(queue[0], Offset(d)) in r ensures r[Add(queue[0], Offset(d))] != Unknown {
        var n := Add(queue[0], Offset(d));
        if n in next.cats && n !in next.queue {
          assert n !in Unknowns(next.cats);
        }
      }
      assert NoUnknownAround(r, queue[0]);
    }
  }

  /** `p` walks from a queued cell through neighbouring cells, taking the
      steps `ds`, and every cell after the first is present and unknown. */
  predicate UnknownChain(queue: seq<Coord>, cats: Categories, p: seq<Coord>, ds: seq<Dir>) {
    && |p| >= 1 && |ds| == |p| - 1 && p[0] in queue
    && (forall i | 0 <= i < |ds| :: p[i + 1] == Add(p[i], Offset(ds[i])))
    && (forall i | 1 <= i < |p| :: p[i] in cats && cats[p[i]] == Unknown)
  }

  /** The flood reaches every unknown cell connected to a queued cell
      through unknown cells, and labels it. */
  lemma FloodReaches(queue: seq<Coord>, cats: Categories, cat: Category, p: seq<Coord>, ds: seq<Dir>)
    requires cat != Unknown && UnknownChain(queue, cats, p, ds)
    ensures forall i | 0 <= i < |p| :: p[i] in Flood(queue, cats, cat) && Flood(queue, cats, cat)[p[i]] == cat
  {
    var r := Flood(queue, cats, cat);
    FloodCloses(queue, cats, cat);
    FloodKeepsCells(queue, cats, cat);
    var i := 0;
    while i < |p| - 1
      invariant 0 <= i < |p|
      invariant forall j | 0 <= j <= i :: p[j] in r && r[p[j]] == cat && (p[j] in queue || p[j] in Unknowns(cats) - Unknowns(r))
    {
      var n := Add(p[i], Offset(ds[i]));
      assert p[i + 1] == n && n in cats && cats[n] == Unknown;
      assert NoUnknownAround(r, p[i]);
      assert n in r && r[n] != Unknown;
      i := i + 1;
    }
  }

  /** The left-hand and right-hand turns of a step `d`, with y growing
      downward. */
  function Perp1(d: Coord): Coord {
    Coord(d.y, -d.x)
  }

  function Perp2(d: Coord): Coord {
    Coord(-d.y, d.x)
  }

  /** The label for the edge neighbour at `offset` of a loop tile entered
      by the step `dc` and left by the step `dn`: the right-hand turn of
      the entry step, and every edge of a left turn, are outside. */
  function SideOf(offset: Coord, dc: Coord, dn: Coord): (r: Category)
    ensures r == Inside || r == Outside
  {
    if offset == Perp2(dc) || dn == Perp1(dc) then Outside else Inside
  }

  /** The z-component of the cross product; positive when `v` lies
      clockwise of `u` on the screen, that is, to its right. */
  function Cross(u: Coord, v: Coord): int {
    u.x * v.y - u.y * v.x
  }

  /** The quarter turns of a direction on the screen. */
  function Clockwise(d: Dir): Dir {
    if d == 3 then 0 else d + 1
  }
  function Anticlockwise(d: Dir): Dir {
    if d == 0 then 3 else d - 1
  }
  /** The cross product of two unit steps, read off the directions. */
  function Turn(u: Dir, v: Dir): int {
    if v == Clockwise(u) then 1 else if v == Anticlockwise(u) then -1 else 0
  }
  /** The offset table, one entry per direction. */
  lemma OffsetAt(d: Dir)
    ensures Offset(d) == if d == 0 then Coord(0, -1) else if d == 1 then Coord(1, 0) else if d == 2 then Coord(0, 1) else Coord(-1, 0)
  {}
  lemma OffsetInjective(a: Dir, b: Dir)
    ensures Offset(a) == Offset(b) <==> a == b
  {
    OffsetAt(a);
    OffsetAt(b);
  }
  /** The left-hand and right-hand turns of a unit step are the steps of
      the neighbouring directions. */
  lemma PerpOffsets(a: Dir)
    ensures Perp1(Offset(a)) == Offset(Anticlockwise(a))
    ensures Perp2(Offset(a)) == Offset(Clockwise(a))
  {
    OffsetAt(a);
    OffsetAt(Anticlockwise(a));
    OffsetAt(Clockwise(a));
  }
  lemma CrossOffsets(u: Dir, v: Dir)
    ensures Cross(Offset(u), Offset(v)) == Turn(u, v)
  {
    if u == 0 {
      CrossFrom(u, Coord(0, -1), v);
    } else if u == 1 {
      CrossFrom(u, Coord(1, 0), v);
    } else if u == 2 {
      CrossFrom(u, Coord(0, 1), v);
    } else {
      CrossFrom(u, Coord(-1, 0), v);
    }
  }
  lemma CrossFrom(u: Dir, o: Coord, v: Dir)
    requires Offset(u) == o
    ensures Cross(o, Offset(v)) == Turn(u, v)
  {
    if v == 0 {
      assert Offset(v) == Coord(0, -1);
    } else if v == 1 {
      assert Offset(v) == Coord(1, 0);
    } else if v == 2 {
      assert Offset(v) == Coord(0, 1);
    } else {
      assert Offset(v) == Coord(-1, 0);
    }
  }
  /** The side rule in terms of directions: a right-hand edge of the entry
      step, or any edge of a left turn, is clockwise of the corner. */
  lemma TurnSum(a: Dir, b: Dir, e: Dir)
    requires b != Opposite(a) && e != Opposite(a) && e != b
    ensures e == Clockwise(a) || b == Anticlockwise(a) <==> Turn(a, e) + Turn(b, e) > 0
    ensures !(e == Clockwise(a) || b == Anticlockwise(a)) <==> Turn(a, e) + Turn(b, e) < 0
  {
    if a == 0 {
    } else if a == 1 {
    } else if a == 2 {
    } else {
    }
  }
  /** On a loop tile entered in direction `a` and left in direction `b`,
      the label of an edge side `e` says on which hand of the path it
      lies: outside exactly when `e` is to the right of the entry and exit
      steps taken together, inside exactly when to the left; it is never
      on neither. */
  lemma SideOfIsRightHand(a: Dir, b: Dir, e: Dir)
    requires b != Opposite(a) && e != Opposite(a) && e != b
    ensures SideOf(Offset(e), Offset(a), Offset(b)) == Outside <==> Cross(Offset(a), Offset(e)) + Cross(Offset(b), Offset(e)) > 0
    ensures SideOf(Offset(e), Offset(a), Offset(b)) == Inside <==> Cross(Offset(a), Offset(e)) + Cross(Offset(b), Offset(e)) < 0
  {
    PerpOffsets(a);
    OffsetInjective(e, Clockwise(a));
    OffsetInjective(b, Anticlockwise(a));
    CrossOffsets(a, e);
    CrossOffsets(b, e);
    TurnSum(a, b, e);
  }

  /** No unknown cell borders a cell already labelled inside or outside. */
  predicate Closed(cats: Categories) {
    forall c | c in cats && (cats[c] == Inside || cats[c] == Outside) :: NoUnknownAround(cats, c)
  }

  /** The categories move from `before` to `after` only by unknown cells
      taking a side label. */
  predicate OnlySides(before: Categories, after: Categories) {
    && after.Keys == before.Keys
    && forall c | c in after :: after[c] == before[c] || (before[c] == Unknown && (after[c] == Inside || after[c] == Outside))
  }

  /** Flooding from one unknown cell only turns unknown cells into the
      label, starting with that cell. */
  lemma FloodOneSide(n: Coord, cats: Categories, cat: Category)
    requires n in cats && cats[n] == Unknown && (cat == Inside || cat == Outside)
    ensures OnlySides(cats, Flood([n], cats, cat))
    ensures Unknowns(Flood([n], cats, cat)) <= Unknowns(cats)
    ensures Flood([n], cats, cat)[n] == cat
  {
    var r := Flood([n], cats, cat);
    FloodKeepsCells([n], cats, cat);
    assert r.Keys == cats.Keys;
    forall c | c in r ensures r[c] == cats[c] || (cats[c] == Unknown && (r[c] == Inside || r[c] == Outside)) {
      if c != n && cats[c] != Unknown {
        assert c !in [n];
      }
    }
  }

  /** Flooding from one unknown cell keeps the side labels closed. */
  lemma FloodOneSideClosed(n: Coord, cats: Categories, cat: Category)
    requires n in cats && cats[n] == Unknown && (cat == Inside || cat == Outside)
    requires Closed(cats)
    ensures Closed(Flood([n], cats, cat))
  {
    var r := Flood([n], cats, cat);
    FloodOneSide(n, cats, cat);
    FloodCloses([n], cats, cat);
    forall c | c in r && (r[c] == Inside || r[c] == Outside) ensures NoUnknownAround(r, c) {
      if r[c] != cats[c] {
        assert c in Unknowns(cats) - Unknowns(r);
      } else {
        assert NoUnknownAround(cats, c);
      }
    }
  }

  /** The edge-side step for one loop tile `co`: each edge neighbour that
      is still unknown seeds a flood with the label of its side. */
  function FloodEdges(co: Coord, edges: seq<Dir>, dc: Coord, dn: Coord, cats: Categories): Categories
  {
    if edges == [] then cats
    else
      var n := Add(co, Offset(edges[0]));
      var cats' := if n in cats && cats[n] == Unknown then Flood([n], cats, SideOf(Offset(edges[0]), dc, dn)) else cats;
      FloodEdges(co, edges[1..], dc, dn, cats')
  }

  /** The edge-side step only labels unknown cells and keeps the labels
      closed. */
  lemma {:induction false} FloodEdgesKeeps(co: Coord, edges: seq<Dir>, dc: Coord, dn: Coord, cats: Categories)
    ensures OnlySides(cats, FloodEdges(co, edges, dc, dn, cats))
    ensures Unknowns(FloodEdges(co, edges, dc, dn, cats)) <= Unknowns(cats)
    ensures Closed(cats) ==> Closed(FloodEdges(co, edges, dc, dn, cats))
  {
    if edges != [] {
      var n := Add(co, Offset(edges[0]));
      var cats' := if n in cats && cats[n] == Unknown then Flood([n], cats, SideOf(Offset(edges[0]), dc, dn)) else cats;
      if n in cats && cats[n] == Unknown {
        FloodOneSide(n, cats, SideOf(Offset(edges[0]), dc, dn));
        if Closed(cats) {
          FloodOneSideClosed(n, cats, SideOf(Offset(edges[0]), dc, dn));
        }
      }
      FloodEdgesKeeps(co, edges[1..], dc, dn, cats');
      var r := FloodEdges(co, edges[1..], dc, dn, cats');
      assert FloodEdges(co, edges, dc, dn, cats) == r;
      forall c | c in r ensures r[c] == cats[c] || (cats[c] == Unknown && (r[c] == Inside || r[c] == Outside)) {
        assert c in cats';
      }
    }
  }

  /** The edge-side step leaves no edge neighbour unknown. */
  lemma {:induction false} FloodEdgesCovers(co: Coord, edges: seq<Dir>, dc: Coord, dn: Coord, cats: Categories)
    ensures forall e | e in edges && Add(co, Offset(e)) in cats ::
              Add(co, Offset(e)) in FloodEdges(co, edges, dc, dn, cats) && FloodEdges(co, edges, dc, dn, cats)[Add(co, Offset(e))] != Unknown
  {
    if edges != [] {
      var n := Add(co, Offset(edges[0]));
      var cats' := if n in cats && cats[n] == Unknown then Flood([n], cats, SideOf(Offset(edges[0]), dc, dn)) else cats;
      if n in cats && cats[n] == Unknown {
        FloodOneSide(n, cats, SideOf(Offset(edges[0]), dc, dn));
      }
      FloodEdgesKeeps(co, edges[1..], dc, dn, cats');
      FloodEdgesCovers(co, edges[1..], dc, dn, cats');
      var r := FloodEdges(co, edges[1..], dc, dn, cats');
      assert FloodEdges(co, edges, dc, dn, cats) == r;
      forall e | e in edges && Add(co, Offset(e)) in cats ensures Add(co, Offset(e)) in r && r[Add(co, Offset(e))] != Unknown {
        if e != edges[0] {
          assert e in edges[1..];
        } else {
          assert n !in Unknowns(cats');
        }
      }
    }
  }

  /** The first edge neighbour, when unknown, takes the label of its side. */
  lemma FloodEdgesFirst(co: Coord, edges: seq<Dir>, dc: Coord, dn: Coord, cats: Categories)
    requires edges != [] && Add(co, Offset(edges[0])) in cats && cats[Add(co, Offset(edges[0]))] == Unknown
    ensures && Add(co, Offset(edges[0])) in FloodEdges(co, edges, dc, dn, cats)
            && FloodEdges(co, edges, dc, dn, cats)[Add(co, Offset(edges[0]))] == SideOf(Offset(edges[0]), dc, dn)
  {
    var n := Add(co, Offset(edges[0]));
    var cats' := Flood([n], cats, SideOf(Offset(edges[0]), dc, dn));
    FloodOneSide(n, cats, SideOf(Offset(edges[0]), dc, dn));
    FloodEdgesKeeps(co, edges[1..], dc, dn, cats');
    var r := FloodEdges(co, edges[1..], dc, dn, cats');
    assert FloodEdges(co, edges, dc, dn, cats) == r;
    assert n !in Unknowns(cats');
    assert r[n] == cats'[n];
  }

  /** The path tiles before and after position `i`, wrapping around at
      both ends as the negative and the modular index do in the source. */
  function Before(path: seq<Coord>, i: nat): Coord
    requires i < |path|
  {
    if i == 0 then path[|path| - 1] else path[i - 1]
  }

  function After(path: seq<Coord>, i: nat): Coord
    requires i < |path|
  {
    if i == |path| - 1 then path[0] else path[i + 1]
  }

  /** The classification walk over the path from position `i` on. */
  function ClassifyFrom(g: Grid, path: seq<Coord>, i: nat, cats: Categories): Categories
    requires i <= |path| && forall k | 0 <= k < |path| :: path[k] in g
    decreases |path| - i
  {
    if i == |path| then cats else ClassifyFrom(g, path, i + 1, ClassifyStep(g, path, i, cats))
  }

  /** One tile of the classification walk: the tile is marked as walked,
      then its edge neighbours are flooded with the label of their side,
      judged from the steps into and out of the tile. */
  function ClassifyStep(g: Grid, path: seq<Coord>, i: nat, cats: Categories): Categories
    requires i < |path| && forall k | 0 <= k < |path| :: path[k] in g
  {
    FloodEdges(path[i], EdgeNeighbors(g[path[i]]), Sub(path[i], Before(path, i)), Sub(After(path, i), path[i]), cats[path[i] := LoopWalk])
  }

  /** One step of the classification walk only marks its tile and turns
      unknown cells into side labels. */
  lemma ClassifyStepKeeps(g: Grid, path: seq<Coord>, i: nat, cats: Categories)
    requires i < |path| && forall k | 0 <= k < |path| :: path[k] in g
    ensures OnlySides(cats[path[i] := LoopWalk], ClassifyStep(g, path, i, cats))
    ensures Unknowns(ClassifyStep(g, path, i, cats)) <= Unknowns(cats)
    ensures ClassifyStep(g, path, i, cats)[path[i]] == LoopWalk
  {
    LabelOne(cats, path[i], LoopWalk);
    FloodEdgesKeeps(path[i], EdgeNeighbors(g[path[i]]), Sub(path[i], Before(path, i)), Sub(After(path, i), path[i]), cats[path[i] := LoopWalk]);
  }

  /** One step of the classification walk keeps the side labels closed. */
  lemma ClassifyStepCloses(g: Grid, path: seq<Coord>, i: nat, cats: Categories)
    requires i < |path| && forall k | 0 <= k < |path| :: path[k] in g
    requires Closed(cats)
    ensures Closed(ClassifyStep(g, path, i, cats))
  {
    var marked := cats[path[i] := LoopWalk];
    forall c | c in marked && (marked[c] == Inside || marked[c] == Outside) ensures NoUnknownAround(marked, c) {
      assert NoUnknownAround(cats, c);
    }
    FloodEdgesKeeps(path[i], EdgeNeighbors(g[path[i]]), Sub(path[i], Before(path, i)), Sub(After(path, i), path[i]), marked);
  }

  /** One step of the classification walk leaves no edge neighbour of its
      tile unknown. */
  lemma ClassifyStepCovers(g: Grid, path: seq<Coord>, i: nat, cats: Categories)
    requires i < |path| && forall k | 0 <= k < |path| :: path[k] in g
    ensures forall e | e in EdgeNeighbors(g[path[i]]) && Add(path[i], Offset(e)) in cats[path[i] := LoopWalk] ::
              Add(path[i], Offset(e)) in ClassifyStep(g, path, i, cats) && ClassifyStep(g, path, i, cats)[Add(path[i], Offset(e))] != Unknown
  {
    FloodEdgesKeeps(path[i], EdgeNeighbors(g[path[i]]), Sub(path[i], Before(path, i)), Sub(After(path, i), path[i]), cats[path[i] := LoopWalk]);
    FloodEdgesCovers(path[i], EdgeNeighbors(g[path[i]]), Sub(path[i], Before(path, i)), Sub(After(path, i), path[i]), cats[path[i] := LoopWalk]);
  }

  /** The classification walk adds exactly the path tiles from `i` on. */
  lemma {:induction false} ClassifyKeys(g: Grid, path: seq<Coord>, i: nat, cats: Categories)
    requires i <= |path| && forall k | 0 <= k < |path| :: path[k] in g
    ensures forall c :: c in ClassifyFrom(g, path, i, cats) <==> c in cats || c in path[i..]
    decreases |path| - i
  {
    if i < |path| {
      var after := ClassifyStep(g, path, i, cats);
      ClassifyStepKeeps(g, path, i, cats);
      ClassifyKeys(g, path, i + 1, after);
      assert path[i..] == [path[i]] + path[i + 1..];
    }
  }

  /** The classification walk never makes a cell unknown. */
  lemma {:induction false} ClassifyUnknowns(g: Grid, path: seq<Coord>, i: nat, cats: Categories)
    requires i <= |path| && forall k | 0 <= k < |path| :: path[k] in g
    ensures Unknowns(ClassifyFrom(g, path, i, cats)) <= Unknowns(cats)
    decreases |path| - i
  {
    if i < |path| {
      ClassifyStepKeeps(g, path, i, cats);
      ClassifyUnknowns(g, path, i + 1, ClassifyStep(g, path, i, cats));
    }
  }

  /** Every path tile from `i` on is marked as walked in `r`. */
  predicate WalkedFrom(path: seq<Coord>, i: nat, r: Categories)
    requires i <= |path|
  {
    forall k | i <= k < |path| :: path[k] in r && r[path[k]] == LoopWalk
  }

  /** The classification walk leaves every path tile from `i` on marked as
      walked. */
  lemma {:induction false} ClassifyWalked(g: Grid, path: seq<Coord>, i: nat, cats: Categories)
    requires i <= |path| && forall k | 0 <= k < |path| :: path[k] in g
    ensures WalkedFrom(path, i, ClassifyFrom(g, path, i, cats))
    decreases |path| - i
  {
    if i < |path| {
      var after := ClassifyStep(g, path, i, cats);
      var r := ClassifyFrom(g, path, i + 1, after);
      ClassifyStepKeeps(g, path, i, cats);
      ClassifyWalked(g, path, i + 1, after);
      ClassifyWalkedHead(g, path, i, after, r);
      assert ClassifyFrom(g, path, i, cats) == r;
    }
  }

  /** The tile at `i`, marked walked by its own step, stays walked. */
  lemma ClassifyWalkedHead(g: Grid, path: seq<Coord>, i: nat, after: Categories, r: Categories)
    requires i < |path| && forall k | 0 <= k < |path| :: path[k] in g
    requires path[i] in after && after[path[i]] == LoopWalk
    requires r == ClassifyFrom(g, path, i + 1, after) && WalkedFrom(path, i + 1, r)
    ensures WalkedFrom(path, i, r)
  {
    if path[i] !in path[i + 1..] {
      ClassifyLabels(g, path, i + 1, after);
    } else {
      var j :| 0 <= j < |path[i + 1..]| && path[i + 1..][j] == path[i];
      assert path[i] == path[i + 1 + j];
    }
  }

  /** Off the path, the classification walk only turns unknown cells into
      side labels. */
  lemma {:induction false} ClassifyLabels(g: Grid, path: seq<Coord>, i: nat, cats: Categories)
    requires i <= |path| && forall k | 0 <= k < |path| :: path[k] in g
    ensures forall c | c in cats && c !in path[i..] ::
              && c in ClassifyFrom(g, path, i, cats)
              && (|| ClassifyFrom(g, path, i, cats)[c] == cats[c]
                  || (cats[c] == Unknown && (ClassifyFrom(g, path, i, cats)[c] == Inside || ClassifyFrom(g, path, i, cats)[c] == Outside)))
    decreases |path| - i
  {
    if i < |path| {
      var after := ClassifyStep(g, path, i, cats);
      ClassifyStepKeeps(g, path, i, cats);
      ClassifyLabels(g, path, i + 1, after);
      var r := ClassifyFrom(g, path, i + 1, after);
      assert path[i..] == [path[i]] + path[i + 1..];
      ClassifyFromStep(g, path, i, cats);
      LabelsThroughStep(cats, path[i], path[i + 1..], after, r);
    }
  }

  /** A step that marks `p` walked and only labels unknown cells, followed
      by a walk that does the same off `rest`, does the same off `p` and
      `rest`. */
  lemma LabelsThroughStep(cats: Categories, p: Coord, rest: seq<Coord>, after: Categories, r: Categories)
    requires OnlySides(cats[p := LoopWalk], after)
    requires forall c | c in after && c !in rest ::
               && c in r
               && (r[c] == after[c] || (after[c] == Unknown && (r[c] == Inside || r[c] == Outside)))
    ensures forall c | c in cats && c !in [p] + rest ::
              && c in r
              && (r[c] == cats[c] || (cats[c] == Unknown && (r[c] == Inside || r[c] == Outside)))
  {
    forall c | c in cats && c !in [p] + rest
      ensures c in r && (r[c] == cats[c] || (cats[c] == Unknown && (r[c] == Inside || r[c] == Outside)))
    {
      assert c != p && c !in rest;
      assert c in after && (after[c] == cats[c] || (cats[c] == Unknown && (after[c] == Inside || after[c] == Outside)));
    }
  }

  /** The classification walk keeps the side labels closed. */
  lemma {:induction false} ClassifyCloses(g: Grid, path: seq<Coord>, i: nat, cats: Categories)
    requires i <= |path| && forall k | 0 <= k < |path| :: path[k] in g
    requires Closed(cats)
    ensures Closed(ClassifyFrom(g, path, i, cats))
    decreases |path| - i
  {
    if i < |path| {
      var after := ClassifyStep(g, path, i, cats);
      var r := ClassifyFrom(g, path, i + 1, after);
      assert Closed(after) by {
        ClassifyStepCloses(g, path, i, cats);
      }
      assert Closed(r) by {
        ClassifyCloses(g, path, i + 1, after);
      }
      ClassifyFromStep(g, path, i, cats);
    }
  }

  /** The classification walk from `i` is the step at `i` followed by the
      walk from `i + 1`. */
  lemma ClassifyFromStep(g: Grid, path: seq<Coord>, i: nat, cats: Categories)
    requires i < |path| && forall k | 0 <= k < |path| :: path[k] in g
    ensures ClassifyFrom(g, path, i, cats) == ClassifyFrom(g, path, i + 1, ClassifyStep(g, path, i, cats))
  {
  }

  /** No edge neighbour of a path tile from `i` on is unknown in `r`. */
  predicate EdgesCovered(g: Grid, path: seq<Coord>, i: nat, r: Categories)
    requires i <= |path| && forall k | 0 <= k < |path| :: path[k] in g
  {
    forall k, e | i <= k < |path| && e in EdgeNeighbors(g[path[k]]) && Add(path[k], Offset(e)) in r ::
      r[Add(path[k], Offset(e))] != Unknown
  }

  /** The tile handled at position `i` keeps its edge neighbours known
      through the rest of the walk. */
  lemma ClassifyCoversHead(g: Grid, path: seq<Coord>, i: nat, cats: Categories, after: Categories, r: Categories)
    requires i < |path| && forall k | 0 <= k < |path| :: path[k] in g
    requires after == ClassifyStep(g, path, i, cats) && r == ClassifyFrom(g, path, i + 1, after)
    ensures forall e | e in EdgeNeighbors(g[path[i]]) && Add(path[i], Offset(e)) in r :: r[Add(path[i], Offset(e))] != Unknown
  {
    ClassifyStepKeeps(g, path, i, cats);
    ClassifyStepCovers(g, path, i, cats);
    ClassifyUnknowns(g, path, i + 1, after);
    ClassifyWalked(g, path, i + 1, after);
    ClassifyKeys(g, path, i + 1, after);
    forall e | e in EdgeNeighbors(g[path[i]]) && Add(path[i], Offset(e)) in r ensures r[Add(path[i], Offset(e))] != Unknown {
      var n := Add(path[i], Offset(e));
      if n in after {
        assert n !in Unknowns(after);
      } else {
        var j :| 0 <= j < |path[i + 1..]| && path[i + 1..][j] == n;
        assert n == path[i + 1 + j];
      }
    }
  }

  /** After the classification walk no edge neighbour of a walked tile is
      left unknown. */
  lemma {:induction false} ClassifyCovers(g: Grid, path: seq<Coord>, i: nat, cats: Categories)
    requires i <= |path| && forall k | 0 <= k < |path| :: path[k] in g
    ensures EdgesCovered(g, path, i, ClassifyFrom(g, path, i, cats))
    decreases |path| - i
  {
    if i < |path| {
      var after := ClassifyStep(g, path, i, cats);
      var r := ClassifyFrom(g, path, i + 1, after);
      ClassifyCovers(g, path, i + 1, after);
      ClassifyCoversHead(g, path, i, cats, after, r);
      EdgesCoveredCons(g, path, i, r);
    }
  }

  /** Covering the tile at `i` and every tile after it covers all from `i`. */
  lemma EdgesCoveredCons(g: Grid, path: seq<Coord>, i: nat, r: Categories)
    requires i < |path| && forall k | 0 <= k < |path| :: path[k] in g
    requires EdgesCovered(g, path, i + 1, r)
    requires forall e | e in EdgeNeighbors(g[path[i]]) && Add(path[i], Offset(e)) in r :: r[Add(path[i], Offset(e))] != Unknown
    ensures EdgesCovered(g, path, i, r)
  {
    forall k, e | i <= k < |path| && e in EdgeNeighbors(g[path[k]]) && Add(path[k], Offset(e)) in r
      ensures r[Add(path[k], Offset(e))] != Unknown
    {
    }
  }

  /** The cells of the `w` by `h` rectangle that the source enumerates. */
  function Rect(w: nat, h: nat): set<Coord> {
    set x: int, y: int | 0 <= x < w && 0 <= y < h :: Coord(x, y)
  }

  lemma InRect(w: nat, h: nat, c: Coord)
    ensures c in Rect(w, h) <==> 0 <= c.x < w && 0 <= c.y < h
  {
    if 0 <= c.x < w && 0 <= c.y < h {
      assert Coord(c.x, c.y) in Rect(w, h);
    }
  }

  /** Every rectangle cell that has no category yet becomes unknown. */
  function MarkUnknown(w: nat, h: nat, cats: Categories): Categories {
    map c | c in cats.Keys + Rect(w, h) :: if c in cats then cats[c] else Unknown
  }

  /** Marking adds exactly the rectangle cells that had no category, all
      unknown, and keeps every existing category. */
  lemma MarkUnknownSound(w: nat, h: nat, cats: Categories)
    ensures MarkUnknown(w, h, cats).Keys == cats.Keys + Rect(w, h)
    ensures forall c | c in cats :: MarkUnknown(w, h, cats)[c] == cats[c]
    ensures Unknowns(MarkUnknown(w, h, cats)) == Unknowns(cats) + (Rect(w, h) - cats.Keys)
  {
  }

  /** The cells carrying category `cat`, and how many there are: the count
      of a value in the list of the map's values. */
  function CellsOf(cats: Categories, cat: Category): set<Coord> {
    set c | c in cats && cats[c] == cat
  }

  function Count(cats: Categories, cat: Category): nat {
    |CellsOf(cats, cat)|
  }

  /** Taking one cell out of the map takes it out of its category's count. */
  lemma CountRemove(cats: Categories, k: Coord, cat: Category)
    requires k in cats
    ensures Count(cats, cat) == Count(cats - {k}, cat) + (if cats[k] == cat then 1 else 0)
  {
    if cats[k] == cat {
      assert CellsOf(cats, cat) == CellsOf(cats - {k}, cat) + {k};
    } else {
      assert CellsOf(cats, cat) == CellsOf(cats - {k}, cat);
    }
  }

  /** Every cell is counted under exactly one category. */
  lemma {:induction false} CountPartition(cats: Categories)
    ensures Count(cats, Unknown) + Count(cats, Loop) + Count(cats, LoopWalk) + Count(cats, Inside) + Count(cats, Outside) == |cats|
    decreases |cats|
  {
    if cats == map[] {
      assert forall cat :: CellsOf(cats, cat) == {};
    } else {
      var k :| k in cats;
      CountRemove(cats, k, Unknown);
      CountRemove(cats, k, Loop);
      CountRemove(cats, k, LoopWalk);
      CountRemove(cats, k, Inside);
      CountRemove(cats, k, Outside);
      CountPartition(cats - {k});
      assert |(cats - {k}).Keys| == |cats.Keys - {k}| == |cats| - 1;
    }
  }

  /** The second part up to the classification: the path the walk took and
      the final categories. An empty input has no first row to measure. */
  function Classified(rows: seq<string>): (r: Result<(seq<Coord>, Categories), PipeError>)
    ensures rows == [] ==> r == Err(EmptyInput)
    ensures rows != [] && PrepareGrid(rows).Err? ==> r == Err(PrepareGrid(rows).error)
    ensures r.Ok? ==> !Undrawable(rows)
  {
    if rows == [] then Err(EmptyInput)
    else match PrepareGrid(rows)
      case Err(e) => Err(e)
      case Ok((g, s)) =>
        match WalkLoop(g, s)
        case Err(e) => Err(e)
        case Ok((path, walked)) =>
          // The frame drawn once the walk is over reads the whole rectangle.
          if Undrawable(rows) then Err(ShortRow)
          else Ok((path, ClassifyFrom(g, path, 0, MarkUnknown(|rows[0]|, |rows|, walked))))
  }

  /** The second part's answer: how many cells ended outside and inside. */
  function PartTwo(rows: seq<string>): (r: Result<(nat, nat), PipeError>)
    ensures Classified(rows).Err? ==> r == Err(Classified(rows).error)
    ensures r.Ok? ==> Classified(rows).Ok? && r.value == (Count(Classified(rows).value.1, Outside), Count(Classified(rows).value.1, Inside))
  {
    match Classified(rows)
    case Err(e) => Err(e)
    case Ok((_, cats)) => Ok((Count(cats, Outside), Count(cats, Inside)))
  }

  /** The set of cells a path visits. */
  function PathCells(path: seq<Coord>): set<Coord> {
    set c | c in path
  }

  /** The categories after the classification walk, described without
      the walk: the path tiles are walked, every other cell lies in the
      rectangle and is unknown or carries a side label. */
  predicate SidesDescribe(path: seq<Coord>, w: nat, h: nat, r: Categories) {
    && r.Keys == Rect(w, h) + PathCells(path)
    && (forall c | c in path :: r[c] == LoopWalk)
    && (forall c | c in r && c !in path :: r[c] == Unknown || r[c] == Inside || r[c] == Outside)
  }

  /** After the loop walk, marking and classification leave the categories
      the description above says. */
  lemma SidesAfterWalk(g: Grid, path: seq<Coord>, walked: Categories, w: nat, h: nat)
    requires forall k | 0 <= k < |path| :: path[k] in g
    requires forall c :: c in walked <==> c in path
    requires forall c | c in walked :: walked[c] == Loop
    ensures SidesDescribe(path, w, h, ClassifyFrom(g, path, 0, MarkUnknown(w, h, walked)))
  {
    var m := MarkUnknown(w, h, walked);
    var r := ClassifyFrom(g, path, 0, m);
    MarkUnknownSound(w, h, walked);
    ClassifyKeys(g, path, 0, m);
    ClassifyWalked(g, path, 0, m);
    ClassifyLabels(g, path, 0, m);
    assert path[0..] == path;
    assert walked.Keys == PathCells(path);
    forall c | c in path ensures r[c] == LoopWalk {
      var k :| 0 <= k < |path| && path[k] == c;
    }
    forall c | c in r && c !in path ensures r[c] == Unknown || r[c] == Inside || r[c] == Outside {
      assert c in m && c !in walked;
    }
  }

  /** Under that description the counts of the three off-path categories
      add up to the rectangle cells off the path. */
  lemma SidesCount(path: seq<Coord>, w: nat, h: nat, r: Categories)
    requires SidesDescribe(path, w, h, r)
    ensures Count(r, Outside) + Count(r, Inside) + Count(r, Unknown) == |Rect(w, h) - PathCells(path)|
  {
    var cells := PathCells(path);
    var rest := Rect(w, h) - cells;
    CountPartition(r);
    assert CellsOf(r, Loop) == {} by {
      forall c | c in r ensures r[c] != Loop {
      }
    }
    assert CellsOf(r, LoopWalk) == cells by {
      forall c | c in r && r[c] == LoopWalk ensures c in cells {
      }
    }
    assert r.Keys == rest + cells;
    assert rest * cells == {};
    assert |rest + cells| == |rest| + |cells|;
  }

  /** A successful classification comes from a prepared grid and a walk
      that stayed on it. */
  lemma ClassifiedUnfold(rows: seq<string>)
    requires Classified(rows).Ok?
    ensures rows != [] && PrepareGrid(rows).Ok?
    ensures WalkLoop(PrepareGrid(rows).value.0, PrepareGrid(rows).value.1).Ok?
    ensures Classified(rows).value.0 == WalkLoop(PrepareGrid(rows).value.0, PrepareGrid(rows).value.1).value.0
    ensures Classified(rows).value.1 ==
              ClassifyFrom(PrepareGrid(rows).value.0, Classified(rows).value.0, 0,
                           MarkUnknown(|rows[0]|, |rows|, WalkLoop(PrepareGrid(rows).value.0, PrepareGrid(rows).value.1).value.1))
  {
    assert rows != [];
    var p := PrepareGrid(rows);
    assert p.Ok?;
    var w := WalkLoop(p.value.0, p.value.1);
    assert w.Ok? && !Undrawable(rows);
    assert Classified(rows) == Ok((w.value.0, ClassifyFrom(p.value.0, w.value.0, 0, MarkUnknown(|rows[0]|, |rows|, w.value.1))));
  }

  /** The second part's result: the walked path tiles are marked walked,
      every other cell lies in the rectangle and is unknown or labelled,
      no unknown cell borders a labelled one, no edge neighbour of a
      walked tile is unknown, and the outside, inside and unknown counts
      add up to the rectangle cells off the path. */
  lemma PartTwoSound(rows: seq<string>)
    requires Classified(rows).Ok?
    ensures rows != [] && PrepareGrid(rows).Ok? && !Undrawable(rows)
    ensures SidesDescribe(Classified(rows).value.0, |rows[0]|, |rows|, Classified(rows).value.1)
    ensures Closed(Classified(rows).value.1)
    ensures EdgesCovered(PrepareGrid(rows).value.0, Classified(rows).value.0, 0, Classified(rows).value.1)
    ensures PartTwo(rows).Ok?
    ensures PartTwo(rows).value.0 + PartTwo(rows).value.1 + Count(Classified(rows).value.1, Unknown)
              == |Rect(|rows[0]|, |rows|) - PathCells(Classified(rows).value.0)|
  {
    ClassifiedUnfold(rows);
    var g := PrepareGrid(rows).value.0;
    var walk := WalkLoop(g, PrepareGrid(rows).value.1).value;
    var m := MarkUnknown(|rows[0]|, |rows|, walk.1);
    SidesAfterWalk(g, walk.0, walk.1, |rows[0]|, |rows|);
    SidesCount(walk.0, |rows[0]|, |rows|, Classified(rows).value.1);
    MarkUnknownSound(|rows[0]|, |rows|, walk.1);
    assert Closed(m);
    ClassifyCloses(g, walk.0, 0, m);
    ClassifyCovers(g, walk.0, 0, m);
  }

  /** When the start lies on a valid loop and the first step of the walk
      heads to the loop's second tile, the walked path is the loop with its
      last tile repeated at the end. */
  lemma PartTwoOnLoop(rows: seq<string>, cyc: seq<Coord>)
    requires rows != [] && StartsLoop(rows, cyc)
    requires Step(cyc[0], Neighbors(PrepareGrid(rows).value.0[cyc[0]])) == [cyc[|cyc| - 1], cyc[1]]
    ensures Undrawable(rows) ==> Classified(rows) == Err(ShortRow)
    ensures !Undrawable(rows) ==> Classified(rows).Ok? && Classified(rows).value.0 == cyc + [cyc[|cyc| - 1]]
  {
    WalkAlongLoop(PrepareGrid(rows).value.0, cyc);
  }
}

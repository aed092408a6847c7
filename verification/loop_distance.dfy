/** The first part's walk: a first-in-first-out frontier that assigns every
    cell reachable from the start its distance in steps, and the largest
    such distance. */
module LoopDistance {
  import opened Results
  import opened Pipes

  /** Distance of each reached cell; -1 marks a queued cell not yet
      popped. */
  type DistanceMap = map<Coord, int>

  /** A frontier entry: a cell and the distance it was reached at. */
  datatype Entry = Entry(at: Coord, dist: int)

  /** The grid's cells and every cell one step away from one of them. */
  function Halo(adj: Adjacency): set<Coord> {
    adj.Keys + set c, n | c in adj && n in adj[c] :: n
  }

  /** Queue, at distance d, each cell of ns that has no distance yet,
      marking it -1 so that it is queued once. */
  function Enqueue(ns: seq<Coord>, d: int, queue: seq<Entry>, dists: DistanceMap): (r: (seq<Entry>, DistanceMap))
    ensures r.1.Keys == dists.Keys + set n | n in ns
    ensures forall c | c in r.1 :: r.1[c] == if c in dists then dists[c] else -1
    ensures |queue| <= |r.0| && r.0[..|queue|] == queue
    ensures r.1.Keys == dists.Keys ==> r.0 == queue
    decreases |ns|
  {
    if ns == [] then (queue, dists)
    else if ns[0] in dists then
      var r := Enqueue(ns[1..], d, queue, dists);
      assert ns == [ns[0]] + ns[1..];
      r
    else
      var r := Enqueue(ns[1..], d, queue + [Entry(ns[0], d)], dists[ns[0] := -1]);
      assert ns == [ns[0]] + ns[1..];
      assert r.0[..|queue|] == (queue + [Entry(ns[0], d)])[..|queue|];
      r
  }

  /** Every entry Enqueue appends is a newly marked cell of ns at
      distance d. */
  lemma {:induction false} EnqueueFresh(ns: seq<Coord>, d: int, queue: seq<Entry>, dists: DistanceMap)
    ensures forall i | |queue| <= i < |Enqueue(ns, d, queue, dists).0| ::
              && Enqueue(ns, d, queue, dists).0[i].dist == d
              && Enqueue(ns, d, queue, dists).0[i].at in ns
              && Enqueue(ns, d, queue, dists).0[i].at !in dists
    decreases |ns|
  {
    if ns != [] {
      assert ns == [ns[0]] + ns[1..];
      if ns[0] in dists {
        EnqueueFresh(ns[1..], d, queue, dists);
      } else {
        var q := queue + [Entry(ns[0], d)];
        EnqueueFresh(ns[1..], d, q, dists[ns[0] := -1]);
        var r := Enqueue(ns[1..], d, q, dists[ns[0] := -1]);
        assert Enqueue(ns, d, queue, dists) == r;
        assert r.0[|queue|] == Entry(ns[0], d) by {
          assert r.0[..|q|][|queue|] == q[|queue|];
        }
        forall i | |queue| <= i < |r.0| ensures r.0[i].dist == d && r.0[i].at in ns && r.0[i].at !in dists {
          if i > |queue| {
            assert |q| <= i < |r.0|;
            assert r.0[i].dist == d;
            assert r.0[i].at in ns[1..];
          }
        }
      }
    }
  }

  /** The entries Enqueue appends are pairwise distinct and cover every
      newly marked cell. */
  lemma {:induction false} EnqueueDistinct(ns: seq<Coord>, d: int, queue: seq<Entry>, dists: DistanceMap)
    ensures forall i, j | |queue| <= i < j < |Enqueue(ns, d, queue, dists).0| ::
              Enqueue(ns, d, queue, dists).0[i].at != Enqueue(ns, d, queue, dists).0[j].at
    ensures forall c | c in Enqueue(ns, d, queue, dists).1 && c !in dists ::
              exists i | |queue| <= i < |Enqueue(ns, d, queue, dists).0| :: Enqueue(ns, d, queue, dists).0[i].at == c
    decreases |ns|
  {
    if ns != [] {
      assert ns == [ns[0]] + ns[1..];
      if ns[0] in dists {
        EnqueueDistinct(ns[1..], d, queue, dists);
      } else {
        var q := queue + [Entry(ns[0], d)];
        var m := dists[ns[0] := -1];
        var r := Enqueue(ns[1..], d, q, m);
        assert Enqueue(ns, d, queue, dists) == r;
        assert r.0[|queue|] == Entry(ns[0], d) by {
          assert r.0[..|q|][|queue|] == q[|queue|];
        }
        assert forall i, j | |q| <= i < j < |r.0| :: r.0[i].at != r.0[j].at by {
          EnqueueDistinct(ns[1..], d, q, m);
        }
        assert forall c | c in r.1 && c !in m :: exists i | |q| <= i < |r.0| :: r.0[i].at == c by {
          EnqueueDistinct(ns[1..], d, q, m);
        }
        assert forall i | |q| <= i < |r.0| :: r.0[i].at !in m by {
          EnqueueFresh(ns[1..], d, q, m);
        }
        forall i, j | |queue| <= i < j < |r.0| ensures r.0[i].at != r.0[j].at {
          if i == |queue| {
            assert r.0[j].at !in m;
          }
        }
        forall c | c in r.1 && c !in dists ensures exists i | |queue| <= i < |r.0| :: r.0[i].at == c {
          if c == ns[0] {
            assert r.0[|queue|].at == c;
          } else {
            assert c !in m;
            var i :| |q| <= i < |r.0| && r.0[i].at == c;
          }
        }
      }
    }
  }

  /** Removing more cells from h leaves no more behind. */
  lemma DiffShrinks(h: set<Coord>, a: set<Coord>, b: set<Coord>)
    requires a <= b
    ensures |h - b| <= |h - a|
  {
    assert h - a == (h - b) + ((h - a) * b);
    assert (h - b) * ((h - a) * b) == {};
  }

  /** Growing before to after inside h shrinks what remains of h, unless
      nothing was added. */
  lemma GrowWithin(h: set<Coord>, before: set<Coord>, after: set<Coord>)
    requires before <= after && after - before <= h
    ensures |h - after| <= |h - before|
    ensures |h - after| == |h - before| ==> after == before
  {
    DiffShrinks(h, before, after);
    if after != before {
      var n :| n in after && n !in before;
      DiffShrinks(h, before + {n}, after);
      assert h - (before + {n}) == (h - before) - {n};
    }
  }

  /** The queue and distances after popping the oldest entry: its cell
      gets the entry's distance and its unmarked neighbours are queued one
      step further. */
  function Popped(adj: Adjacency, queue: seq<Entry>, dists: DistanceMap): (seq<Entry>, DistanceMap)
    requires queue != [] && queue[0].at in adj
  {
    var e := queue[0];
    Enqueue(adj[e.at], e.dist + 1, queue[1..], dists[e.at := e.dist])
  }

  /** A pop marks only cells of the halo, and at least the popped one. */
  lemma PoppedMarks(adj: Adjacency, queue: seq<Entry>, dists: DistanceMap)
    requires queue != [] && queue[0].at in adj
    ensures dists.Keys + {queue[0].at} <= Popped(adj, queue, dists).1.Keys
    ensures Popped(adj, queue, dists).1.Keys - dists.Keys <= Halo(adj)
  {
    assert forall n | n in adj[queue[0].at] :: n in Halo(adj);
  }

  /** Each pop either gives a new cell of the halo a distance, or leaves
      the marked cells as they were and shortens the queue. */
  lemma SpreadMeasureDecreases(adj: Adjacency, queue: seq<Entry>, dists: DistanceMap)
    requires queue != [] && queue[0].at in adj
    ensures || |Halo(adj) - Popped(adj, queue, dists).1.Keys| < |Halo(adj) - dists.Keys|
            || (|Halo(adj) - Popped(adj, queue, dists).1.Keys| == |Halo(adj) - dists.Keys| && |Popped(adj, queue, dists).0| < |queue|)
  {
    PoppedMarks(adj, queue, dists);
    GrowWithin(Halo(adj), dists.Keys, Popped(adj, queue, dists).1.Keys);
  }

  /** The walk's loop: pop the oldest entry, give its cell the entry's
      distance, and queue every neighbour through its open sides that has
      no distance yet, one step further. A popped cell off the grid is the
      dictionary's missing key. */
  function Spread(adj: Adjacency, queue: seq<Entry>, dists: DistanceMap): (r: Result<DistanceMap, PipeError>)
    ensures r.Ok? ==> dists.Keys <= r.value.Keys
    ensures r.Ok? ==> forall i | 0 <= i < |queue| :: queue[i].at in r.value && queue[i].at in adj
    decreases |Halo(adj) - dists.Keys|, |queue|
  {
    if queue == [] then Ok(dists)
    else if queue[0].at !in adj then Err(OffGrid)
    else
      var next := Popped(adj, queue, dists);
      SpreadMeasureDecreases(adj, queue, dists);
      PoppedMarks(adj, queue, dists);
      PoppedKeepsQueue(adj, queue, dists);
      var r := Spread(adj, next.0, next.1);
      assert r.Ok? ==> forall i | 0 <= i < |queue| :: queue[i].at in r.value && queue[i].at in adj by {
        if r.Ok? {
          forall i | 0 < i < |queue| ensures queue[i].at in r.value && queue[i].at in adj {
            assert next.0[i - 1] == queue[i];
          }
        }
      }
      r
  }

  /** A pop keeps the rest of the queue, in order, at the front. */
  lemma PoppedKeepsQueue(adj: Adjacency, queue: seq<Entry>, dists: DistanceMap)
    requires queue != [] && queue[0].at in adj
    ensures forall i | 0 < i < |queue| :: Popped(adj, queue, dists).0[i - 1] == queue[i]
  {
    var q := Popped(adj, queue, dists).0;
    forall i | 0 < i < |queue| ensures q[i - 1] == queue[i] {
      assert q[..|queue| - 1][i - 1] == q[i - 1];
    }
  }

  /** What the walk keeps true of its queue: entries are distinct cells
      marked -1 at non-negative distances, and every negative mark is a
      queued -1. */
  predicate Frontier(queue: seq<Entry>, dists: DistanceMap) {
    && (forall i, j | 0 <= i < j < |queue| :: queue[i].at != queue[j].at)
    && (forall i | 0 <= i < |queue| :: queue[i].dist >= 0 && queue[i].at in dists && dists[queue[i].at] == -1)
    && (forall c | c in dists && dists[c] < 0 :: dists[c] == -1 && exists i | 0 <= i < |queue| :: queue[i].at == c)
  }

  /** Queueing unmarked cells at a non-negative distance keeps the
      frontier invariant. */
  lemma EnqueueFrontier(ns: seq<Coord>, d: int, queue: seq<Entry>, dists: DistanceMap)
    requires Frontier(queue, dists) && d >= 0
    ensures Frontier(Enqueue(ns, d, queue, dists).0, Enqueue(ns, d, queue, dists).1)
  {
    EnqueueFresh(ns, d, queue, dists);
    EnqueueDistinct(ns, d, queue, dists);
    var q := Enqueue(ns, d, queue, dists).0;
    var m := Enqueue(ns, d, queue, dists).1;
    assert forall i | 0 <= i < |queue| :: q[i] == queue[i] by {
      forall i | 0 <= i < |queue| ensures q[i] == queue[i] {
        assert q[..|queue|][i] == q[i];
      }
    }
    assert forall i, j | 0 <= i < j < |q| :: q[i].at != q[j].at by {
      forall i, j | 0 <= i < j < |q| ensures q[i].at != q[j].at {
        if j >= |queue| && i < |queue| {
          assert q[i].at in dists;
        }
      }
    }
    assert forall i | 0 <= i < |q| :: q[i].dist >= 0 && q[i].at in m && m[q[i].at] == -1;
    assert forall c | c in m && m[c] < 0 :: m[c] == -1 && exists i | 0 <= i < |q| :: q[i].at == c by {
      forall c | c in m && m[c] < 0 ensures m[c] == -1 && exists i | 0 <= i < |q| :: q[i].at == c {
        if c in dists {
          var i :| 0 <= i < |queue| && queue[i].at == c;
          assert q[i].at == c;
        }
      }
    }
  }

  /** Removing the oldest entry and giving its cell the entry's distance
      keeps the frontier invariant. */
  lemma DequeueFrontier(queue: seq<Entry>, dists: DistanceMap)
    requires Frontier(queue, dists) && queue != []
    ensures Frontier(queue[1..], dists[queue[0].at := queue[0].dist])
  {
    var e := queue[0];
    var rest := queue[1..];
    var marked := dists[e.at := e.dist];
    forall i | 0 <= i < |rest| ensures rest[i].at != e.at && rest[i] == queue[i + 1] {
      assert queue[0].at != queue[i + 1].at;
    }
    forall c | c in marked && marked[c] < 0 ensures exists i | 0 <= i < |rest| :: rest[i].at == c {
      var i :| 0 <= i < |queue| && queue[i].at == c;
      assert rest[i - 1].at == c;
    }
  }

  /** A pop keeps the frontier invariant, keeps every assigned distance,
      and assigns the popped cell its entry's distance. */
  lemma PoppedFrontier(adj: Adjacency, queue: seq<Entry>, dists: DistanceMap)
    requires Frontier(queue, dists) && queue != [] && queue[0].at in adj
    ensures Frontier(Popped(adj, queue, dists).0, Popped(adj, queue, dists).1)
    ensures forall c | c in dists && dists[c] >= 0 :: Popped(adj, queue, dists).1[c] == dists[c]
    ensures Popped(adj, queue, dists).1[queue[0].at] == queue[0].dist
    ensures |queue| - 1 <= |Popped(adj, queue, dists).0| && Popped(adj, queue, dists).0[..|queue| - 1] == queue[1..]
  {
    var e := queue[0];
    var next := Enqueue(adj[e.at], e.dist + 1, queue[1..], dists[e.at := e.dist]);
    assert Popped(adj, queue, dists) == next;
    DequeueFrontier(queue, dists);
    EnqueueFrontier(adj[e.at], e.dist + 1, queue[1..], dists[e.at := e.dist]);
    assert Frontier(next.0, next.1);
  }

  /** Under the frontier invariant the walk never changes an assigned
      distance, gives every queued cell its entry's distance, and leaves
      no cell marked -1. */
  lemma {:induction false} SpreadKeeps(adj: Adjacency, queue: seq<Entry>, dists: DistanceMap)
    requires Frontier(queue, dists)
    requires Spread(adj, queue, dists).Ok?
    ensures forall c | c in dists && dists[c] >= 0 :: Spread(adj, queue, dists).value[c] == dists[c]
    ensures forall i | 0 <= i < |queue| :: Spread(adj, queue, dists).value[queue[i].at] == queue[i].dist
    ensures forall c | c in Spread(adj, queue, dists).value :: Spread(adj, queue, dists).value[c] >= 0
    decreases |Halo(adj) - dists.Keys|, |queue|
  {
    if queue != [] {
      var next := Popped(adj, queue, dists);
      var r := Spread(adj, queue, dists).value;
      assert Spread(adj, queue, dists) == Spread(adj, next.0, next.1);
      assert && Frontier(next.0, next.1)
             && (forall c | c in dists && dists[c] >= 0 :: next.1[c] == dists[c])
             && next.1[queue[0].at] == queue[0].dist
             && |queue| - 1 <= |next.0| && next.0[..|queue| - 1] == queue[1..] by {
        PoppedFrontier(adj, queue, dists);
      }
      SpreadMeasureDecreases(adj, queue, dists);
      assert && (forall c | c in next.1 && next.1[c] >= 0 :: r[c] == next.1[c])
             && (forall i | 0 <= i < |next.0| :: r[next.0[i].at] == next.0[i].dist)
             && (forall c | c in r :: r[c] >= 0) by {
        SpreadKeeps(adj, next.0, next.1);
      }
      assert dists.Keys <= next.1.Keys by {
        PoppedMarks(adj, queue, dists);
      }
      forall c | c in dists && dists[c] >= 0 ensures r[c] == dists[c] {
        assert c in next.1 && next.1[c] == dists[c];
      }
      forall i | 0 < i < |queue| ensures r[queue[i].at] == queue[i].dist {
        assert next.0[..|queue| - 1][i - 1] == next.0[i - 1];
      }
    }
  }

  /** The first part's distances from the start cell: the queue starts
      with the start at distance 0 and nothing marked. */
  function Distances(g: Grid, s: Coord): (r: Result<DistanceMap, PipeError>)
    ensures s !in g ==> r == Err(OffGrid)
    ensures r.Ok? ==> s in r.value && r.value[s] == 0
    ensures r.Ok? ==> forall c | c in r.value :: r.value[c] >= 0
  {
    var adj := AdjacencyOf(g);
    var r := Spread(adj, [Entry(s, 0)], map[]);
    if r.Ok? then
      var marked := map[s := -1];
      assert Popped(adj, [Entry(s, 0)], map[]) == Popped(adj, [Entry(s, 0)], marked) by {
        assert map[][s := 0] == marked[s := 0];
      }
      SpreadKeeps(adj, [Entry(s, 0)], marked);
      r
    else
      r
  }

  /** The largest distance, the first part's answer; None when nothing was
      reached (the source's max of an empty dictionary fails). */
  method Farthest(dists: DistanceMap) returns (m: Option<int>)
    ensures m.None? <==> dists == map[]
    ensures m.Some? ==> m.value in dists.Values && forall c | c in dists :: dists[c] <= m.value
  {
    if dists == map[] {
      return None;
    }
    var keys := dists.Keys;
    var first :| first in keys;
    var best := dists[first];
    keys := keys - {first};
    while keys != {}
      invariant keys <= dists.Keys
      invariant best in dists.Values
      invariant forall c | c in dists && c !in keys :: dists[c] <= best
      decreases |keys|
    {
      var c :| c in keys;
      if dists[c] > best {
        best := dists[c];
      }
      keys := keys - {c};
    }
    return Some(best);
  }

  /** Steps from cell i of a loop of length L back to cell 0, going the
      shorter way round. */
  function RingDistance(L: nat, i: nat): nat
    requires i <= L
  {
    if i <= L - i then i else L - i
  }

  /** m gives exactly the cells of cyc, each its distance round the loop
      from cyc[0]. */
  predicate IsRingDistances(cyc: seq<Coord>, m: DistanceMap) {
    && (forall c | c in m :: c in cyc)
    && (forall i {:trigger m[cyc[i]]} | 0 <= i < |cyc| :: cyc[i] in m && m[cyc[i]] == RingDistance(|cyc|, i))
  }

  /** The ring distance of one loop cell. */
  lemma RingDistanceAt(cyc: seq<Coord>, m: DistanceMap, i: nat)
    requires IsRingDistances(cyc, m) && i < |cyc|
    ensures cyc[i] in m && m[cyc[i]] == RingDistance(|cyc|, i)
  {
  }

  /** The marks after the walk has gone j steps each way round a loop from
      cyc[0]: cells up to j - 1 steps away have their distance, the two
      cells j steps away are queued. */
  function Levels(cyc: seq<Coord>, j: nat): DistanceMap
    requires |cyc| >= 3 && 1 <= j && 2 * j < |cyc|
    decreases j
  {
    var L := |cyc|;
    if j == 1 then map[cyc[0] := 0][cyc[1] := -1][cyc[L - 1] := -1]
    else Levels(cyc, j - 1)[cyc[j - 1] := j - 1][cyc[j] := -1][cyc[L - j + 1] := j - 1][cyc[L - j] := -1]
  }

  /** One level further: the two queued cells get their distance and the
      next two are queued. */
  lemma LevelsNext(cyc: seq<Coord>, j: nat)
    requires |cyc| >= 3 && 1 <= j && 2 * j + 2 < |cyc|
    ensures Levels(cyc, j + 1) == Levels(cyc, j)[cyc[j] := j][cyc[j + 1] := -1][cyc[|cyc| - j] := j][cyc[|cyc| - (j + 1)] := -1]
  {
    assert |cyc| - (j + 1) + 1 == |cyc| - j;
  }

  /** Only loop cells are marked. */
  lemma {:induction false} LevelsWithin(cyc: seq<Coord>, j: nat)
    requires |cyc| >= 3 && 1 <= j && 2 * j < |cyc|
    ensures forall c | c in Levels(cyc, j) :: c in cyc
    decreases j
  {
    if j > 1 {
      LevelsWithin(cyc, j - 1);
    }
  }

  lemma {:induction false} LevelsKeys(cyc: seq<Coord>, j: nat)
    requires |cyc| >= 3 && 1 <= j && 2 * j < |cyc|
    ensures forall i | 0 <= i < |cyc| && (i <= j || i >= |cyc| - j) :: cyc[i] in Levels(cyc, j)
    ensures Prev(cyc, j) in Levels(cyc, j) && Next(cyc, |cyc| - j) in Levels(cyc, j)
    decreases j
  {
    if j > 1 {
      LevelsKeys(cyc, j - 1);
    }
    if j == 1 {
      assert Next(cyc, |cyc| - j) == cyc[0];
    } else {
      assert Next(cyc, |cyc| - j) == cyc[|cyc| - j + 1];
    }
  }

  lemma {:induction false} LevelsUnmarked(cyc: seq<Coord>, j: nat)
    requires |cyc| >= 3 && 1 <= j && 2 * j < |cyc|
    requires forall i, k | 0 <= i < k < |cyc| :: cyc[i] != cyc[k]
    ensures forall i | j < i < |cyc| - j :: cyc[i] !in Levels(cyc, j)
    decreases j
  {
    var L := |cyc|;
    if j > 1 {
      LevelsUnmarked(cyc, j - 1);
      forall i | j < i < L - j ensures cyc[i] !in Levels(cyc, j) {
        assert cyc[i] != cyc[j - 1] && cyc[i] != cyc[j] && cyc[i] != cyc[L - j + 1] && cyc[i] != cyc[L - j];
      }
    } else {
      forall i | j < i < L - j ensures cyc[i] !in Levels(cyc, j) {
        assert cyc[i] != cyc[0] && cyc[i] != cyc[1] && cyc[i] != cyc[L - 1];
      }
    }
  }

  /** The two cells j steps from the start are the queued ones. */
  lemma LevelsQueued(cyc: seq<Coord>, j: nat)
    requires |cyc| >= 3 && 1 <= j && 2 * j < |cyc|
    requires forall i, k | 0 <= i < k < |cyc| :: cyc[i] != cyc[k]
    ensures cyc[j] in Levels(cyc, j) && Levels(cyc, j)[cyc[j]] == -1
    ensures cyc[|cyc| - j] in Levels(cyc, j) && Levels(cyc, j)[cyc[|cyc| - j]] == -1
  {
    var L := |cyc|;
    if j > 1 {
      assert cyc[j] != cyc[L - j + 1] && cyc[j] != cyc[L - j];
    } else {
      assert cyc[1] != cyc[L - 1];
    }
  }

  /** Cells fewer than j steps from the start have their ring distance. */
  lemma {:induction false} LevelsValues(cyc: seq<Coord>, j: nat)
    requires |cyc| >= 3 && 1 <= j && 2 * j < |cyc|
    requires forall i, k | 0 <= i < k < |cyc| :: cyc[i] != cyc[k]
    ensures forall i | 0 <= i < |cyc| && (i < j || i > |cyc| - j) :: cyc[i] in Levels(cyc, j) && Levels(cyc, j)[cyc[i]] == RingDistance(|cyc|, i)
    decreases j
  {
    var L := |cyc|;
    LevelsKeys(cyc, j);
    if j > 1 {
      LevelsValues(cyc, j - 1);
      var prior := Levels(cyc, j - 1);
      var m := Levels(cyc, j);
      assert m == prior[cyc[j - 1] := j - 1][cyc[j] := -1][cyc[L - j + 1] := j - 1][cyc[L - j] := -1];
      forall i | 0 <= i < L && (i < j || i > L - j) ensures m[cyc[i]] == RingDistance(L, i) {
        if i == j - 1 {
          assert cyc[i] != cyc[j] && cyc[i] != cyc[L - j + 1] && cyc[i] != cyc[L - j];
        } else if i == L - j + 1 {
          assert cyc[i] != cyc[L - j];
        } else {
          assert i < j - 1 || i > L - j + 1;
          assert cyc[i] != cyc[j - 1] && cyc[i] != cyc[j] && cyc[i] != cyc[L - j + 1] && cyc[i] != cyc[L - j];
          assert m[cyc[i]] == prior[cyc[i]];
        }
      }
    } else {
      assert cyc[0] != cyc[1] && cyc[0] != cyc[L - 1];
    }
  }

  lemma EnqueueOne(ns: seq<Coord>, known: Coord, unseen: Coord, d: int, queue: seq<Entry>, dists: DistanceMap)
    requires ns == [known, unseen] || ns == [unseen, known]
    requires known in dists && unseen !in dists
    ensures Enqueue(ns, d, queue, dists) == (queue + [Entry(unseen, d)], dists[unseen := -1])
  {
    var none: seq<Coord> := [];
    assert ns[1..][1..] == none;
    var m := dists[unseen := -1];
    var q := queue + [Entry(unseen, d)];
    assert known in m;
    if ns == [known, unseen] {
      assert Enqueue(ns[1..], d, queue, dists) == Enqueue(none, d, q, m);
    } else {
      assert Enqueue(ns[1..], d, q, m) == Enqueue(none, d, q, m);
    }
  }

  lemma EnqueueNone(ns: seq<Coord>, d: int, queue: seq<Entry>, dists: DistanceMap)
    requires |ns| == 2 && ns[0] in dists && ns[1] in dists
    ensures Enqueue(ns, d, queue, dists) == (queue, dists)
  {
    var none: seq<Coord> := [];
    assert ns[1..][1..] == none;
    assert Enqueue(ns[1..], d, queue, dists) == Enqueue(none, d, queue, dists);
  }

  lemma EnqueueBoth(a: Coord, b: Coord, d: int, queue: seq<Entry>, dists: DistanceMap)
    requires a !in dists && b !in dists && a != b
    ensures Enqueue([a, b], d, queue, dists) == (queue + [Entry(a, d), Entry(b, d)], dists[a := -1][b := -1])
  {
    var none: seq<Coord> := [];
    assert [a, b][1..] == [b];
    assert [b][1..] == none;
    var q := queue + [Entry(a, d)];
    var m := dists[a := -1];
    assert b !in m;
    assert Enqueue([b], d, q, m) == Enqueue(none, d, q + [Entry(b, d)], m[b := -1]);
    assert q + [Entry(b, d)] == queue + [Entry(a, d), Entry(b, d)];
  }

  /** Popping loop cell k, one of whose loop neighbours already has a
      mark while the other has none: the other is queued one step further. */
  lemma PopFresh(adj: Adjacency, cyc: seq<Coord>, k: nat, queue: seq<Entry>, dists: DistanceMap, known: Coord, other: Coord,
                  rest: seq<Entry>, marked: DistanceMap)
    requires RingIn(adj, cyc) && k < |cyc| && queue != [] && queue[0].at == cyc[k]
    requires (known == Prev(cyc, k) && other == Next(cyc, k)) || (known == Next(cyc, k) && other == Prev(cyc, k))
    requires known in dists[cyc[k] := queue[0].dist] && other !in dists[cyc[k] := queue[0].dist]
    requires rest == queue[1..] + [Entry(other, queue[0].dist + 1)] && marked == dists[cyc[k] := queue[0].dist][other := -1]
    ensures Spread(adj, queue, dists) == Spread(adj, rest, marked)
  {
    RingAt(adj, cyc, k);
    var seen := dists[cyc[k] := queue[0].dist];
    assert Popped(adj, queue, dists) == Enqueue(adj[cyc[k]], queue[0].dist + 1, queue[1..], seen);
    EnqueueOne(adj[cyc[k]], known, other, queue[0].dist + 1, queue[1..], seen);
  }

  /** Popping loop cell k when both its loop neighbours have marks queues
      nothing. */
  lemma PopSeen(adj: Adjacency, cyc: seq<Coord>, k: nat, queue: seq<Entry>, dists: DistanceMap, rest: seq<Entry>, marked: DistanceMap)
    requires RingIn(adj, cyc) && k < |cyc| && queue != [] && queue[0].at == cyc[k]
    requires Prev(cyc, k) in dists[cyc[k] := queue[0].dist] && Next(cyc, k) in dists[cyc[k] := queue[0].dist]
    requires rest == queue[1..] && marked == dists[cyc[k] := queue[0].dist]
    ensures Spread(adj, queue, dists) == Spread(adj, rest, marked)
  {
    RingAt(adj, cyc, k);
    assert Popped(adj, queue, dists) == Enqueue(adj[cyc[k]], queue[0].dist + 1, queue[1..], marked);
    EnqueueNone(adj[cyc[k]], queue[0].dist + 1, queue[1..], marked);
  }

  /** The marks at level j around the two queued cells. */
  lemma LevelsFrontier(cyc: seq<Coord>, j: nat)
    requires |cyc| >= 3 && 1 <= j && 2 * j < |cyc|
    requires forall i, k | 0 <= i < k < |cyc| :: cyc[i] != cyc[k]
    ensures Prev(cyc, j) in Levels(cyc, j) && Next(cyc, |cyc| - j) in Levels(cyc, j)
    ensures j + 1 < |cyc| - j ==> cyc[j + 1] !in Levels(cyc, j) && cyc[|cyc| - j - 1] !in Levels(cyc, j)
  {
    LevelsKeys(cyc, j);
    LevelsUnmarked(cyc, j);
  }

  /** The final marks on a loop of odd length 2j + 1. */
  lemma EndOdd(cyc: seq<Coord>, j: nat)
    requires |cyc| >= 3 && 1 <= j && 2 * j + 1 == |cyc|
    requires forall i, k | 0 <= i < k < |cyc| :: cyc[i] != cyc[k]
    ensures IsRingDistances(cyc, Levels(cyc, j)[cyc[j] := j][cyc[j + 1] := j])
  {
    var L := |cyc|;
    var m := Levels(cyc, j)[cyc[j] := j][cyc[j + 1] := j];
    LevelsKeys(cyc, j);
    LevelsValues(cyc, j);
    assert forall c | c in m :: c in cyc by {
      LevelsWithin(cyc, j);
    }
    forall i | 0 <= i < L ensures cyc[i] in m && m[cyc[i]] == RingDistance(L, i) {
      if i != j && i != j + 1 {
        assert cyc[i] != cyc[j] && cyc[i] != cyc[j + 1];
      } else if i == j {
        assert cyc[j] != cyc[j + 1];
      }
    }
  }

  /** The final marks on a loop of even length 2j + 2. */
  lemma EndEven(cyc: seq<Coord>, j: nat)
    requires |cyc| >= 3 && 1 <= j && 2 * j + 2 == |cyc|
    requires forall i, k | 0 <= i < k < |cyc| :: cyc[i] != cyc[k]
    ensures IsRingDistances(cyc, Levels(cyc, j)[cyc[j] := j][cyc[j + 1] := -1][cyc[j + 2] := j][cyc[j + 1] := j + 1])
  {
    var L := |cyc|;
    var m := Levels(cyc, j)[cyc[j] := j][cyc[j + 1] := -1][cyc[j + 2] := j][cyc[j + 1] := j + 1];
    LevelsKeys(cyc, j);
    LevelsValues(cyc, j);
    assert forall c | c in m :: c in cyc by {
      LevelsWithin(cyc, j);
    }
    forall i | 0 <= i < L ensures cyc[i] in m && m[cyc[i]] == RingDistance(L, i) {
      if i != j && i != j + 1 && i != j + 2 {
        assert cyc[i] != cyc[j] && cyc[i] != cyc[j + 1] && cyc[i] != cyc[j + 2];
      } else if i == j {
        assert cyc[j] != cyc[j + 1] && cyc[j] != cyc[j + 2];
      } else if i == j + 2 {
        assert cyc[j + 2] != cyc[j + 1];
      }
    }
  }

  /** Popping the cell j steps forward at level j queues the cell one
      further on. */
  lemma PopForward(adj: Adjacency, cyc: seq<Coord>, j: nat)
    requires RingIn(adj, cyc) && 1 <= j && 2 * j + 2 < |cyc|
    ensures Spread(adj, [Entry(cyc[j], j), Entry(cyc[|cyc| - j], j)], Levels(cyc, j))
            == Spread(adj, [Entry(cyc[|cyc| - j], j), Entry(cyc[j + 1], j + 1)], Levels(cyc, j)[cyc[j] := j][cyc[j + 1] := -1])
  {
    var q := [Entry(cyc[j], j), Entry(cyc[|cyc| - j], j)];
    var q2 := [Entry(cyc[|cyc| - j], j), Entry(cyc[j + 1], j + 1)];
    LevelsFrontier(cyc, j);
    assert cyc[j + 1] != cyc[j];
    assert q[1..] + [Entry(cyc[j + 1], j + 1)] == q2;
    PopFresh(adj, cyc, j, q, Levels(cyc, j), Prev(cyc, j), cyc[j + 1], q2, Levels(cyc, j)[cyc[j] := j][cyc[j + 1] := -1]);
  }

  /** Popping the cell j steps backward at level j, once the forward
      cell has been popped, queues the cell one further back. */
  lemma PopBackward(adj: Adjacency, cyc: seq<Coord>, j: nat)
    requires RingIn(adj, cyc) && 1 <= j && 2 * j + 2 < |cyc|
    ensures Spread(adj, [Entry(cyc[|cyc| - j], j), Entry(cyc[j + 1], j + 1)], Levels(cyc, j)[cyc[j] := j][cyc[j + 1] := -1])
            == Spread(adj, [Entry(cyc[j + 1], j + 1), Entry(cyc[|cyc| - (j + 1)], j + 1)], Levels(cyc, j + 1))
  {
    var q2 := [Entry(cyc[|cyc| - j], j), Entry(cyc[j + 1], j + 1)];
    var q4 := [Entry(cyc[j + 1], j + 1), Entry(cyc[|cyc| - (j + 1)], j + 1)];
    var M2 := Levels(cyc, j)[cyc[j] := j][cyc[j + 1] := -1];
    LevelsFrontier(cyc, j);
    assert cyc[|cyc| - (j + 1)] != cyc[j + 1] && cyc[|cyc| - (j + 1)] != cyc[|cyc| - j] && cyc[|cyc| - (j + 1)] != cyc[j];
    assert Prev(cyc, |cyc| - j) == cyc[|cyc| - (j + 1)];
    assert q2[1..] + [Entry(cyc[|cyc| - (j + 1)], j + 1)] == q4;
    LevelsNext(cyc, j);
    PopFresh(adj, cyc, |cyc| - j, q2, M2, Next(cyc, |cyc| - j), cyc[|cyc| - (j + 1)], q4, Levels(cyc, j + 1));
  }

  /** Two pops on a loop longer than 2j + 2 take level j to level j + 1. */
  lemma SpreadNextLevel(adj: Adjacency, cyc: seq<Coord>, j: nat)
    requires RingIn(adj, cyc) && 1 <= j && 2 * j + 2 < |cyc|
    ensures Spread(adj, [Entry(cyc[j], j), Entry(cyc[|cyc| - j], j)], Levels(cyc, j))
            == Spread(adj, [Entry(cyc[j + 1], j + 1), Entry(cyc[|cyc| - (j + 1)], j + 1)], Levels(cyc, j + 1))
  {
    PopForward(adj, cyc, j);
    PopBackward(adj, cyc, j);
  }

  /** The last three pops on a loop of even length 2j + 2. */
  lemma SpreadEvenEnd(adj: Adjacency, cyc: seq<Coord>, j: nat)
    requires RingIn(adj, cyc) && 1 <= j && 2 * j + 2 == |cyc|
    ensures Spread(adj, [Entry(cyc[j], j), Entry(cyc[|cyc| - j], j)], Levels(cyc, j))
            == Ok(Levels(cyc, j)[cyc[j] := j][cyc[j + 1] := -1][cyc[j + 2] := j][cyc[j + 1] := j + 1])
  {
    var q := [Entry(cyc[j], j), Entry(cyc[j + 2], j)];
    var q2 := [Entry(cyc[j + 2], j), Entry(cyc[j + 1], j + 1)];
    var q3 := [Entry(cyc[j + 1], j + 1)];
    var none: seq<Entry> := [];
    var M2 := Levels(cyc, j)[cyc[j] := j][cyc[j + 1] := -1];
    var M3 := M2[cyc[j + 2] := j];
    LevelsFrontier(cyc, j);
    assert cyc[j + 1] != cyc[j] && cyc[j + 1] != cyc[j + 2];
    assert q[1..] + [Entry(cyc[j + 1], j + 1)] == q2;
    PopFresh(adj, cyc, j, q, Levels(cyc, j), Prev(cyc, j), cyc[j + 1], q2, M2);
    assert Prev(cyc, j + 2) == cyc[j + 1];
    assert q2[1..] == q3;
    PopSeen(adj, cyc, j + 2, q2, M2, q3, M3);
    assert Prev(cyc, j + 1) == cyc[j] && Next(cyc, j + 1) == cyc[j + 2];
    assert q3[1..] == none;
    PopSeen(adj, cyc, j + 1, q3, M3, none, M3[cyc[j + 1] := j + 1]);
  }

  /** The last two pops on a loop of odd length 2j + 1. */
  lemma SpreadOddEnd(adj: Adjacency, cyc: seq<Coord>, j: nat)
    requires RingIn(adj, cyc) && 1 <= j && 2 * j + 1 == |cyc|
    ensures Spread(adj, [Entry(cyc[j], j), Entry(cyc[|cyc| - j], j)], Levels(cyc, j))
            == Ok(Levels(cyc, j)[cyc[j] := j][cyc[j + 1] := j])
  {
    var q := [Entry(cyc[j], j), Entry(cyc[j + 1], j)];
    var q2 := [Entry(cyc[j + 1], j)];
    var none: seq<Entry> := [];
    var M1 := Levels(cyc, j)[cyc[j] := j];
    LevelsFrontier(cyc, j);
    assert Next(cyc, j) == cyc[j + 1];
    assert q[1..] == q2;
    PopSeen(adj, cyc, j, q, Levels(cyc, j), q2, M1);
    assert Prev(cyc, j + 1) == cyc[j];
    assert q2[1..] == none;
    PopSeen(adj, cyc, j + 1, q2, M1, none, M1[cyc[j + 1] := j]);
  }

  /** The walk from level j ends with every loop cell at its ring
      distance. */
  predicate LevelEnds(adj: Adjacency, cyc: seq<Coord>, j: nat)
    requires |cyc| >= 3 && 1 <= j && 2 * j < |cyc|
  {
    && Spread(adj, [Entry(cyc[j], j), Entry(cyc[|cyc| - j], j)], Levels(cyc, j)).Ok?
    && IsRingDistances(cyc, Spread(adj, [Entry(cyc[j], j), Entry(cyc[|cyc| - j], j)], Levels(cyc, j)).value)
  }

  /** On a loop of even length 2j + 2 the walk from level j ends with
      the ring distances. */
  lemma SpreadLevelEven(adj: Adjacency, cyc: seq<Coord>, j: nat)
    requires RingIn(adj, cyc) && 1 <= j && 2 * j + 2 == |cyc|
    ensures LevelEnds(adj, cyc, j)
  {
    SpreadEvenEnd(adj, cyc, j);
    EndEven(cyc, j);
  }

  /** On a loop of odd length 2j + 1 the walk from level j ends with the
      ring distances. */
  lemma SpreadLevelOdd(adj: Adjacency, cyc: seq<Coord>, j: nat)
    requires RingIn(adj, cyc) && 1 <= j && 2 * j + 1 == |cyc|
    ensures LevelEnds(adj, cyc, j)
  {
    SpreadOddEnd(adj, cyc, j);
    EndOdd(cyc, j);
  }

  /** If the walk from level j + 1 ends with the ring distances, so does
      the walk from level j. */
  lemma SpreadLevelBack(adj: Adjacency, cyc: seq<Coord>, j: nat)
    requires RingIn(adj, cyc) && 1 <= j && 2 * j + 2 < |cyc|
    requires LevelEnds(adj, cyc, j + 1)
    ensures LevelEnds(adj, cyc, j)
  {
    SpreadNextLevel(adj, cyc, j);
  }

  /** The walk round a valid loop once it has gone j steps each way: the
      queue holds the two cells j steps away. It ends with every loop cell
      at its ring distance. */
  lemma {:induction false} SpreadLevel(adj: Adjacency, cyc: seq<Coord>, j: nat)
    requires RingIn(adj, cyc) && 1 <= j && 2 * j < |cyc|
    ensures LevelEnds(adj, cyc, j)
    decreases |cyc| - 2 * j
  {
    if 2 * j + 2 < |cyc| {
      SpreadLevel(adj, cyc, j + 1);
      SpreadLevelBack(adj, cyc, j);
    } else if 2 * j + 2 == |cyc| {
      SpreadLevelEven(adj, cyc, j);
    } else {
      SpreadLevelOdd(adj, cyc, j);
    }
  }

  /** The first pop: the start gets distance 0 and both cells it opens
      toward are queued at distance 1. */
  lemma PopStart(adj: Adjacency, s: Coord, a: Coord, b: Coord, rest: seq<Entry>, marked: DistanceMap)
    requires s in adj && adj[s] == [a, b] && a != b && a != s && b != s
    requires rest == [Entry(a, 1), Entry(b, 1)] && marked == map[s := 0][a := -1][b := -1]
    ensures Spread(adj, [Entry(s, 0)], map[]) == Spread(adj, rest, marked)
  {
    var q := [Entry(s, 0)];
    var none: DistanceMap := map[];
    assert none[s := 0] == map[s := 0];
    assert Popped(adj, q, none) == Enqueue([a, b], 1, q[1..], none[s := 0]);
    EnqueueBoth(a, b, 1, q[1..], none[s := 0]);
    assert q[1..] + [Entry(a, 1), Entry(b, 1)] == rest;
  }

  /** Ring distances are symmetric: going round the other way from cyc[0]
      gives the same distances. */
  lemma RingDistancesReversed(cyc: seq<Coord>, m: DistanceMap)
    requires |cyc| >= 1 && IsRingDistances(Reversed(cyc), m)
    ensures IsRingDistances(cyc, m)
  {
    var rev := Reversed(cyc);
    forall c | c in m ensures c in cyc {
      var i :| 0 <= i < |rev| && rev[i] == c;
      if i == 0 {
        assert cyc[0] == c;
      } else {
        assert cyc[|cyc| - i] == c;
      }
    }
    forall i | 0 <= i < |cyc| ensures cyc[i] in m && m[cyc[i]] == RingDistance(|cyc|, i) {
      if i == 0 {
        RingDistanceAt(rev, m, 0);
      } else {
        assert rev[|cyc| - i] == cyc[i];
        RingDistanceAt(rev, m, |cyc| - i);
      }
    }
  }

  /** When the start lies on a valid loop, the first part's walk gives
      exactly the loop's cells, each its distance round the loop from the
      start, the shorter way. */
  lemma DistancesOnLoop(g: Grid, cyc: seq<Coord>)
    requires ValidLoop(g, cyc)
    ensures Distances(g, cyc[0]).Ok?
    ensures IsRingDistances(cyc, Distances(g, cyc[0]).value)
  {
    ValidLoopRing(g, cyc);
    var adj := AdjacencyOf(g);
    assert Distances(g, cyc[0]) == Spread(adj, [Entry(cyc[0], 0)], map[]);
    if adj[cyc[0]] == [cyc[1], cyc[|cyc| - 1]] {
      PopStart(adj, cyc[0], cyc[1], cyc[|cyc| - 1], [Entry(cyc[1], 1), Entry(cyc[|cyc| - 1], 1)], Levels(cyc, 1));
      SpreadLevel(adj, cyc, 1);
      assert LevelEnds(adj, cyc, 1);
      assert Spread(adj, [Entry(cyc[0], 0)], map[]) == Spread(adj, [Entry(cyc[1], 1), Entry(cyc[|cyc| - 1], 1)], Levels(cyc, 1));
      assert IsRingDistances(cyc, Spread(adj, [Entry(cyc[1], 1), Entry(cyc[|cyc| - 1], 1)], Levels(cyc, 1)).value);
      assert Distances(g, cyc[0]).Ok?;
      assert IsRingDistances(cyc, Distances(g, cyc[0]).value);
    } else {
      ReversedLoop(g, cyc);
      var rev := Reversed(cyc);
      ValidLoopRing(g, rev);
      assert adj[cyc[0]] == [rev[1], rev[|rev| - 1]];
      PopStart(adj, rev[0], rev[1], rev[|rev| - 1], [Entry(rev[1], 1), Entry(rev[|rev| - 1], 1)], Levels(rev, 1));
      SpreadLevel(adj, rev, 1);
      assert LevelEnds(adj, rev, 1);
      assert Spread(adj, [Entry(cyc[0], 0)], map[]) == Spread(adj, [Entry(rev[1], 1), Entry(rev[|rev| - 1], 1)], Levels(rev, 1));
      assert IsRingDistances(rev, Spread(adj, [Entry(rev[1], 1), Entry(rev[|rev| - 1], 1)], Levels(rev, 1)).value);
      RingDistancesReversed(cyc, Spread(adj, [Entry(cyc[0], 0)], map[]).value);
      assert Distances(g, cyc[0]).Ok?;
      assert IsRingDistances(cyc, Distances(g, cyc[0]).value);
    }
  }

  /** On ring distances the largest value is half the loop's length,
      reached at the cell opposite the start. */
  lemma RingDistancesMax(cyc: seq<Coord>, m: DistanceMap)
    requires |cyc| >= 1 && IsRingDistances(cyc, m)
    ensures cyc[|cyc| / 2] in m && m[cyc[|cyc| / 2]] == |cyc| / 2
    ensures forall c | c in m :: m[c] <= |cyc| / 2
  {
    RingDistanceAt(cyc, m, |cyc| / 2);
    forall c | c in m ensures m[c] <= |cyc| / 2 {
      var i :| 0 <= i < |cyc| && cyc[i] == c;
      RingDistanceAt(cyc, m, i);
    }
  }

  /** The first part's distances for the input rows: parse, resolve the
      start, then walk from it. */
  function PartOneDistances(rows: seq<string>): (r: Result<DistanceMap, PipeError>)
    ensures PrepareGrid(rows).Err? ==> r == Err(PrepareGrid(rows).error)
    ensures r.Ok? ==> forall c | c in r.value :: r.value[c] >= 0
  {
    match PrepareGrid(rows)
    case Err(e) => Err(e)
    case Ok((g, s)) => Distances(g, s)
  }

  /** When the resolved start lies on a valid loop of the prepared grid,
      the first part's distances are the loop's ring distances. */
  lemma PartOneOnLoop(rows: seq<string>, cyc: seq<Coord>)
    requires StartsLoop(rows, cyc)
    ensures PartOneDistances(rows).Ok? && IsRingDistances(cyc, PartOneDistances(rows).value)
  {
    DistancesOnLoop(PrepareGrid(rows).value.0, cyc);
  }

  /** Any largest value of a loop's ring distances is half its length. */
  lemma FarthestOnRing(cyc: seq<Coord>, m: DistanceMap, v: int)
    requires |cyc| >= 1 && IsRingDistances(cyc, m)
    requires v in m.Values && forall c | c in m :: m[c] <= v
    ensures v == |cyc| / 2
  {
    RingDistancesMax(cyc, m);
    var c :| c in m && m[c] == v;
    assert m[c] <= |cyc| / 2;
    assert m[cyc[|cyc| / 2]] <= v;
  }

  /** The first part end to end: the largest distance the walk assigns.
      The first frame is drawn once the start has been visited, so a grid
      that cannot be drawn stops the program before any further step.
      When the start lies on a valid loop of a drawable grid the answer is
      half the loop's length. */
  method SolvePartOne(rows: seq<string>) returns (r: Result<int, PipeError>)
    ensures Undrawable(rows) ==> r == Err(ShortRow)
    ensures !Undrawable(rows) && PartOneDistances(rows).Err? ==> r == Err(PartOneDistances(rows).error)
    ensures !Undrawable(rows) && PartOneDistances(rows).Ok? ==>
              && r.Ok? && r.value in PartOneDistances(rows).value.Values
              && forall c | c in PartOneDistances(rows).value :: PartOneDistances(rows).value[c] <= r.value
    ensures forall cyc | StartsLoop(rows, cyc) && !Undrawable(rows) :: r == Ok(|cyc| / 2)
  {
    if Undrawable(rows) {
      return Err(ShortRow);
    }
    var dists := PartOneDistances(rows);
    if dists.Err? {
      forall cyc | StartsLoop(rows, cyc) ensures false {
        PartOneOnLoop(rows, cyc);
      }
      return Err(dists.error);
    }
    var best := Farthest(dists.value);
    if best.None? {
      // The walk always gives the start a distance.
      return Err(MissingStart);
    }
    r := Ok(best.value);
    forall cyc | StartsLoop(rows, cyc) ensures r == Ok(|cyc| / 2) {
      PartOneOnLoop(rows, cyc);
      FarthestOnRing(cyc, dists.value, best.value);
    }
  }
}

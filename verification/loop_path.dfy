/** The second part's walk around the loop: a last-in-first-out frontier
    that records every visited cell in visiting order and marks it Loop. */
module LoopPath {
  import opened Results
  import opened Pipes

  /** What is known about a cell during the second part. */
  datatype Category = Unknown | Loop | LoopWalk | Inside | Outside

  type Categories = map<Coord, Category>

  /** The coordinates of cs that have no category yet, in order. */
  function Uncategorised(cs: seq<Coord>, cats: Categories): (r: seq<Coord>)
    ensures forall c :: c in r <==> c in cs && c !in cats
  {
    if cs == [] then []
    else if cs[0] in cats then Uncategorised(cs[1..], cats)
    else [cs[0]] + Uncategorised(cs[1..], cats)
  }

  /** How many frontier entries already have a category. */
  function StaleCount(stack: seq<Coord>, known: set<Coord>): nat {
    if stack == [] then 0
    else (if stack[|stack| - 1] in known then 1 else 0) + StaleCount(stack[..|stack| - 1], known)
  }

  lemma {:induction false} StaleCountAppend(a: seq<Coord>, b: seq<Coord>, cats: set<Coord>)
    ensures StaleCount(a + b, cats) == StaleCount(a, cats) + StaleCount(b, cats)
    decreases |b|
  {
    if b != [] {
      assert (a + b)[..|a + b| - 1] == a + b[..|b| - 1];
      StaleCountAppend(a, b[..|b| - 1], cats);
    } else {
      assert a + b == a;
    }
  }

  lemma {:induction false} StaleCountFresh(b: seq<Coord>, cats: set<Coord>)
    requires forall c | c in b :: c !in cats
    ensures StaleCount(b, cats) == 0
    decreases |b|
  {
    if b != [] {
      StaleCountFresh(b[..|b| - 1], cats);
    }
  }

  /** c is reached through an open side of some cell of p. */
  predicate LinkedFrom(g: Grid, p: seq<Coord>, c: Coord) {
    exists j | 0 <= j < |p| :: p[j] in g && c in Step(p[j], Neighbors(g[p[j]]))
  }

  /** The frontier after one pop still holds only seeds and cells reached
      through an open side of a visited cell. */
  lemma FrontierStaysLinked(g: Grid, stack: seq<Coord>, path: seq<Coord>, seeds: set<Coord>, pushes: seq<Coord>)
    requires stack != [] && stack[|stack| - 1] in g
    requires forall i | 0 <= i < |stack| :: stack[i] in seeds || LinkedFrom(g, path, stack[i])
    requires forall c | c in pushes :: c in Step(stack[|stack| - 1], Neighbors(g[stack[|stack| - 1]]))
    ensures var next := stack[..|stack| - 1] + pushes;
            forall i | 0 <= i < |next| :: next[i] in seeds || LinkedFrom(g, path + [stack[|stack| - 1]], next[i])
  {
    var co := stack[|stack| - 1];
    var rest := stack[..|stack| - 1];
    var next := rest + pushes;
    forall i | 0 <= i < |next| ensures next[i] in seeds || LinkedFrom(g, path + [co], next[i]) {
      if i < |rest| {
        assert next[i] == stack[i];
        if stack[i] !in seeds {
          var j :| 0 <= j < |path| && path[j] in g && stack[i] in Step(path[j], Neighbors(g[path[j]]));
          assert (path + [co])[j] == path[j];
        }
      } else {
        assert next[i] in pushes;
        assert (path + [co])[|path|] == co;
      }
    }
  }

  /** Each pop either categorises a new cell of the grid, or keeps the
      categorised set and drops one stale frontier entry. */
  lemma TraceMeasureDecreases(g: Grid, stack: seq<Coord>, cats: Categories, pushes: seq<Coord>)
    requires stack != [] && stack[|stack| - 1] in g
    requires forall c | c in pushes :: c !in cats[stack[|stack| - 1] := Loop]
    ensures var co := stack[|stack| - 1];
            var cats' := cats[co := Loop];
            || |g.Keys - cats'.Keys| < |g.Keys - cats.Keys|
            || (|g.Keys - cats'.Keys| == |g.Keys - cats.Keys|
                && StaleCount(stack[..|stack| - 1] + pushes, cats'.Keys) < StaleCount(stack, cats.Keys))
  {
    var co := stack[|stack| - 1];
    var cats' := cats[co := Loop];
    var rest := stack[..|stack| - 1];
    if co in cats {
      assert cats'.Keys == cats.Keys;
      StaleCountAppend(rest, pushes, cats'.Keys);
      StaleCountFresh(pushes, cats'.Keys);
    } else {
      assert g.Keys - cats'.Keys == (g.Keys - cats.Keys) - {co};
    }
  }

  lemma PrefixShift(before: seq<Coord>, co: Coord, visited: seq<Coord>)
    ensures before + ([co] + visited)[..0] == before
    ensures forall i | 0 < i <= |visited| :: before + ([co] + visited)[..i] == (before + [co]) + visited[..i - 1]
  {
    forall i | 0 < i <= |visited| ensures before + ([co] + visited)[..i] == (before + [co]) + visited[..i - 1] {
      assert ([co] + visited)[..i] == [co] + visited[..i - 1];
    }
  }

  /** The walk's loop: pop the newest frontier entry, record it as
      visited, mark it Loop, and push every neighbour through its open
      sides that has no category yet. The result is the cells in visiting
      order (the part of the path this loop appends) and the final
      categories. A popped cell off the grid is the dictionary's missing
      key. */
  function Trace(g: Grid, stack: seq<Coord>, cats: Categories): (r: Result<(seq<Coord>, Categories), PipeError>)
    decreases |g.Keys - cats.Keys|, StaleCount(stack, cats.Keys)
  {
    if stack == [] then Ok(([], cats))
    else
      var co := stack[|stack| - 1];
      if co !in g then Err(OffGrid)
      else
        var cats' := cats[co := Loop];
        var pushes := Uncategorised(Step(co, Neighbors(g[co])), cats');
        TraceMeasureDecreases(g, stack, cats, pushes);
        match Trace(g, stack[..|stack| - 1] + pushes, cats')
        case Err(e) => Err(e)
        case Ok((visited, final)) => Ok(([co] + visited, final))
  }

  /** The visited cells are on the grid, and the final categories are the
      initial ones with every visited cell marked Loop. */
  ghost predicate TraceShape(g: Grid, cats: Categories, visited: seq<Coord>, final: Categories) {
    && (forall i | 0 <= i < |visited| :: visited[i] in g)
    && (forall c :: c in final <==> c in cats || c in visited)
    && (forall c | c in final :: final[c] == if c in visited then Loop else cats[c])
  }

  /** A finished walk only adds Loop marks for the cells it visited. */
  lemma {:induction false} TraceShaped(g: Grid, stack: seq<Coord>, cats: Categories)
    ensures Trace(g, stack, cats).Ok? ==> TraceShape(g, cats, Trace(g, stack, cats).value.0, Trace(g, stack, cats).value.1)
    decreases |g.Keys - cats.Keys|, StaleCount(stack, cats.Keys)
  {
    if stack != [] && stack[|stack| - 1] in g {
      var co := stack[|stack| - 1];
      var cats' := cats[co := Loop];
      var pushes := Uncategorised(Step(co, Neighbors(g[co])), cats');
      TraceMeasureDecreases(g, stack, cats, pushes);
      TraceShaped(g, stack[..|stack| - 1] + pushes, cats');
      TracePop(g, stack, cats);
    }
  }

  /** One pop of the walk, for a frontier whose top is on the grid. */
  lemma TracePop(g: Grid, stack: seq<Coord>, cats: Categories)
    requires stack != [] && stack[|stack| - 1] in g
    ensures
      var co := stack[|stack| - 1];
      var cats' := cats[co := Loop];
      var pushes := Uncategorised(Step(co, Neighbors(g[co])), cats');
      Trace(g, stack, cats)
      == match Trace(g, stack[..|stack| - 1] + pushes, cats')
         case Err(e) => Err(e)
         case Ok((visited, final)) => Ok(([co] + visited, final))
  {
  }

  /** Every visited cell is a seed of the frontier or is reached through an
      open side of a cell visited before it: the walk follows pipes. */
  lemma {:induction false} TraceLinked(g: Grid, stack: seq<Coord>, cats: Categories, before: seq<Coord>, seeds: set<Coord>)
    requires forall i | 0 <= i < |stack| :: stack[i] in seeds || LinkedFrom(g, before, stack[i])
    requires Trace(g, stack, cats).Ok?
    ensures var visited := Trace(g, stack, cats).value.0;
            forall i | 0 <= i < |visited| :: visited[i] in seeds || LinkedFrom(g, before + visited[..i], visited[i])
    decreases |g.Keys - cats.Keys|, StaleCount(stack, cats.Keys)
  {
    if stack != [] {
      var co := stack[|stack| - 1];
      var cats' := cats[co := Loop];
      var pushes := Uncategorised(Step(co, Neighbors(g[co])), cats');
      TracePop(g, stack, cats);
      FrontierStaysLinked(g, stack, before, seeds, pushes);
      TraceMeasureDecreases(g, stack, cats, pushes);
      TraceLinked(g, stack[..|stack| - 1] + pushes, cats', before + [co], seeds);
      PrefixShift(before, co, Trace(g, stack[..|stack| - 1] + pushes, cats').value.0);
    }
  }

  /** The second part's loop walk: the frontier starts with the start
      cell alone and nothing categorised. */
  function WalkLoop(g: Grid, s: Coord): (r: Result<(seq<Coord>, Categories), PipeError>)
    ensures s !in g ==> r == Err(OffGrid)
    ensures r.Ok? ==> WalkShape(g, s, r.value.0, r.value.1)
  {
    TraceShaped(g, [s], map[]);
    Trace(g, [s], map[])
  }

  /** The recorded path starts at s and stays on the grid, and the cells
      marked are exactly the path's cells, all marked Loop. */
  ghost predicate WalkShape(g: Grid, s: Coord, path: seq<Coord>, cats: Categories) {
    && |path| >= 1 && path[0] == s
    && (forall i | 0 <= i < |path| :: path[i] in g)
    && (forall c :: c in cats <==> c in path)
    && (forall c | c in cats :: cats[c] == Loop)
  }

  /** Every cell of the recorded path after the first is the start again
      or is reached through an open side of an earlier path cell. */
  lemma WalkLoopLinked(g: Grid, s: Coord)
    requires WalkLoop(g, s).Ok?
    ensures var path := WalkLoop(g, s).value.0;
            forall i | 0 < i < |path| :: path[i] == s || LinkedFrom(g, path[..i], path[i])
  {
    TraceLinked(g, [s], map[], [], {s});
    var path := WalkLoop(g, s).value.0;
    forall i | 0 < i < |path| ensures path[i] == s || LinkedFrom(g, path[..i], path[i]) {
      assert [] + path[..i] == path[..i];
    }
  }

  /** Every cell of cells marked Loop, and nothing else. */
  function Marked(cells: seq<Coord>): Categories {
    map c | c in cells :: Loop
  }

  lemma UncategorisedPair(a: Coord, b: Coord, cats: Categories)
    ensures Uncategorised([a, b], cats) == (if a in cats then [] else [a]) + (if b in cats then [] else [b])
  {
    assert [b][1..] == [];
    assert Uncategorised([b], cats) == (if b in cats then [] else [b]);
    assert [a, b][1..] == [b];
  }

  /** Marking the k-th cell of a loop extends the marked prefix by one. */
  lemma MarkedExtend(cyc: seq<Coord>, k: nat)
    requires k < |cyc|
    requires forall i, j | 0 <= i < j < |cyc| :: cyc[i] != cyc[j]
    ensures cyc[k] !in Marked(cyc[..k])
    ensures Marked(cyc[..k])[cyc[k] := Loop] == Marked(cyc[..k + 1])
    ensures cyc[..k] + [cyc[k]] == cyc[..k + 1]
  {
    assert cyc[..k + 1] == cyc[..k] + [cyc[k]];
    forall i | 0 <= i < k ensures cyc[..k][i] != cyc[k] {
    }
  }

  /** Popping the k-th loop cell pushes only its successor, and nothing
      once the loop is closed. */
  lemma PushesOnLoop(g: Grid, cyc: seq<Coord>, k: nat)
    requires ValidLoop(g, cyc) && 1 <= k < |cyc|
    ensures Uncategorised(Step(cyc[k], Neighbors(g[cyc[k]])), Marked(cyc[..k + 1]))
            == if k < |cyc| - 1 then [cyc[k + 1]] else []
  {
    var cats := Marked(cyc[..k + 1]);
    assert Links(g, cyc, k);
    var ns := Step(cyc[k], Neighbors(g[cyc[k]]));
    assert ns == [ns[0], ns[1]];
    UncategorisedPair(ns[0], ns[1], cats);
    assert cyc[..k + 1][k - 1] == cyc[k - 1];
    assert Prev(cyc, k) in cats;
    if k < |cyc| - 1 {
      forall i | 0 <= i < k + 1 ensures cyc[i] != cyc[k + 1] {
      }
      assert Next(cyc, k) !in cats;
    } else {
      assert cyc[..k + 1][0] == cyc[0];
      assert Next(cyc, k) in cats;
    }
  }

  /** Popping a last, already categorised cell ends the walk. */
  lemma TraceClosed(g: Grid, cats: Categories, last: Coord)
    requires last in g && last in cats && cats[last] == Loop
    requires Uncategorised(Step(last, Neighbors(g[last])), cats) == []
    ensures Trace(g, [last], cats) == Ok(([last], cats))
  {
    assert cats[last := Loop] == cats;
    TracePop(g, [last], cats);
    var none: seq<Coord> := [];
    assert [last][..0] + none == none;
    assert [last] + none == [last];
    assert Trace(g, none, cats) == Ok((none, cats));
  }

  /** Popping co from a two-entry frontier when only next gets pushed. */
  lemma TracePopOne(g: Grid, last: Coord, co: Coord, next: Coord, cats: Categories, tail: seq<Coord>, final: Categories)
    requires co in g
    requires Uncategorised(Step(co, Neighbors(g[co])), cats[co := Loop]) == [next]
    requires Trace(g, [last, next], cats[co := Loop]) == Ok((tail, final))
    ensures Trace(g, [last, co], cats) == Ok(([co] + tail, final))
  {
    TracePop(g, [last, co], cats);
    assert [last, co][..1] + [next] == [last, next];
  }

  /** Popping co from a two-entry frontier when nothing gets pushed. */
  lemma TracePopNone(g: Grid, last: Coord, co: Coord, cats: Categories, tail: seq<Coord>, final: Categories)
    requires co in g
    requires Uncategorised(Step(co, Neighbors(g[co])), cats[co := Loop]) == []
    requires Trace(g, [last], cats[co := Loop]) == Ok((tail, final))
    ensures Trace(g, [last, co], cats) == Ok(([co] + tail, final))
  {
    TracePop(g, [last, co], cats);
    var none: seq<Coord> := [];
    assert [last, co][..1] + none == [last];
  }

  /** The walk from the k-th loop cell onward: the frontier holds the
      start's first-listed neighbour (pushed first, still waiting) and
      cell k. Each pop pushes only the next cell, until the last cell is
      reached twice. */
  lemma {:induction false} TraceAlongLoop(g: Grid, cyc: seq<Coord>, k: nat)
    requires ValidLoop(g, cyc) && 1 <= k < |cyc|
    ensures TracesAlong(g, cyc, k)
    decreases |cyc| - k
  {
    if k < |cyc| - 1 {
      TraceAlongLoop(g, cyc, k + 1);
      TraceAlongStep(g, cyc, k);
    } else {
      TraceAlongEnd(g, cyc);
    }
  }

  /** The walk with the start's first-listed neighbour waiting and cell k
      on top records cells k onward, then that neighbour again. */
  predicate TracesAlong(g: Grid, cyc: seq<Coord>, k: nat)
    requires 1 <= k < |cyc|
  {
    Trace(g, [cyc[|cyc| - 1], cyc[k]], Marked(cyc[..k])) == Ok((cyc[k..] + [cyc[|cyc| - 1]], Marked(cyc)))
  }

  /** One step of TraceAlongLoop: popping cell k pushes cell k + 1. */
  lemma TraceAlongStep(g: Grid, cyc: seq<Coord>, k: nat)
    requires ValidLoop(g, cyc) && 1 <= k < |cyc| - 1
    requires TracesAlong(g, cyc, k + 1)
    ensures TracesAlong(g, cyc, k)
  {
    var last := cyc[|cyc| - 1];
    assert Trace(g, [last, cyc[k]], Marked(cyc[..k])) == Ok(([cyc[k]] + (cyc[k + 1..] + [last]), Marked(cyc))) by {
      MarkedExtend(cyc, k);
      PushesOnLoop(g, cyc, k);
      TracePopOne(g, last, cyc[k], cyc[k + 1], Marked(cyc[..k]), cyc[k + 1..] + [last], Marked(cyc));
    }
    assert [cyc[k]] + (cyc[k + 1..] + [last]) == cyc[k..] + [last];
  }

  /** The last step of TraceAlongLoop: popping the last cell pushes
      nothing, and popping its waiting copy ends the walk. */
  lemma TraceAlongEnd(g: Grid, cyc: seq<Coord>)
    requires ValidLoop(g, cyc) && 2 <= |cyc|
    ensures TracesAlong(g, cyc, |cyc| - 1)
  {
    var k := |cyc| - 1;
    assert cyc[k..] == [cyc[k]];
    var last := cyc[k];
    MarkedExtend(cyc, k);
    PushesOnLoop(g, cyc, k);
    assert cyc[..k + 1] == cyc;
    TraceClosed(g, Marked(cyc), last);
    TracePopNone(g, last, last, Marked(cyc[..k]), [last], Marked(cyc));
  }

  /** On a valid loop whose start tile lists its predecessor first and its
      successor second, the recorded path is the loop in order followed by
      a second copy of its last cell (the start's first-listed neighbour,
      pushed first and popped again at the end), and exactly the loop's
      cells are marked Loop. */
  lemma WalkAlongLoop(g: Grid, cyc: seq<Coord>)
    requires ValidLoop(g, cyc)
    requires Step(cyc[0], Neighbors(g[cyc[0]])) == [cyc[|cyc| - 1], cyc[1]]
    ensures WalkLoop(g, cyc[0]) == Ok((cyc + [cyc[|cyc| - 1]], Marked(cyc)))
  {
    var L := |cyc|;
    WalkFirstPop(g, cyc);
    assert [cyc[0]] + (cyc[1..] + [cyc[L - 1]]) == cyc + [cyc[L - 1]];
  }

  /** The walk's first pop: the start pushes both loop neighbours. */
  lemma WalkFirstPop(g: Grid, cyc: seq<Coord>)
    requires ValidLoop(g, cyc)
    requires Step(cyc[0], Neighbors(g[cyc[0]])) == [cyc[|cyc| - 1], cyc[1]]
    ensures Trace(g, [cyc[0]], map[]) == Ok(([cyc[0]] + (cyc[1..] + [cyc[|cyc| - 1]]), Marked(cyc)))
  {
    FirstMarked(cyc, map[]);
    FirstPushes(g, cyc);
    TraceAlongLoop(g, cyc, 1);
    TracePopFirst(g, cyc[0], cyc[|cyc| - 1], cyc[1], map[], Marked(cyc[..1]), cyc[1..] + [cyc[|cyc| - 1]], Marked(cyc));
  }

  /** Marking the start alone marks the loop's first cell. */
  lemma FirstMarked(cyc: seq<Coord>, none: Categories)
    requires cyc != [] && none == map[]
    ensures none[cyc[0] := Loop] == Marked(cyc[..1])
  {
    assert cyc[..1] == [cyc[0]];
  }

  /** Neither of the start's loop neighbours is the start itself. */
  lemma FirstPushes(g: Grid, cyc: seq<Coord>)
    requires ValidLoop(g, cyc)
    requires Step(cyc[0], Neighbors(g[cyc[0]])) == [cyc[|cyc| - 1], cyc[1]]
    ensures Uncategorised(Step(cyc[0], Neighbors(g[cyc[0]])), Marked(cyc[..1])) == [cyc[|cyc| - 1], cyc[1]]
  {
    assert cyc[..1] == [cyc[0]];
    assert cyc[|cyc| - 1] != cyc[0] && cyc[1] != cyc[0];
    UncategorisedPair(cyc[|cyc| - 1], cyc[1], Marked(cyc[..1]));
  }

  /** Popping the only frontier entry when two cells get pushed. */
  lemma TracePopFirst(g: Grid, s: Coord, a: Coord, b: Coord, cats: Categories, cats': Categories, tail: seq<Coord>, final: Categories)
    requires s in g && cats' == cats[s := Loop]
    requires Uncategorised(Step(s, Neighbors(g[s])), cats') == [a, b]
    requires Trace(g, [a, b], cats') == Ok((tail, final))
    ensures Trace(g, [s], cats) == Ok(([s] + tail, final))
  {
    TracePop(g, [s], cats);
    assert [s][..0] + [a, b] == [a, b];
  }
}

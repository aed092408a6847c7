/** Day 8: walking a network of named nodes by a repeating list of left
    and right instructions. The first part walks from AAA to ZZZ; the
    second counts, from every node whose name ends in A, the moves to a
    node whose name ends in Z, and folds those counts with lcm. */
module Wasteland {
  import opened Results

  /** A node's two exits. */
  datatype Node = Node(left: string, right: string)

  /** Where a walk stops: at one name, or at any name ending in a letter. */
  datatype Goal = Named(name: string) | EndsIn(last: char)

  datatype WalkError = MissingNode(name: string) | OutOfFuel

  predicate EndsWith(s: string, c: char) {
    |s| > 0 && s[|s| - 1] == c
  }

  predicate Reached(goal: Goal, name: string) {
    match goal
    case Named(n) => name == n
    case EndsIn(c) => EndsWith(name, c)
  }

  /** One move: 'L' takes the left exit, any other instruction the right. */
  function Move(node: Node, instruction: char): string {
    if instruction == 'L' then node.left else node.right
  }

  // The reference walk.

  /** The node reached after t moves from start, the move at step k using
      instruction k modulo the list's length; None once a name is not in
      the network. */
  function Position(network: map<string, Node>, instructions: string, start: string, t: nat): Option<string>
    requires instructions != []
  {
    if t == 0 then (if start in network then Some(start) else None)
    else match Position(network, instructions, start, t - 1)
      case None => None
      case Some(name) =>
        var next := Move(network[name], instructions[(t - 1) % |instructions|]);
        if next in network then Some(next) else None
  }

  /** The walk from move k on stops at move s: every position in between
      exists and is not the goal, and position s is. */
  predicate Arrives(network: map<string, Node>, instructions: string, start: string, goal: Goal, k: nat, s: nat)
    requires instructions != []
  {
    && k < s
    && Position(network, instructions, start, s).Some?
    && Reached(goal, Position(network, instructions, start, s).value)
    && forall t | k < t < s ::
         Position(network, instructions, start, t).Some? && !Reached(goal, Position(network, instructions, start, t).value)
  }

  // The walk as the code runs it.

  /** The loop from move k at node name: the instruction is taken in turn,
      the next node is looked up, the move is counted, and the walk stops
      when the next node is the goal. The start itself is never compared
      with the goal. At most fuel moves are made; the code itself has no
      such bound. */
  function Walk(network: map<string, Node>, instructions: string, name: string, goal: Goal, k: nat, fuel: nat): Result<nat, WalkError>
    requires name in network
    decreases fuel
  {
    if instructions == [] then Ok(k)
    else if fuel == 0 then Err(OutOfFuel)
    else
      var next := Move(network[name], instructions[k % |instructions|]);
      if next !in network then Err(MissingNode(next))
      else if Reached(goal, next) then Ok(k + 1)
      else Walk(network, instructions, next, goal, k + 1, fuel - 1)
  }

  /** The walk from move k answers s exactly when it arrives at move s
      within its fuel. */
  lemma {:induction false} WalkArrives(network: map<string, Node>, instructions: string, start: string, goal: Goal, name: string, k: nat, fuel: nat, s: nat)
    requires instructions != [] && name in network
    requires Position(network, instructions, start, k) == Some(name)
    ensures Walk(network, instructions, name, goal, k, fuel) == Ok(s) <==>
      s <= k + fuel && Arrives(network, instructions, start, goal, k, s)
    decreases fuel
  {
    if fuel > 0 {
      var next := Move(network[name], instructions[k % |instructions|]);
      assert Position(network, instructions, start, k + 1) == if next in network then Some(next) else None;
      if next in network && !Reached(goal, next) {
        WalkArrives(network, instructions, start, goal, next, k + 1, fuel - 1, s);
        if Arrives(network, instructions, start, goal, k, s) {
          assert s != k + 1;
          assert Arrives(network, instructions, start, goal, k + 1, s);
        }
        if Arrives(network, instructions, start, goal, k + 1, s) {
          assert Arrives(network, instructions, start, goal, k, s);
        }
      }
    } else {
      if Arrives(network, instructions, start, goal, k, s) {
        assert s > k;
      }
    }
  }

  /** Running out of fuel means no arrival was missed: every position
      within the fuel exists and is not the goal. */
  lemma {:induction false} WalkOutOfFuel(network: map<string, Node>, instructions: string, start: string, goal: Goal, name: string, k: nat, fuel: nat)
    requires instructions != [] && name in network
    requires Position(network, instructions, start, k) == Some(name)
    requires Walk(network, instructions, name, goal, k, fuel) == Err(OutOfFuel)
    ensures forall t | k < t <= k + fuel ::
      Position(network, instructions, start, t).Some? && !Reached(goal, Position(network, instructions, start, t).value)
    decreases fuel
  {
    if fuel > 0 {
      var next := Move(network[name], instructions[k % |instructions|]);
      assert Position(network, instructions, start, k + 1) == if next in network then Some(next) else None;
      WalkOutOfFuel(network, instructions, start, goal, next, k + 1, fuel - 1);
    }
  }

  /** A missing name means the walk left the network before any
      arrival. */
  lemma {:induction false} WalkMissing(network: map<string, Node>, instructions: string, start: string, goal: Goal, name: string, k: nat, fuel: nat, missing: string)
    requires instructions != [] && name in network
    requires Position(network, instructions, start, k) == Some(name)
    requires Walk(network, instructions, name, goal, k, fuel) == Err(MissingNode(missing))
    ensures missing !in network
    ensures exists u | k < u <= k + fuel :: Position(network, instructions, start, u).None?
    decreases fuel
  {
    var next := Move(network[name], instructions[k % |instructions|]);
    assert Position(network, instructions, start, k + 1) == if next in network then Some(next) else None;
    if next in network {
      WalkMissing(network, instructions, start, goal, next, k + 1, fuel - 1, missing);
    }
  }

  // The first part.

  /** The first part: the walk from AAA to ZZZ, the instruction queue refilled
      whenever it runs empty. The starting node is looked up first. */
  method PartOne(network: map<string, Node>, instructions: string, fuel: nat) returns (r: Result<nat, WalkError>)
    ensures "AAA" !in network ==> r == Err(MissingNode("AAA"))
    ensures "AAA" in network ==> r == Walk(network, instructions, "AAA", Named("ZZZ"), 0, fuel)
  {
    if "AAA" !in network {
      return Err(MissingNode("AAA"));
    }
    var queue := instructions;
    var name := "AAA";
    var steps: nat := 0;
    var left := fuel;
    assert instructions != [] ==> queue == instructions[steps % |instructions|..] by {
      assert instructions == instructions[0..];
    }
    while queue != []
      invariant name in network
      invariant instructions != [] ==> queue == instructions[steps % |instructions|..]
      invariant instructions == [] ==> queue == []
      invariant Walk(network, instructions, name, Named("ZZZ"), steps, left) == Walk(network, instructions, "AAA", Named("ZZZ"), 0, fuel)
      decreases left
    {
      assert instructions != [];
      if left == 0 {
        return Err(OutOfFuel);
      }
      var instruction := queue[0];
      assert instruction == instructions[steps % |instructions|];
      RotateStep(instructions, steps);
      queue := queue[1..];
      var next := Move(network[name], instruction);
      if next !in network {
        return Err(MissingNode(next));
      }
      if next == "ZZZ" {
        assert Reached(Named("ZZZ"), next);
        return Ok(steps + 1);
      }
      WalkStep(network, instructions, name, Named("ZZZ"), steps, left);
      name := next;
      steps := steps + 1;
      left := left - 1;
      if queue == [] {
        queue := instructions;
        assert queue == instructions[0..];
      }
    }
    return Ok(steps);
  }

  /** A move that neither fails nor arrives leaves the rest of the walk
      to the next node. */
  lemma WalkStep(network: map<string, Node>, instructions: string, name: string, goal: Goal, k: nat, fuel: nat)
    requires name in network && instructions != [] && fuel > 0
    requires Move(network[name], instructions[k % |instructions|]) in network
    requires !Reached(goal, Move(network[name], instructions[k % |instructions|]))
    ensures Walk(network, instructions, name, goal, k, fuel) ==
            Walk(network, instructions, Move(network[name], instructions[k % |instructions|]), goal, k + 1, fuel - 1)
  {
  }

  /** Taking the head of the instructions from position k mod n leaves
      those from position (k + 1) mod n, unless none are left. */
  lemma RotateStep(instructions: string, k: nat)
    requires instructions != []
    ensures (k + 1) % |instructions| == 0 ==> instructions[k % |instructions|..][1..] == []
    ensures (k + 1) % |instructions| != 0 ==> instructions[k % |instructions|..][1..] == instructions[(k + 1) % |instructions|..]
  {
    ModNext(k, |instructions|);
  }

  // The second part.

  /** count_steps: the same walk, the instruction queue rotated by taking
      from the front and putting back on the end. */
  method CountSteps(network: map<string, Node>, instructions: string, start: string, fuel: nat) returns (r: Result<nat, WalkError>)
    requires start in network
    ensures r == Walk(network, instructions, start, EndsIn('Z'), 0, fuel)
  {
    var queue := instructions;
    var name := start;
    var steps: nat := 0;
    var left := fuel;
    while queue != []
      invariant name in network
      invariant |queue| == |instructions|
      invariant instructions != [] ==>
        queue == instructions[steps % |instructions|..] + instructions[..steps % |instructions|]
      invariant Walk(network, instructions, name, EndsIn('Z'), steps, left) == Walk(network, instructions, start, EndsIn('Z'), 0, fuel)
      decreases left
    {
      if left == 0 {
        return Err(OutOfFuel);
      }
      var instruction := queue[0];
      queue := queue[1..];
      var next := Move(network[name], instruction);
      if next !in network {
        return Err(MissingNode(next));
      }
      name := next;
      steps := steps + 1;
      left := left - 1;
      if EndsWith(next, 'Z') {
        return Ok(steps);
      }
      RotateBack(instructions, steps - 1);
      queue := queue + [instruction];
    }
    return Ok(steps);
  }

  /** Moving the head of the instructions rotated by k mod n to the end
      rotates them by (k + 1) mod n. */
  lemma RotateBack(instructions: string, k: nat)
    requires instructions != []
    ensures var n := |instructions|; var q := instructions[k % n..] + instructions[..k % n];
      q[1..] + [q[0]] == instructions[(k + 1) % n..] + instructions[..(k + 1) % n]
  {
    var n := |instructions|;
    var i := k % n;
    var q := instructions[i..] + instructions[..i];
    ModNext(k, n);
    if i + 1 < n {
      assert q[1..] == instructions[i + 1..] + instructions[..i];
      assert instructions[..i + 1] == instructions[..i] + [instructions[i]];
    } else {
      assert q[0] == instructions[i];
      assert instructions[..i] + [instructions[i]] == instructions;
    }
  }

  /** The names ending in A, in the order of the key listing. */
  function Starts(keys: seq<string>): (r: seq<string>)
    ensures forall s | s in r :: s in keys
    decreases |keys|
  {
    if keys == [] then [] else (if EndsWith(keys[0], 'A') then [keys[0]] else []) + Starts(keys[1..])
  }

  /** The starting nodes are exactly the listed names ending in A. */
  lemma {:induction false} StartsSpec(keys: seq<string>)
    ensures forall s :: s in Starts(keys) <==> s in keys && EndsWith(s, 'A')
    decreases |keys|
  {
    if keys != [] {
      StartsSpec(keys[1..]);
      assert keys == [keys[0]] + keys[1..];
    }
  }

  // Greatest common divisor and least common multiple.

  /** math.gcd on non-negative integers, by Euclid's algorithm. */
  function Gcd(a: nat, b: nat): nat
    decreases b
  {
    if b == 0 then a else Gcd(b, a % b)
  }

  /** n is a multiple of the positive d. */
  predicate MultipleOf(n: int, d: int) {
    d > 0 && n % d == 0
  }

  /** A multiple written as a product. */
  lemma MultipleProduct(d: int, c: int)
    requires d > 0
    ensures (d * c) % d == 0 && (d * c) / d == c
  {
    ModUnique(d * c, d, c, 0);
  }

  /** A product with a factor of size one or more is at least as large as
      the other factor. */
  lemma ProductBounds(d: int, e: int)
    requires d > 0
    ensures e >= 1 ==> d * e >= d
    ensures e <= -1 ==> d * e <= -d
  {
    if e >= 1 {
      assert d * e == d * (e - 1) + d;
    } else if e <= -1 {
      assert d * e == d * (e + 1) - d;
    }
  }

  /** Euclidean division is unique. */
  lemma ModUnique(k: int, n: int, q: int, r: int)
    requires n > 0 && k == q * n + r && 0 <= r < n
    ensures k % n == r && k / n == q
  {
    var q1 := k / n;
    var r1 := k % n;
    assert k == q1 * n + r1;
    assert n * (q - q1) == r1 - r;
    ProductBounds(n, q - q1);
  }

  /** The next position modulo n. */
  lemma ModNext(k: int, n: int)
    requires n > 0
    ensures k % n + 1 < n ==> (k + 1) % n == k % n + 1
    ensures k % n + 1 == n ==> (k + 1) % n == 0
    ensures k % n + 1 <= n
  {
    if k % n + 1 < n {
      ModUnique(k + 1, n, k / n, k % n + 1);
    } else {
      ModUnique(k + 1, n, k / n + 1, 0);
    }
  }

  /** Euclid's algorithm keeps a combination of its two arguments. */
  lemma {:induction false} Bezout(a: nat, b: nat) returns (s: int, t: int)
    ensures s * a + t * b == Gcd(a, b)
    decreases b
  {
    if b == 0 {
      s, t := 1, 0;
    } else {
      var s1, t1 := Bezout(b, a % b);
      var q := a / b;
      assert a % b == a - q * b;
      assert s1 * b + t1 * (a - q * b) == Gcd(a, b);
      assert t1 * (a - q * b) == t1 * a - (t1 * q) * b;
      s, t := t1, s1 - t1 * q;
    }
  }

  /** The gcd of two numbers, not both zero, is positive and divides
      both. */
  lemma {:induction false} GcdDivides(a: nat, b: nat)
    requires a > 0 || b > 0
    ensures Gcd(a, b) > 0 && a % Gcd(a, b) == 0 && b % Gcd(a, b) == 0
    decreases b
  {
    if b > 0 {
      var r := a % b;
      if r == 0 {
        assert Gcd(b, r) == b;
        assert a == (a / b) * b;
        MultipleProduct(b, a / b);
      } else {
        GcdDivides(b, r);
        assert Gcd(a, b) == Gcd(b, r);
        DividesCombination(a, b, Gcd(b, r));
      }
    }
  }

  /** A common divisor of b and a % b divides a. */
  lemma DividesCombination(a: nat, b: nat, g: int)
    requires b > 0 && g > 0 && b % g == 0 && (a % b) % g == 0
    ensures a % g == 0
  {
    var x, y, q := b / g, (a % b) / g, a / b;
    assert b == g * x && a % b == g * y;
    assert a == q * b + a % b;
    assert q * b == g * (q * x);
    assert a == g * (q * x + y);
    MultipleProduct(g, q * x + y);
  }

  /** Cancelling a positive factor. */
  lemma Cancel(m: int, l: int, g: int, c: int)
    requires g > 0 && m * g == l * g * c
    ensures m == l * c
  {
    assert (m - l * c) * g == 0;
  }

  /** One step of the fold: a * b // gcd(a, b) divides exactly, is a
      positive common multiple of a and b, and divides every common
      multiple. */
  lemma LcmStep(a: nat, b: nat)
    requires a > 0 && b > 0
    ensures Gcd(a, b) > 0 && (a * b) % Gcd(a, b) == 0
    ensures var l := a * b / Gcd(a, b); l > 0 && MultipleOf(l, a) && MultipleOf(l, b)
    ensures forall m: int | MultipleOf(m, a) && MultipleOf(m, b) :: MultipleOf(m, a * b / Gcd(a, b))
  {
    GcdDivides(a, b);
    var g := Gcd(a, b);
    var l := LcmExact(a, b, g);
    var s, t := Bezout(a, b);
    forall m: int | MultipleOf(m, a) && MultipleOf(m, b) ensures MultipleOf(m, l) {
      LcmLeast(a, b, g, s, t, l, m);
    }
  }

  /** With g dividing both, a * b / g is exact, positive, and a multiple
      of both. */
  lemma LcmExact(a: nat, b: nat, g: nat) returns (l: int)
    requires a > 0 && b > 0 && g > 0 && a % g == 0 && b % g == 0
    ensures (a * b) % g == 0 && l == a * b / g && l * g == a * b
    ensures l > 0 && MultipleOf(l, a) && MultipleOf(l, b)
  {
    var a1 := a / g;
    var b1 := b / g;
    assert a == g * a1 && b == g * b1;
    ProductBounds(g, a1);
    ProductBounds(g, b1);
    l := a1 * b;
    assert a * b == g * l;
    MultipleProduct(g, l);
    assert l == a * b1 by {
      assert a1 * b == a1 * (g * b1) == (g * a1) * b1;
    }
    MultipleProduct(a, b1);
    MultipleProduct(b, a1);
    ProductBounds(a1, b);
  }

  /** Every common multiple of a and b is a multiple of a * b / gcd. */
  lemma LcmLeast(a: nat, b: nat, g: nat, s: int, t: int, l: int, m: int)
    requires a > 0 && b > 0 && g > 0 && s * a + t * b == g && l * g == a * b && l > 0
    requires MultipleOf(m, a) && MultipleOf(m, b)
    ensures MultipleOf(m, l)
  {
    var x := m / a;
    var y := m / b;
    assert m == a * x && m == b * y;
    assert m * g == m * (s * a) + m * (t * b);
    assert m * (s * a) == (a * b) * (s * y) by {
      assert m * (s * a) == (b * y) * (s * a);
    }
    assert m * (t * b) == (a * b) * (t * x) by {
      assert m * (t * b) == (a * x) * (t * b);
    }
    assert m * g == (a * b) * (s * y + t * x);
    assert m * g == l * g * (s * y + t * x);
    Cancel(m, l, g, s * y + t * x);
    MultipleProduct(l, s * y + t * x);
  }

  datatype LcmError = DivisionByZero

  /** The loop at lines 93-95 from the running value acc: each length
      replaces it by acc * i // gcd(acc, i). */
  function FoldLcm(acc: nat, lengths: seq<nat>): Result<nat, LcmError>
    decreases |lengths|
  {
    if lengths == [] then Ok(acc)
    else
      var g := Gcd(acc, lengths[0]);
      if g == 0 then Err(DivisionByZero) else FoldLcm(acc * lengths[0] / g, lengths[1..])
  }

  /** Every length divides m. */
  predicate CommonMultiple(m: int, lengths: seq<nat>) {
    forall i | 0 <= i < |lengths| :: MultipleOf(m, lengths[i])
  }

  /** For positive lengths the fold gives a positive common multiple of
      the running value and every length, dividing every other such common
      multiple. */
  lemma {:induction false} FoldLcmSpec(acc: nat, lengths: seq<nat>)
    requires acc > 0 && forall i | 0 <= i < |lengths| :: lengths[i] > 0
    ensures FoldLcm(acc, lengths).Ok?
    ensures var l := FoldLcm(acc, lengths).value; l > 0 && MultipleOf(l, acc) && CommonMultiple(l, lengths)
    ensures forall m: int | MultipleOf(m, acc) && CommonMultiple(m, lengths) :: MultipleOf(m, FoldLcm(acc, lengths).value)
    decreases |lengths|
  {
    if lengths != [] {
      var x := lengths[0];
      LcmStep(acc, x);
      var next := acc * x / Gcd(acc, x);
      FoldLcmSpec(next, lengths[1..]);
      var l := FoldLcm(next, lengths[1..]).value;
      assert FoldLcm(acc, lengths) == FoldLcm(next, lengths[1..]);
      MultipleTransitive(l, next, acc);
      MultipleTransitive(l, next, x);
      forall i | 0 <= i < |lengths| ensures MultipleOf(l, lengths[i]) {
        if i > 0 {
          assert lengths[i] == lengths[1..][i - 1];
        }
      }
      forall m: int | MultipleOf(m, acc) && CommonMultiple(m, lengths) ensures MultipleOf(m, l) {
        assert MultipleOf(m, lengths[0]);
        assert MultipleOf(m, next);
        assert CommonMultiple(m, lengths[1..]) by {
          forall i | 0 <= i < |lengths[1..]| ensures MultipleOf(m, lengths[1..][i]) {
            assert lengths[1..][i] == lengths[i + 1];
          }
        }
      }
    }
  }

  /** A multiple of a multiple. */
  lemma MultipleTransitive(n: int, m: int, d: int)
    requires MultipleOf(n, m) && MultipleOf(m, d)
    ensures MultipleOf(n, d)
  {
    var a := n / m;
    var b := m / d;
    assert n == m * a && m == d * b;
    assert n == d * (b * a);
    MultipleProduct(d, b * a);
  }

  /** How many lengths are zero. */
  function Zeros(lengths: seq<nat>): nat
    decreases |lengths|
  {
    if lengths == [] then 0 else (if lengths[0] == 0 then 1 else 0) + Zeros(lengths[1..])
  }

  /** A zero length turns the running value to zero, and a second one
      divides by gcd(0, 0) = 0: the fold fails exactly when the zeros,
      counting a zero running value, number two or more, and otherwise a
      zero anywhere gives zero. */
  lemma {:induction false} FoldLcmZeros(acc: nat, lengths: seq<nat>)
    ensures FoldLcm(acc, lengths).Err? <==> (if acc == 0 then 1 else 0) + Zeros(lengths) >= 2
    ensures (if acc == 0 then 1 else 0) + Zeros(lengths) == 1 ==> FoldLcm(acc, lengths) == Ok(0)
    decreases |lengths|
  {
    if lengths != [] {
      var x := lengths[0];
      if acc == 0 && x == 0 {
        assert Gcd(0, 0) == 0;
      } else {
        var g := Gcd(acc, x);
        if acc == 0 {
          assert Gcd(0, x) == x by {
            assert Gcd(x, 0 % x) == Gcd(x, 0) == x;
          }
          assert acc * x / g == 0;
        } else if x == 0 {
          assert g == acc;
          assert acc * x / g == 0;
        } else {
          GcdDivides(acc, x);
          LcmStep(acc, x);
        }
        FoldLcmZeros(acc * x / g, lengths[1..]);
      }
    }
  }

  /** What the second part can fail with: a walk, or the fold. */
  datatype PartTwoError = Walking(walk: WalkError) | Folding(fold: LcmError)

  /** The second part: the lcm fold of the walk lengths from every
      starting node, in key order. */
  function PartTwo(network: map<string, Node>, keys: seq<string>, instructions: string, fuel: nat): Result<nat, PartTwoError>
    requires forall k | k in keys :: k in network
  {
    match Lengths(network, Starts(keys), instructions, fuel)
    case Err(e) => Err(Walking(e))
    case Ok(lengths) =>
      match FoldLcm(1, lengths)
      case Err(e) => Err(Folding(e))
      case Ok(l) => Ok(l)
  }

  /** count_steps from each starting node in turn, stopping at the first
      failure. */
  function Lengths(network: map<string, Node>, starts: seq<string>, instructions: string, fuel: nat): (r: Result<seq<nat>, WalkError>)
    requires forall k | k in starts :: k in network
    ensures r.Ok? ==> |r.value| == |starts|
    decreases |starts|
  {
    if starts == [] then Ok([])
    else match Walk(network, instructions, starts[0], EndsIn('Z'), 0, fuel)
      case Err(e) => Err(e)
      case Ok(n) =>
        match Lengths(network, starts[1..], instructions, fuel)
        case Err(e) => Err(e)
        case Ok(ns) => Ok([n] + ns)
  }

  /** Each length is the first arrival of the walk from its starting node
      at a name ending in Z. */
  lemma {:induction false} LengthsArrive(network: map<string, Node>, starts: seq<string>, instructions: string, fuel: nat)
    requires instructions != [] && forall k | k in starts :: k in network
    requires Lengths(network, starts, instructions, fuel).Ok?
    ensures forall i | 0 <= i < |starts| ::
      var n := Lengths(network, starts, instructions, fuel).value[i];
      1 <= n <= fuel && Arrives(network, instructions, starts[i], EndsIn('Z'), 0, n)
    decreases |starts|
  {
    if starts != [] {
      var n := Walk(network, instructions, starts[0], EndsIn('Z'), 0, fuel).value;
      WalkArrives(network, instructions, starts[0], EndsIn('Z'), starts[0], 0, fuel, n);
      LengthsArrive(network, starts[1..], instructions, fuel);
    }
  }

  /** When every walk from a name ending in A arrives within the fuel, the
      answer is the least common multiple of the arrival counts: a
      positive common multiple dividing every other. */
  lemma PartTwoLcm(network: map<string, Node>, keys: seq<string>, instructions: string, fuel: nat)
    requires instructions != [] && forall k | k in keys :: k in network
    requires Lengths(network, Starts(keys), instructions, fuel).Ok?
    ensures var lengths := Lengths(network, Starts(keys), instructions, fuel).value;
      && PartTwo(network, keys, instructions, fuel).Ok?
      && PartTwo(network, keys, instructions, fuel).value > 0
      && CommonMultiple(PartTwo(network, keys, instructions, fuel).value, lengths)
      && forall m: int | m > 0 && CommonMultiple(m, lengths) :: MultipleOf(m, PartTwo(network, keys, instructions, fuel).value)
  {
    StartsSpec(keys);
    var starts := Starts(keys);
    var lengths := Lengths(network, starts, instructions, fuel).value;
    LengthsArrive(network, starts, instructions, fuel);
    FoldLcmSpec(1, lengths);
    forall m: int | m > 0 ensures MultipleOf(m, 1) {
    }
  }
}
